/** Bitmaps as a byte string with a keyed overlay (redis/bitmap/core.go). */
module Bitmap {
  import opened Common
  import opened Bits

  /** A key's reduced state: no value, a plain string, or keyed bits over an optional base string. */
  datatype Snapshot =
    | Absent
    | Scalar(bytes: seq<bv8>)
    | Keyed(base: Option<seq<bv8>>, adds: map<nat, bool>)

  datatype Effect = PutScalar(bytes: seq<bv8>) | PutBit(offset: nat, on: bool) | DropBit(offset: nat)

  /** The engine's reduction of one effect: keyed elements lie over a string without replacing it. */
  function Apply(s: Snapshot, e: Effect): Snapshot
  {
    match e
    case PutScalar(b) => Scalar(b)
    case PutBit(o, on) =>
      (match s
       case Absent => Keyed(None, map[o := on])
       case Scalar(b) => Keyed(Some(b), map[o := on])
       case Keyed(base, adds) => Keyed(base, adds[o := on]))
    case DropBit(o) => if s.Keyed? then Keyed(s.base, s.adds - {o}) else s
  }

  /** The string under the overlay; empty when there is none. */
  function Base(s: Snapshot): seq<bv8>
  {
    match s
    case Absent => []
    case Scalar(b) => b
    case Keyed(base, _) => if base.Some? then base.value else []
  }

  /** `getBit`: over a base an element that is on toggles, without one it is the bit. */
  function GetBit(s: Snapshot, off: nat): bool
  {
    match s
    case Absent => false
    case Scalar(b) => BitAt(b, off)
    case Keyed(base, adds) =>
      var baseBit := base.Some? && BitAt(base.value, off);
      if off !in adds then baseBit
      else if base.Some? then (if adds[off] then !baseBit else baseBit)
      else adds[off]
  }

  lemma GetBitIsXor(s: Snapshot, off: nat)
    requires s.Keyed?
    ensures GetBit(s, off) == (BitAt(Base(s), off) != (off in s.adds && s.adds[off]))
  {
  }

  function Max(a: nat, b: nat): nat { if a < b then b else a }

  /** Bytes needed for all the given offsets. */
  ghost function Span(offs: set<nat>): (n: nat)
    ensures forall o :: o in offs ==> o / 8 < n
    ensures n == 0 || exists o :: o in offs && n == o / 8 + 1
  {
    if offs == {} then 0
    else
      var o :| o in offs;
      assert forall p :: p in offs ==> p == o || p in offs - {o};
      Max(o / 8 + 1, Span(offs - {o}))
  }

  lemma SpanIs(offs: set<nat>, n: nat)
    requires forall o :: o in offs ==> o / 8 < n
    requires n == 0 || exists o :: o in offs && n == o / 8 + 1
    ensures Span(offs) == n
  {
  }

  /** The string's length: every offset ever written counts, whatever bit it holds. */
  ghost function Length(s: Snapshot): nat
  {
    if s.Keyed? then Max(|Base(s)|, Span(s.adds.Keys)) else |Base(s)|
  }

  lemma BitsEnd(s: Snapshot, off: nat)
    requires GetBit(s, off)
    ensures off < 8 * Length(s)
  {
  }

  // ---- Rebuilding the bytes ----

  /** Lays the elements that are on over a buffer, toggling or setting. */
  method Overlay(data: array<bv8>, adds: map<nat, bool>, toggle: bool)
    requires forall o :: o in adds ==> o / 8 < data.Length
    modifies data
    ensures forall o: nat :: BitAt(data[..], o) ==
              if o in adds && adds[o] then (if toggle then !old(BitAt(data[..], o)) else true) else old(BitAt(data[..], o))
  {
    ghost var was := data[..];
    var todo := adds.Keys;
    while todo != {}
      invariant todo <= adds.Keys
      invariant forall o: nat :: BitAt(data[..], o) ==
                  if o in adds && adds[o] && o !in todo then (if toggle then !BitAt(was, o) else true) else BitAt(was, o)
      decreases |todo|
    {
      var off :| off in todo;
      todo := todo - {off};
      if adds[off] {
        ghost var before := data[..];
        if toggle {
          data[off / 8] := Flip(data[off / 8], 7 - off % 8);
          forall o: nat ensures BitAt(data[..], o) == if o == off then !BitAt(before, o) else BitAt(before, o) {
            FlipAt(before, off, o);
            assert data[..] == before[off / 8 := Flip(before[off / 8], 7 - off % 8)];
          }
        } else {
          data[off / 8] := Raise(data[off / 8], 7 - off % 8);
          forall o: nat ensures BitAt(data[..], o) == (o == off || BitAt(before, o)) {
            RaiseAt(before, off, o);
            assert data[..] == before[off / 8 := Raise(before[off / 8], 7 - off % 8)];
          }
        }
      }
    }
  }

  method MaxOffset(adds: map<nat, bool>) returns (max: nat)
    ensures adds != map[] ==> Span(adds.Keys) == max / 8 + 1
  {
    max := 0;
    var todo := adds.Keys;
    while todo != {}
      invariant todo <= adds.Keys
      invariant forall o :: o in adds && o !in todo ==> o <= max
      invariant max in adds || max == 0
      decreases |todo|
    {
      var off :| off in todo;
      todo := todo - {off};
      if off > max {
        max := off;
      }
    }
    if adds != map[] {
      ghost var o :| o in adds;
      assert max in adds;
      SpanIs(adds.Keys, max / 8 + 1);
    }
  }

  /** `reconstructBitmapBytes`: as long as the string is, and every bit, inside or past the end, is what `getBit` reads. */
  method Reconstruct(s: Snapshot) returns (r: seq<bv8>)
    ensures |r| == Length(s)
    ensures forall o: nat :: BitAt(r, o) == GetBit(s, o)
  {
    match s {
      case Absent => return [];
      case Scalar(b) => return b;
      case Keyed(base, adds) =>
        if base.None? && adds == map[] {
          return [];
        }
        var max := MaxOffset(adds);
        var bytes := if base.Some? then base.value else [];
        var n := if adds != map[] && max / 8 + 1 > |bytes| then max / 8 + 1 else |bytes|;
        var data := new bv8[n](i => if 0 <= i < |bytes| then bytes[i] else 0);
        assert data[..] == bytes + seq(n - |bytes|, _ => 0 as bv8);
        forall o: nat ensures BitAt(data[..], o) == BitAt(bytes, o) {
          PaddedBits(bytes, n - |bytes|, o);
        }
        Overlay(data, adds, base.Some?);
        return data[..];
    }
  }

  // ---- SETBIT ----

  const MAX_OFFSET := 0x1_0000_0000

  /** The one data effect SETBIT emits: zeros for a missing key, otherwise an element, a toggle when there is a base. */
  function SetBitEffect(s: Snapshot, off: nat, on: bool): Effect
  {
    if s.Absent? && !on then PutScalar(seq(off / 8 + 1, _ => 0 as bv8))
    else if s.Scalar? || (s.Keyed? && s.base.Some?) then PutBit(off, on != BitAt(Base(s), off))
    else PutBit(off, on)
  }

  lemma SpanWith(offs: set<nat>, o: nat)
    ensures Span(offs + {o}) == Max(Span(offs), o / 8 + 1)
  {
    var n := Max(Span(offs), o / 8 + 1);
    assert o in offs + {o};
    if n != o / 8 + 1 {
      var p :| p in offs && n == p / 8 + 1;
      assert p in offs + {o};
    }
    SpanIs(offs + {o}, n);
  }

  /** Whatever form the key has, SETBIT sets that bit, keeps every other bit, and extends the string as far as needed. */
  lemma SetBitApplied(s: Snapshot, off: nat, on: bool)
    ensures var s' := Apply(s, SetBitEffect(s, off, on));
            && (forall o: nat :: GetBit(s', o) == if o == off then on else GetBit(s, o))
            && Length(s') == Max(Length(s), off / 8 + 1)
  {
    var s' := Apply(s, SetBitEffect(s, off, on));
    if s.Absent? && !on {
      forall o: nat ensures !GetBit(s', o) {
        ZeroBytes(off / 8 + 1, o);
      }
    } else {
      var was := if s.Keyed? then s.adds.Keys else {};
      assert s'.adds.Keys == was + {off};
      SpanWith(was, off);
      assert s.Keyed? || Span({}) == 0;
    }
  }

  /** A run of SETBITs on one key. */
  function Run(s: Snapshot, ops: seq<(nat, bool)>): Snapshot
  {
    if ops == [] then s
    else
      var t := Run(s, ops[..|ops| - 1]);
      Apply(t, SetBitEffect(t, ops[|ops| - 1].0, ops[|ops| - 1].1))
  }

  /** The growing bit array: the last write to an offset, or the starting bit. */
  function Expected(s: Snapshot, ops: seq<(nat, bool)>, o: nat): bool
  {
    if ops == [] then GetBit(s, o)
    else if ops[|ops| - 1].0 == o then ops[|ops| - 1].1
    else Expected(s, ops[..|ops| - 1], o)
  }

  function Reach(n: nat, ops: seq<(nat, bool)>): nat
  {
    if ops == [] then n else Max(Reach(n, ops[..|ops| - 1]), ops[|ops| - 1].0 / 8 + 1)
  }

  lemma {:induction false} RunIsBitArray(s: Snapshot, ops: seq<(nat, bool)>)
    ensures forall o: nat :: GetBit(Run(s, ops), o) == Expected(s, ops, o)
    ensures Length(Run(s, ops)) == Reach(Length(s), ops)
  {
    if ops != [] {
      var init := ops[..|ops| - 1];
      RunIsBitArray(s, init);
      SetBitApplied(Run(s, init), ops[|ops| - 1].0, ops[|ops| - 1].1);
      hide GetBit, Length;
    }
  }

  // ---- BITCOUNT ----

  datatype Range = Range(start: int, end: int, inBits: bool)

  predicate InRange(u: int, n: nat, start: int, end: int)
  {
    (if start < 0 then start + n else start) <= u <= (if end < 0 then end + n else end)
  }

  /** The bits BITCOUNT promises to count: the set bits whose bit or byte position lies in the range. */
  ghost function Counted(s: Snapshot, range: Option<Range>): set<nat>
  {
    var n := Length(s);
    set o | 0 <= o < 8 * n && GetBit(s, o)
            && (range.Some? ==> if range.value.inBits then InRange(o, 8 * n, range.value.start, range.value.end)
                                else InRange(o / 8, n, range.value.start, range.value.end))
  }

  ghost function OnesIn(data: seq<bv8>, lo: nat, hi: nat): set<nat>
  {
    set o | lo <= o < hi && BitAt(data, o)
  }

  lemma OneMore(data: seq<bv8>, lo: nat, hi: nat)
    requires lo <= hi
    ensures |OnesIn(data, lo, hi + 1)| == |OnesIn(data, lo, hi)| + if BitAt(data, hi) then 1 else 0
  {
    var was, now := OnesIn(data, lo, hi), OnesIn(data, lo, hi + 1);
    assert now == if BitAt(data, hi) then was + {hi} else was;
  }

  /** `bits.OnesCount8`. */
  function OnesCount(b: bv8): nat
  {
    OnesUpTo(b, 8)
  }

  function OnesUpTo(b: bv8, n: nat): nat
    requires n <= 8
  {
    if n == 0 then 0 else OnesUpTo(b, n - 1) + if Test(b, 8 - n) then 1 else 0
  }

  lemma {:induction false} ByteMore(data: seq<bv8>, lo: nat, i: nat, n: nat)
    requires i < |data| && lo <= 8 * i && n <= 8
    ensures |OnesIn(data, lo, 8 * i + n)| == |OnesIn(data, lo, 8 * i)| + OnesUpTo(data[i], n)
    decreases n
  {
    if n > 0 {
      ByteMore(data, lo, i, n - 1);
      OneMore(data, lo, 8 * i + n - 1);
      BitOfByte(data, i, n - 1);
    }
  }

  method CountAdds(adds: map<nat, bool>) returns (count: nat)
    ensures count == |set o | o in adds && adds[o]|
  {
    count := 0;
    var todo := adds.Keys;
    ghost var seen: set<nat> := {};
    while todo != {}
      invariant todo <= adds.Keys
      invariant seen == set o | o in adds && o !in todo && adds[o]
      invariant count == |seen|
      decreases |todo|
    {
      var off :| off in todo;
      todo := todo - {off};
      if adds[off] {
        count := count + 1;
        seen := seen + {off};
      }
    }
    assert seen == set o | o in adds && adds[o];
  }

  method CountBits(data: seq<bv8>, lo: nat, hi: nat) returns (count: nat)
    requires lo <= hi <= 8 * |data|
    ensures count == |OnesIn(data, lo, hi)|
  {
    count := 0;
    assert OnesIn(data, lo, lo) == {};
    for i := lo to hi
      invariant count == |OnesIn(data, lo, i)|
    {
      OneMore(data, lo, i);
      if Test(data[i / 8], 7 - i % 8) {
        count := count + 1;
      }
    }
  }

  method CountBytes(data: seq<bv8>, lo: nat, hi: nat) returns (count: nat)
    requires lo <= hi <= |data|
    ensures count == |OnesIn(data, 8 * lo, 8 * hi)|
  {
    count := 0;
    assert OnesIn(data, 8 * lo, 8 * lo) == {};
    for i := lo to hi
      invariant count == |OnesIn(data, 8 * lo, 8 * i)|
    {
      ByteMore(data, 8 * lo, i, 8);
      count := count + OnesCount(data[i]);
    }
  }

  /** BITCOUNT's normalised bounds; `end` may still fall before `start`. */
  function Bounds(n: nat, start: int, end: int): (r: (int, int))
    ensures 0 <= r.0 && r.1 < n
    ensures forall u :: 0 <= u < n ==> (InRange(u, n, start, end) <==> r.0 <= u <= r.1)
  {
    var s := if start < 0 then n + start else start;
    var e := if end < 0 then n + end else end;
    (if s < 0 then 0 else s, if e >= n then n - 1 else e)
  }

  /** BITCOUNT, fast path included: the number of set bits in the range, as `getBit` reads them. */
  method BitCount(s: Snapshot, range: Option<Range>) returns (count: nat)
    ensures count == |Counted(s, range)|
  {
    if s.Absent? {
      assert Counted(s, range) == {};
      return 0;
    }
    if range.None? && s.Keyed? && s.base.None? {
      count := CountAdds(s.adds);
      CountedAdds(s);
      return;
    }
    count := CountIn(s, range);
  }

  lemma CountedAdds(s: Snapshot)
    requires s.Keyed? && s.base.None?
    ensures Counted(s, None) == set o | o in s.adds && s.adds[o]
  {
    forall o: nat | GetBit(s, o) ensures o < 8 * Length(s) {
      BitsEnd(s, o);
    }
  }

  /** Over the string itself, in bytes or in bits. */
  method CountIn(s: Snapshot, range: Option<Range>) returns (count: nat)
    ensures count == |Counted(s, range)|
  {
    var data := Reconstruct(s);
    hide GetBit, Length, BitAt, InRange;
    var r := if range.None? then Range(0, |data| - 1, false) else range.value;
    if r.inBits {
      var b := Bounds(8 * |data|, r.start, r.end);
      if b.0 > b.1 {
        assert Counted(s, range) == {};
        return 0;
      }
      count := CountBits(data, b.0, b.1 + 1);
      assert Counted(s, range) == OnesIn(data, b.0, b.1 + 1);
    } else {
      var b := Bounds(|data|, r.start, r.end);
      forall u | 0 <= u < |data| && range.None? ensures InRange(u, |data|, r.start, r.end) {
        AllInRange(u, |data|);
      }
      forall o: nat | o < 8 * |data|
        ensures (range.None? || InRange(o / 8, |data|, r.start, r.end)) <==> 8 * b.0 <= o < 8 * (b.1 + 1)
      {
        assert InRange(o / 8, |data|, r.start, r.end) <==> b.0 <= o / 8 <= b.1;
      }
      if b.0 > b.1 {
        assert Counted(s, range) == {};
        return 0;
      }
      count := CountBytes(data, b.0, b.1 + 1);
      assert Counted(s, range) == OnesIn(data, 8 * b.0, 8 * (b.1 + 1));
    }
  }

  lemma AllInRange(u: int, n: nat)
    requires 0 <= u < n
    ensures InRange(u, n, 0, n - 1)
  {
  }

  // ---- A key's bitmap, and the commands that write it ----

  datatype Reply = BadOffset | BadBit | Bit(was: bool)

  class Key {
    var snap: Snapshot

    constructor (snap: Snapshot)
      ensures this.snap == snap
    {
      this.snap := snap;
    }

    method Emit(e: Effect)
      modifies this
      ensures snap == Apply(old(snap), e)
    {
      snap := Apply(snap, e);
    }

    /** SETBIT: replies the old bit; an argument out of range changes nothing. */
    method SetBit(offset: int, value: int) returns (r: Reply)
      modifies this
      ensures r == BadOffset <==> !(0 <= offset < MAX_OFFSET)
      ensures r == BadBit <==> 0 <= offset < MAX_OFFSET && value != 0 && value != 1
      ensures !r.Bit? ==> snap == old(snap)
      ensures r.Bit? ==> r.was == GetBit(old(snap), offset) && snap == Run(old(snap), [(offset, value == 1)])
      ensures r.Bit? ==> (forall o: nat :: GetBit(snap, o) == if o == offset then value == 1 else GetBit(old(snap), o))
                         && Length(snap) == Max(Length(old(snap)), offset / 8 + 1)
    {
      if offset < 0 || offset >= MAX_OFFSET {
        return BadOffset;
      }
      if value != 0 && value != 1 {
        return BadBit;
      }
      var oldBit := GetBit(snap, offset);
      SetBitApplied(snap, offset, value == 1);
      assert [(offset as nat, value == 1)][..0] == [];
      Emit(SetBitEffect(snap, offset, value == 1));
      return Bit(oldBit);
    }

    /**
      `emitBitmapBulk`: afterwards every bit, at every offset, is the buffer's. The string keeps the buffer's
      length exactly when the buffer is no longer than the base or its last byte is not zero.
    */
    method EmitBulk(data: seq<bv8>)
      modifies this
      ensures forall o: nat :: GetBit(snap, o) == BitAt(data, o)
      ensures |Base(old(snap))| <= |data| ==>
                (Length(snap) == |data| <==> |data| == |Base(old(snap))| || data[|data| - 1] != 0)
    {
      ghost var was := snap;
      var need := Differences(data, Base(snap));
      DropStale(need);
      PutAll(need);
      assert Bulk(was, snap, data, need);
      hide *;
      BulkBits(was, snap, data, need);
      if |Base(was)| <= |data| {
        BulkLength(was, snap, data, need);
      }
    }

    /** Removes the overlay's elements that are no longer needed. */
    method DropStale(need: set<nat>)
      modifies this
      ensures if old(snap).Keyed? then snap.Keyed? && snap.base == old(snap).base && snap.adds.Keys == old(snap).adds.Keys * need
              else snap == old(snap)
    {
      if !snap.Keyed? {
        return;
      }
      ghost var was := snap;
      var todo := snap.adds.Keys;
      while todo != {}
        invariant snap.Keyed? && snap.base == was.base && todo <= was.adds.Keys
        invariant snap.adds.Keys == was.adds.Keys * (need + todo)
        decreases |todo|
      {
        var off :| off in todo;
        todo := todo - {off};
        if off !in need {
          Emit(DropBit(off));
        }
      }
    }

    /** Turns every needed element on. */
    method PutAll(need: set<nat>)
      requires snap.Keyed? ==> snap.adds.Keys <= need
      modifies this
      ensures if old(snap).Keyed? || need != {} then
                && snap.Keyed? && snap.adds.Keys == need && (forall o :: o in need ==> snap.adds[o])
                && Base(snap) == Base(old(snap)) && (snap.base.Some? <==> old(snap).Scalar? || (old(snap).Keyed? && old(snap).base.Some?))
              else snap == old(snap)
    {
      ghost var was := snap;
      var todo := need;
      while todo != {}
        invariant todo <= need && (todo == need ==> snap == was) && (todo != need || was.Keyed? ==> snap.Keyed?)
        invariant snap.Keyed? ==> need - todo <= snap.adds.Keys <= need && forall o :: o in need - todo ==> snap.adds[o]
        invariant Base(snap) == Base(was)
        invariant snap.Keyed? ==> (snap.base.Some? <==> was.Scalar? || (was.Keyed? && was.base.Some?))
        decreases |todo|
      {
        var off :| off in todo;
        todo := todo - {off};
        Emit(PutBit(off, true));
      }
    }
  }

  /** Offsets where a buffer and the base differ, both taken to go on with zeros. */
  method Differences(data: seq<bv8>, base: seq<bv8>) returns (need: set<nat>)
    ensures forall o: nat :: o in need <==> BitAt(data, o) != BitAt(base, o)
  {
    need := {};
    var maxLen := if |base| > |data| then |base| else |data|;
    for i := 0 to maxLen
      invariant forall o: nat :: o in need <==> o < 8 * i && BitAt(data, o) != BitAt(base, o)
    {
      var diff := ByteAt(data, i) ^ ByteAt(base, i);
      for k := 0 to 8
        invariant forall o: nat :: o in need <==> o < 8 * i + k && BitAt(data, o) != BitAt(base, o)
      {
        DiffTest(data, base, i, k);
        if Test(diff, 7 - k) {
          need := need + {8 * i + k};
        }
      }
    }
  }

  function ByteAt(data: seq<bv8>, i: nat): bv8
  {
    if i < |data| then data[i] else 0
  }

  lemma BitOfByte(data: seq<bv8>, i: nat, k: nat)
    requires k < 8
    ensures BitAt(data, 8 * i + k) == Test(ByteAt(data, i), 7 - k)
  {
    hide Test;
    ZeroTest(0);
    assert (8 * i + k) / 8 == i && (8 * i + k) % 8 == k;
  }

  lemma DiffTest(data: seq<bv8>, base: seq<bv8>, i: nat, k: nat)
    requires k < 8
    ensures Test(ByteAt(data, i) ^ ByteAt(base, i), 7 - k) == (BitAt(data, 8 * i + k) != BitAt(base, 8 * i + k))
  {
    hide *;
    BitOfByte(data, i, k);
    BitOfByte(base, i, k);
    XorTest(ByteAt(data, i), ByteAt(base, i), 7 - k);
  }

  /** The overlay holds exactly the differences from the base, all of them on. */
  ghost predicate Bulk(was: Snapshot, now: Snapshot, data: seq<bv8>, need: set<nat>)
  {
    && (forall o: nat :: o in need <==> BitAt(data, o) != BitAt(Base(was), o))
    && if now.Keyed? then
         && Base(now) == Base(was) && now.adds.Keys == need && (forall o :: o in need ==> now.adds[o])
         && (now.base.Some? <==> was.Scalar? || (was.Keyed? && was.base.Some?))
       else now == was && need == {}
  }

  lemma BulkBits(was: Snapshot, now: Snapshot, data: seq<bv8>, need: set<nat>)
    requires Bulk(was, now, data, need)
    ensures forall o: nat :: GetBit(now, o) == BitAt(data, o)
  {
    forall o: nat ensures GetBit(now, o) == BitAt(data, o) {
      assert o in need <==> BitAt(data, o) != BitAt(Base(was), o);
      if now.Keyed? {
        GetBitIsXor(now, o);
      }
    }
  }

  lemma LastByte(data: seq<bv8>)
    requires data != []
    ensures data[|data| - 1] != 0 <==> exists o: nat :: BitAt(data, o) && o / 8 == |data| - 1
  {
    var n := |data| - 1;
    ZeroTest(data[n]);
    if data[n] != 0 {
      var j :| 0 <= j < 8 && Test(data[n], j);
      var o := 8 * n + (7 - j);
      assert o / 8 == n && o % 8 == 7 - j;
      assert BitAt(data, o);
    }
  }

  lemma BulkSpan(data: seq<bv8>, base: seq<bv8>, need: set<nat>)
    requires |base| < |data| && forall o: nat :: o in need <==> BitAt(data, o) != BitAt(base, o)
    ensures Span(need) == |data| <==> data[|data| - 1] != 0
  {
    var n := |data|;
    LastByte(data);
    forall o | o in need ensures o / 8 < n {
      assert BitAt(data, o) || BitAt(base, o);
    }
    hide Test;
    if data[n - 1] != 0 {
      var o: nat :| BitAt(data, o) && o / 8 == n - 1;
      assert o in need;
      SpanIs(need, n);
    }
  }

  lemma BulkLength(was: Snapshot, now: Snapshot, data: seq<bv8>, need: set<nat>)
    requires Bulk(was, now, data, need) && |Base(was)| <= |data|
    ensures Length(now) == |data| <==> |data| == |Base(was)| || data[|data| - 1] != 0
  {
    var base, n := Base(was), |data|;
    assert Length(now) == Max(|base|, Span(need)) by {
      assert need == {} ==> Span(need) == 0;
    }
    assert forall o: nat :: o in need <==> BitAt(data, o) != BitAt(base, o);
    assert Span(need) <= n;
    hide Bulk, Span, BitAt, Length;
    if |base| < n {
      BulkSpan(data, base, need);
    }
  }

  /** BITFIELD can shorten a string: writing zero bits past the end of a key leaves no trace of the new length. */
  lemma BulkCanLoseLength()
    ensures Bulk(Absent, Absent, [0], {}) && Length(Absent) != |[0 as bv8]|
  {
    forall o: nat ensures !BitAt([0], o) {
      ZeroTest(0);
    }
  }
}
