/** Order-preserving key encoding of SQL values (sql/encoding.go). */
module Encoding {
  import opened Common
  import opened Bytes

  /** A SQLite value; a REAL is its IEEE 754 bit pattern, a TEXT its UTF-8 bytes. */
  datatype Value = Null | Integer(i: int64) | Real(bits: uint64) | Text(t: bytes) | Blob(b: bytes)

  datatype Affinity = INTEGER | REAL | TEXT | BLOB

  predicate Fits(v: Value, aff: Affinity)
  {
    match aff
    case INTEGER => v.Integer?
    case REAL => v.Real?
    case TEXT => v.Text?
    case BLOB => v.Blob?
  }

  ghost predicate AllFit(vals: seq<Value>, affs: seq<Affinity>)
  {
    |vals| == |affs| && forall i :: 0 <= i < |vals| ==> Fits(vals[i], affs[i])
  }

  // ---- 64-bit word operations ----

  function ToUint64(x: int64): uint64 { if x < 0 then x + TWO_64 else x }

  function ToInt64(u: uint64): int64 { if u >= TWO_63 then u - TWO_64 else u }

  /** `u ^ (1 << 63)` */
  function FlipSignBit(u: uint64): uint64 { if u >= TWO_63 then u - TWO_63 else u + TWO_63 }

  /** `^u` */
  function Complement(u: uint64): uint64 { TWO_64 - 1 - u }

  function RealToKey(bits: uint64): uint64
  {
    if bits >= TWO_63 then Complement(bits) else FlipSignBit(bits)
  }

  function KeyToReal(key: uint64): uint64
  {
    if key >= TWO_63 then FlipSignBit(key) else Complement(key)
  }

  // ---- Natural order of values ----

  /** Rank of a bit pattern in sign-magnitude order: negatives by falling magnitude, then positives. */
  function RealRank(bits: uint64): int
  {
    if bits >= TWO_63 then -1 - (bits - TWO_63) else bits
  }

  /** The order a column's values have; only values of one kind are ever compared. */
  function ValueCompare(a: Value, b: Value): (c: int)
    requires exists aff :: Fits(a, aff) && Fits(b, aff)
  {
    match a
    case Integer(i) => Sign(i as int - b.i as int)
    case Real(bits) => Sign(RealRank(bits) - RealRank(b.bits))
    case Text(t) => Compare(t, b.t)
    case Blob(x) => Compare(x, b.b)
  }

  function TupleCompare(x: seq<Value>, y: seq<Value>, affs: seq<Affinity>): (c: int)
    requires AllFit(x, affs) && AllFit(y, affs)
  {
    if affs == [] then 0
    else if x[0] != y[0] then ValueCompare(x[0], y[0])
    else TupleCompare(x[1..], y[1..], affs[1..])
  }

  // ---- Encoders ----

  function EncodeIndexValue(v: Value, aff: Affinity): (r: bytes)
    requires Fits(v, aff)
  {
    match aff
    case INTEGER => PutUint64(FlipSignBit(ToUint64(v.i)))
    case REAL => PutUint64(RealToKey(v.bits))
    case TEXT => v.t
    case BLOB => v.b
  }

  /** What `encodeTupleBytes` produces: 0x00 becomes 0x00 0x01, and 0x00 0x00 ends the component. */
  function Escaped(raw: bytes): (r: bytes)
    ensures |r| >= 2
  {
    if raw == [] then [0, 0]
    else (if raw[0] == 0 then [0, 1] else [raw[0]]) + Escaped(raw[1..])
  }

  /** What `decodeTupleBytes` reads back: the raw bytes and the rest of the buffer. */
  function Unescaped(buf: bytes): (r: Option<(bytes, bytes)>)
  {
    if buf == [] then None
    else if buf[0] != 0 then
      (match Unescaped(buf[1..])
       case None => None
       case Some(p) => Some(([buf[0]] + p.0, p.1)))
    else if |buf| < 2 then None
    else if buf[1] == 0 then Some(([], buf[2..]))
    else if buf[1] == 1 then
      (match Unescaped(buf[2..])
       case None => None
       case Some(p) => Some(([0] + p.0, p.1)))
    else None
  }

  method EncodeTupleBytes(raw: bytes) returns (out: bytes)
    ensures out == Escaped(raw)
  {
    out := [];
    for i := 0 to |raw|
      invariant out + Escaped(raw[i..]) == Escaped(raw)
    {
      assert raw[i..][1..] == raw[i + 1..];
      ghost var before := out;
      if raw[i] == 0 {
        out := out + [0, 1];
        assert before + ([0, 1] + Escaped(raw[i + 1..])) == out + Escaped(raw[i + 1..]);
      } else {
        out := out + [raw[i]];
        assert before + ([raw[i]] + Escaped(raw[i + 1..])) == out + Escaped(raw[i + 1..]);
      }
    }
    out := out + [0, 0];
  }

  method DecodeTupleBytes(buf: bytes) returns (r: Option<(bytes, bytes)>)
    ensures r == Unescaped(buf)
  {
    var out: bytes := [];
    var i := 0;
    assert buf[0..] == buf;
    PrependNothing(Unescaped(buf));
    while i < |buf|
      invariant 0 <= i <= |buf|
      invariant Unescaped(buf) == Prepend(out, Unescaped(buf[i..]))
    {
      var b := buf[i];
      if b != 0 {
        assert buf[i..][1..] == buf[i + 1..];
        PrependTwice(out, [b], Unescaped(buf[i + 1..]));
        out := out + [b];
        i := i + 1;
      } else if i + 1 >= |buf| {
        return None;
      } else if buf[i + 1] == 0 {
        assert buf[i..][2..] == buf[i + 2..] && out + [] == out;
        return Some((out, buf[i + 2..]));
      } else if buf[i + 1] == 1 {
        assert buf[i..][2..] == buf[i + 2..];
        PrependTwice(out, [0], Unescaped(buf[i + 2..]));
        out := out + [0];
        i := i + 2;
      } else {
        return None;
      }
    }
    return None;
  }

  function Prepend(pre: bytes, r: Option<(bytes, bytes)>): Option<(bytes, bytes)>
  {
    match r
    case None => None
    case Some(p) => Some((pre + p.0, p.1))
  }

  lemma PrependNothing(r: Option<(bytes, bytes)>)
    ensures Prepend([], r) == r
  {
    if r.Some? {
      assert [] + r.value.0 == r.value.0;
    }
  }

  lemma PrependTwice(a: bytes, b: bytes, r: Option<(bytes, bytes)>)
    ensures Prepend(a + b, r) == Prepend(a, Prepend(b, r))
  {
    if r.Some? {
      assert a + b + r.value.0 == a + (b + r.value.0);
    }
  }

  /** Decoding undoes encoding and hands back exactly the bytes that follow. */
  lemma {:induction false} UnescapedEscaped(raw: bytes, rest: bytes)
    ensures Unescaped(Escaped(raw) + rest) == Some((raw, rest))
  {
    var buf := Escaped(raw) + rest;
    if raw == [] {
      assert buf[2..] == rest;
    } else if raw[0] == 0 {
      UnescapedEscaped(raw[1..], rest);
      assert buf[2..] == Escaped(raw[1..]) + rest;
      assert raw == [0] + raw[1..];
    } else {
      UnescapedEscaped(raw[1..], rest);
      assert buf[1..] == Escaped(raw[1..]) + rest;
      assert raw == [raw[0]] + raw[1..];
    }
  }

  /** The decoder accepts nothing but the encoder's output: each value has one encoding. */
  lemma {:induction false} EscapedUnescaped(buf: bytes)
    requires Unescaped(buf).Some?
    ensures buf == Escaped(Unescaped(buf).value.0) + Unescaped(buf).value.1
  {
    var p := Unescaped(buf).value;
    if buf[0] != 0 {
      EscapedUnescaped(buf[1..]);
      assert p.0[1..] == Unescaped(buf[1..]).value.0;
      assert buf == [buf[0]] + buf[1..];
    } else if buf[1] == 1 {
      EscapedUnescaped(buf[2..]);
      assert p.0[1..] == Unescaped(buf[2..]).value.0;
      assert buf == [0, 1] + buf[2..];
    } else {
      assert buf == [0, 0] + buf[2..];
    }
  }

  function EncodeComponent(v: Value, aff: Affinity): (r: bytes)
    requires Fits(v, aff)
    ensures |r| >= 2
  {
    match aff
    case INTEGER => EncodeIndexValue(v, aff)
    case REAL => EncodeIndexValue(v, aff)
    case TEXT => Escaped(v.t)
    case BLOB => Escaped(v.b)
  }

  function DecodeComponent(buf: bytes, aff: Affinity): (r: Option<(Value, bytes)>)
  {
    match aff
    case INTEGER =>
      if |buf| < 8 then None
      else Some((Integer(ToInt64(FlipSignBit(Uint64(buf[..8])))), buf[8..]))
    case REAL =>
      if |buf| < 8 then None
      else Some((Real(KeyToReal(Uint64(buf[..8]))), buf[8..]))
    case TEXT =>
      (match Unescaped(buf)
       case None => None
       case Some(p) => Some((Text(p.0), p.1)))
    case BLOB =>
      (match Unescaped(buf)
       case None => None
       case Some(p) => Some((Blob(p.0), p.1)))
  }

  /** The tuple form: component encodings one after another. */
  function EncodeComponents(vals: seq<Value>, affs: seq<Affinity>): (r: bytes)
    requires AllFit(vals, affs)
  {
    if vals == [] then [] else EncodeComponent(vals[0], affs[0]) + EncodeComponents(vals[1..], affs[1..])
  }

  lemma {:induction false} EncodeComponentsSnoc(vals: seq<Value>, affs: seq<Affinity>, v: Value, aff: Affinity)
    requires AllFit(vals, affs) && Fits(v, aff)
    ensures AllFit(vals + [v], affs + [aff])
    ensures EncodeComponents(vals + [v], affs + [aff]) == EncodeComponents(vals, affs) + EncodeComponent(v, aff)
  {
    hide EncodeComponent, Fits;
    if vals == [] {
      assert vals + [v] == [v] && affs + [aff] == [aff];
      assert EncodeComponents([v], [aff]) == EncodeComponent(v, aff) + [];
    } else {
      EncodeComponentsSnoc(vals[1..], affs[1..], v, aff);
      assert (vals + [v])[1..] == vals[1..] + [v] && (affs + [aff])[1..] == affs[1..] + [aff];
    }
  }

  /** The append loop shared by `encodePK`, `encodeIndexKeyTuple` and `encodeIndexKeyPrefix`. */
  method AppendComponents(vals: seq<Value>, affs: seq<Affinity>, count: nat) returns (buf: bytes)
    requires AllFit(vals, affs) && count <= |vals|
    ensures buf == EncodeComponents(vals[..count], affs[..count])
  {
    buf := [];
    for i := 0 to count
      invariant buf == EncodeComponents(vals[..i], affs[..i])
    {
      EncodeComponentsSnoc(vals[..i], affs[..i], vals[i], affs[i]);
      assert vals[..i] + [vals[i]] == vals[..i + 1] && affs[..i] + [affs[i]] == affs[..i + 1];
      buf := buf + EncodeComponent(vals[i], affs[i]);
    }
  }

  /** `encodePK` and `encodeIndexKeyTuple`: a lone component is stored bare, several in tuple form. */
  function EncodeKey(vals: seq<Value>, affs: seq<Affinity>): (r: bytes)
    requires AllFit(vals, affs)
  {
    if |vals| == 1 then EncodeIndexValue(vals[0], affs[0]) else EncodeComponents(vals, affs)
  }

  method EncodePK(vals: seq<Value>, affs: seq<Affinity>) returns (r: Option<bytes>)
    requires |vals| == |affs| ==> AllFit(vals, affs)
    ensures |vals| != |affs| ==> r == None
    ensures |vals| == |affs| ==> r == Some(EncodeKey(vals, affs))
  {
    if |vals| != |affs| {
      return None;
    }
    if |vals| == 1 {
      return Some(EncodeIndexValue(vals[0], affs[0]));
    }
    var buf := AppendComponents(vals, affs, |vals|);
    assert vals[..|vals|] == vals && affs[..|affs|] == affs;
    return Some(buf);
  }

  /** `decodeSinglePK`: a numeric key of the wrong length reads back as text. */
  function DecodeSinglePK(pk: bytes, aff: Affinity): (v: Value)
  {
    match aff
    case INTEGER => if |pk| != 8 then Text(pk) else Integer(ToInt64(FlipSignBit(Uint64(pk))))
    case REAL => if |pk| != 8 then Text(pk) else Real(KeyToReal(Uint64(pk)))
    case TEXT => Text(pk)
    case BLOB => Blob(pk)
  }

  function Nulls(n: nat): (r: seq<Value>)
  {
    seq(n, _ => Null)
  }

  /** The composite decode loop: a malformed component turns the rest of the tuple to NULL. */
  function DecodeComponents(buf: bytes, affs: seq<Affinity>): (r: seq<Value>)
    ensures |r| == |affs|
    decreases affs
  {
    if affs == [] then []
    else
      match DecodeComponent(buf, affs[0])
      case None => Nulls(|affs|)
      case Some(p) => [p.0] + DecodeComponents(p.1, affs[1..])
  }

  function DecodeKey(pk: bytes, affs: seq<Affinity>): (r: seq<Value>)
    ensures |r| == |affs|
  {
    if |affs| == 1 then [DecodeSinglePK(pk, affs[0])] else DecodeComponents(pk, affs)
  }

  method DecodePK(pk: bytes, affs: seq<Affinity>) returns (out: seq<Value>)
    ensures out == DecodeKey(pk, affs)
  {
    hide DecodeComponent, DecodeSinglePK;
    if |affs| == 1 {
      return [DecodeSinglePK(pk, affs[0])];
    }
    out := [];
    var buf := pk;
    for i := 0 to |affs|
      invariant |out| == i
      invariant DecodeKey(pk, affs) == out + DecodeComponents(buf, affs[i..])
    {
      assert affs[i..][1..] == affs[i + 1..];
      match DecodeComponent(buf, affs[i]) {
        case None =>
          out := out + Nulls(|affs| - i);
          return;
        case Some(p) =>
          assert out + ([p.0] + DecodeComponents(p.1, affs[i + 1..]))
              == (out + [p.0]) + DecodeComponents(p.1, affs[i + 1..]);
          out := out + [p.0];
          buf := p.1;
      }
    }
    assert affs[|affs|..] == [];
  }

  // ---- One component: exact decoding, and order whatever follows ----

  lemma PutUint64RoundTrip(u: uint64)
    ensures Uint64(PutUint64(u)) == u
  {
    Pow256Eight();
    BigEndianRoundTrip(u, 8);
  }

  lemma PutUint64Order(u: uint64, v: uint64)
    ensures Compare(PutUint64(u), PutUint64(v)) == Sign(u as int - v as int)
  {
    Pow256Eight();
    BigEndianOrder(u, v, 8);
  }

  lemma DecodeComponentExact(v: Value, aff: Affinity, rest: bytes)
    requires Fits(v, aff)
    ensures DecodeComponent(EncodeComponent(v, aff) + rest, aff) == Some((v, rest))
  {
    var enc := EncodeComponent(v, aff);
    match aff {
      case INTEGER =>
        assert (enc + rest)[..8] == enc && (enc + rest)[8..] == rest;
        PutUint64RoundTrip(FlipSignBit(ToUint64(v.i)));
      case REAL =>
        assert (enc + rest)[..8] == enc && (enc + rest)[8..] == rest;
        PutUint64RoundTrip(RealToKey(v.bits));
      case TEXT =>
        UnescapedEscaped(v.t, rest);
      case BLOB =>
        UnescapedEscaped(v.b, rest);
    }
  }

  lemma {:induction false} EscapedOrder(a: bytes, b: bytes, s: bytes, t: bytes)
    ensures Compare(Escaped(a) + s, Escaped(b) + t) == if a == b then Compare(s, t) else Compare(a, b)
  {
    if a == [] || b == [] || a[0] != b[0] {
      if a == [] && b == [] {
        CompareCommonPrefix([0, 0], s, t);
      } else {
        EscapedHead(a, s);
        EscapedHead(b, t);
      }
    } else {
      var head := if a[0] == 0 then [0, 1] else [a[0]];
      assert Escaped(a) + s == head + (Escaped(a[1..]) + s);
      assert Escaped(b) + t == head + (Escaped(b[1..]) + t);
      CompareCommonPrefix(head, Escaped(a[1..]) + s, Escaped(b[1..]) + t);
      EscapedOrder(a[1..], b[1..], s, t);
      assert a == [a[0]] + a[1..] && b == [b[0]] + b[1..];
    }
  }

  /** The first byte, or the first two when it is 0x00, tell how an escaped string starts. */
  lemma EscapedHead(a: bytes, s: bytes)
    ensures var e := Escaped(a) + s;
            |e| >= 2
            && (a == [] ==> e[0] == 0 && e[1] == 0)
            && (a != [] && a[0] == 0 ==> e[0] == 0 && e[1] == 1)
            && (a != [] && a[0] != 0 ==> e[0] == a[0])
  {
  }

  /** Encoded components order as their values do, whatever bytes follow either; equal values tie. */
  lemma ComponentOrder(v: Value, w: Value, aff: Affinity, s: bytes, t: bytes)
    requires Fits(v, aff) && Fits(w, aff)
    ensures Compare(EncodeComponent(v, aff) + s, EncodeComponent(w, aff) + t)
         == if v == w then Compare(s, t) else ValueCompare(v, w)
  {
    match aff {
      case INTEGER =>
        var x, y := FlipSignBit(ToUint64(v.i)), FlipSignBit(ToUint64(w.i));
        PutUint64Order(x, y);
        CompareEqualLength(PutUint64(x), PutUint64(y), s, t);
      case REAL =>
        var x, y := RealToKey(v.bits), RealToKey(w.bits);
        PutUint64Order(x, y);
        CompareEqualLength(PutUint64(x), PutUint64(y), s, t);
      case TEXT =>
        EscapedOrder(v.t, w.t, s, t);
      case BLOB =>
        EscapedOrder(v.b, w.b, s, t);
    }
  }

  // ---- Whole keys ----

  lemma DecodeComponentsStep(buf: bytes, affs: seq<Affinity>, v: Value, rest: bytes)
    requires affs != [] && DecodeComponent(buf, affs[0]) == Some((v, rest))
    ensures DecodeComponents(buf, affs) == [v] + DecodeComponents(rest, affs[1..])
  {
  }

  lemma {:induction false} DecodeComponentsExact(vals: seq<Value>, affs: seq<Affinity>, rest: bytes)
    requires AllFit(vals, affs)
    ensures DecodeComponents(EncodeComponents(vals, affs) + rest, affs) == vals
  {
    if vals != [] {
      var head, tail := EncodeComponent(vals[0], affs[0]), EncodeComponents(vals[1..], affs[1..]);
      DecodeComponentsExact(vals[1..], affs[1..], rest);
      assert EncodeComponents(vals, affs) + rest == head + (tail + rest);
      DecodeComponentExact(vals[0], affs[0], tail + rest);
      DecodeComponentsStep(head + (tail + rest), affs, vals[0], tail + rest);
    }
  }

  /** `decodePK` undoes `encodePK`, for single-column and composite keys. */
  lemma KeyRoundTrip(vals: seq<Value>, affs: seq<Affinity>)
    requires AllFit(vals, affs)
    ensures DecodeKey(EncodeKey(vals, affs), affs) == vals
  {
    if |vals| == 1 {
      match affs[0] {
        case INTEGER => PutUint64RoundTrip(FlipSignBit(ToUint64(vals[0].i)));
        case REAL => PutUint64RoundTrip(RealToKey(vals[0].bits));
        case TEXT =>
        case BLOB =>
      }
      assert vals == [vals[0]];
    } else {
      DecodeComponentsExact(vals, affs, []);
      assert EncodeComponents(vals, affs) + [] == EncodeComponents(vals, affs);
    }
  }

  /** Tuple encodings followed by anything order as the tuples do: no encoding is a prefix of another. */
  lemma {:induction false} ComponentsOrder(
    x: seq<Value>, y: seq<Value>, affs: seq<Affinity>, s: bytes, t: bytes)
    requires AllFit(x, affs) && AllFit(y, affs)
    ensures Compare(EncodeComponents(x, affs) + s, EncodeComponents(y, affs) + t)
         == if x == y then Compare(s, t) else TupleCompare(x, y, affs)
  {
    if x == [] {
      assert EncodeComponents(x, affs) + s == s && EncodeComponents(y, affs) + t == t;
    } else {
      var xs := EncodeComponents(x[1..], affs[1..]) + s;
      var ys := EncodeComponents(y[1..], affs[1..]) + t;
      assert EncodeComponents(x, affs) + s == EncodeComponent(x[0], affs[0]) + xs;
      assert EncodeComponents(y, affs) + t == EncodeComponent(y[0], affs[0]) + ys;
      ComponentOrder(x[0], y[0], affs[0], xs, ys);
      ComponentsOrder(x[1..], y[1..], affs[1..], s, t);
      assert x == [x[0]] + x[1..] && y == [y[0]] + y[1..];
    }
  }

  /** Prefix-freeness: an encoded tuple that starts with another encoded tuple is that tuple. */
  lemma ComponentsPrefixFree(x: seq<Value>, y: seq<Value>, affs: seq<Affinity>, s: bytes, t: bytes)
    requires AllFit(x, affs) && AllFit(y, affs)
    requires EncodeComponents(x, affs) + s == EncodeComponents(y, affs) + t
    ensures x == y && s == t
  {
    DecodeComponentsExact(x, affs, s);
    DecodeComponentsExact(y, affs, t);
    assert s == (EncodeComponents(x, affs) + s)[|EncodeComponents(x, affs)|..];
    assert t == (EncodeComponents(y, affs) + t)[|EncodeComponents(y, affs)|..];
  }

  /** Key bytes sort exactly as the tuples they encode. */
  lemma KeyOrder(x: seq<Value>, y: seq<Value>, affs: seq<Affinity>)
    requires AllFit(x, affs) && AllFit(y, affs)
    ensures Compare(EncodeKey(x, affs), EncodeKey(y, affs)) == TupleCompare(x, y, affs)
  {
    if |x| == 1 {
      IndexValueOrder(x[0], y[0], affs[0]);
      assert x == [x[0]] && y == [y[0]];
    } else {
      ComponentsOrder(x, y, affs, [], []);
      assert EncodeComponents(x, affs) + [] == EncodeComponents(x, affs);
      assert EncodeComponents(y, affs) + [] == EncodeComponents(y, affs);
      if x == y {
        TupleCompareSame(x, affs);
      }
    }
  }

  lemma IndexValueOrder(v: Value, w: Value, aff: Affinity)
    requires Fits(v, aff) && Fits(w, aff)
    ensures Compare(EncodeIndexValue(v, aff), EncodeIndexValue(w, aff)) == ValueCompare(v, w)
    ensures EncodeIndexValue(v, aff) == EncodeIndexValue(w, aff) <==> v == w
  {
    match aff {
      case INTEGER => PutUint64Order(FlipSignBit(ToUint64(v.i)), FlipSignBit(ToUint64(w.i)));
      case REAL => PutUint64Order(RealToKey(v.bits), RealToKey(w.bits));
      case TEXT =>
      case BLOB =>
    }
  }

  lemma {:induction false} TupleCompareSame(x: seq<Value>, affs: seq<Affinity>)
    requires AllFit(x, affs)
    ensures TupleCompare(x, x, affs) == 0
  {
    if x != [] {
      TupleCompareSame(x[1..], affs[1..]);
    }
  }

  lemma KeyInjective(x: seq<Value>, y: seq<Value>, affs: seq<Affinity>)
    requires AllFit(x, affs) && AllFit(y, affs)
    requires EncodeKey(x, affs) == EncodeKey(y, affs)
    ensures x == y
  {
    KeyRoundTrip(x, affs);
    KeyRoundTrip(y, affs);
  }
}
