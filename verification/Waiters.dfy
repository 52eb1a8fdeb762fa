/** Goroutines waiting for a lock: the registry of channels (caddy/waiters.go) and why no wake-up is lost (caddy/lock.go). */
module Waiters {
  import opened Common

  /** A channel that is only ever closed; closing it twice would panic. */
  class Chan {
    var open: bool

    constructor ()
      ensures open
    {
      open := true;
    }

    method Close()
      requires open
      modifies this
      ensures !open
    {
      open := false;
    }
  }

  /** The registry; every method runs under its mutex from start to end. */
  class Registry {
    var m: map<string, seq<Chan>>
    /** Every channel handed out, with its key. */
    ghost var issued: map<Chan, string>

    ghost predicate Registered(key: string, ch: Chan)
      reads this
    {
      key in m && ch in m[key]
    }

    /** Only issued channels are registered, each once and under its own key, and exactly those are open. */
    ghost predicate Valid()
      reads this, issued.Keys
    {
      && (forall key, i :: key in m && 0 <= i < |m[key]| ==> m[key][i] in issued && issued[m[key][i]] == key)
      && (forall key, i, j :: key in m && 0 <= i < j < |m[key]| ==> m[key][i] != m[key][j])
      && (forall key :: key in m ==> m[key] != [])
      && (forall ch :: ch in issued ==> (ch.open <==> Registered(issued[ch], ch)))
    }

    constructor ()
      ensures Valid() && m == map[] && issued == map[]
    {
      m, issued := map[], map[];
    }

    method Subscribe(key: string) returns (ch: Chan)
      requires Valid()
      modifies this
      ensures Valid() && fresh(ch) && ch.open && issued == old(issued)[ch := key]
      ensures m == old(m)[key := (if key in old(m) then old(m)[key] else []) + [ch]]
    {
      ch := new Chan();
      m := m[key := (if key in m then m[key] else []) + [ch]];
      issued := issued[ch := key];
      assert m[key][|m[key]| - 1] == ch;
      forall c | c in old(issued) ensures c.open <==> Registered(issued[c], c) {
        assert old(Registered(issued[c], c)) <==> Registered(issued[c], c);
      }
    }

    /** Removes and closes the channel if it is still registered; after a wake it is not, and nothing happens. */
    method Unsubscribe(key: string, ch: Chan)
      requires Valid() && ch in issued && issued[ch] == key
      modifies this, ch
      ensures Valid() && issued == old(issued) && !ch.open && !Registered(key, ch)
      ensures !old(ch.open) ==> m == old(m)
      ensures forall k :: k != key ==> (k in m <==> k in old(m)) && (k in m ==> m[k] == old(m)[k])
      ensures forall c :: c in old(issued) && c != ch ==> (Registered(key, c) <==> old(Registered(key, c)))
    {
      var chans := if key in m then m[key] else [];
      for i := 0 to |chans|
        invariant m == old(m) && ch.open == old(ch.open) && Valid()
        invariant forall j :: 0 <= j < i ==> chans[j] != ch
      {
        if chans[i] == ch {
          var rest := chans[..i] + chans[i + 1..];
          RestOf(chans, i);
          m := if rest == [] then m - {key} else m[key := rest];
          assert forall c :: Registered(key, c) <==> c in rest;
          ch.Close();
          return;
        }
      }
    }

    /** Closes every channel registered for the key, each of them open until now, and drops them. */
    method Wake(key: string)
      requires Valid()
      modifies this, if key in m then set c | c in m[key] else {}
      ensures Valid() && issued == old(issued) && m == old(m) - {key}
      ensures forall c :: c in issued ==> c.open == (old(c.open) && issued[c] != key)
    {
      var chans := if key in m then m[key] else [];
      m := m - {key};
      for i := 0 to |chans|
        invariant m == old(m) - {key} && issued == old(issued)
        invariant forall j :: 0 <= j < |chans| ==> chans[j].open == (j >= i)
        invariant forall c :: c in issued && c !in chans ==> c.open == old(c.open)
      {
        chans[i].Close();
      }
      forall c | c in issued ensures c.open == (old(c.open) && issued[c] != key) {
        if c in chans {
          var j :| 0 <= j < |chans| && chans[j] == c;
        }
      }
    }
  }

  lemma RestOf<T>(s: seq<T>, i: nat)
    requires i < |s| && forall a, b :: 0 <= a < b < |s| ==> s[a] != s[b]
    ensures var r := s[..i] + s[i + 1..];
            && (forall x :: x in r <==> x in s && x != s[i])
            && (forall a, b :: 0 <= a < b < |r| ==> r[a] != r[b])
  {
    var r := s[..i] + s[i + 1..];
    forall x | x in s && x != s[i] ensures x in r {
      var k :| 0 <= k < |s| && s[k] == x;
      assert r[if k < i then k else k - 1] == x;
    }
  }

  // ---- No wake-up is lost ----

  /** One goroutine in `waitHeld`: its channel, the write count when it subscribed, and the count its read reflects. */
  datatype Waiter = Waiter(open: bool, since: nat, read: Option<nat>)

  /** Writes to the lock key so far, writes whose callback has not run yet, and the waiters. */
  datatype State = State(writes: nat, owed: nat, waiters: map<nat, Waiter>)

  datatype Action = Subscribe(w: nat) | Read(w: nat) | Leave(w: nat) | Write | Notify

  function Closed(w: Waiter): Waiter { w.(open := false) }

  /** A write commits first and its callback runs later, in any order with the waiters' steps. */
  function Step(s: State, a: Action): State
  {
    match a
    case Subscribe(w) => if w in s.waiters then s else s.(waiters := s.waiters[w := Waiter(true, s.writes, None)])
    case Read(w) =>
      if w in s.waiters && s.waiters[w].read.None? then s.(waiters := s.waiters[w := s.waiters[w].(read := Some(s.writes))]) else s
    case Leave(w) => s.(waiters := s.waiters - {w})
    case Write => s.(writes := s.writes + 1, owed := s.owed + 1)
    case Notify =>
      if s.owed == 0 then s
      else s.(owed := s.owed - 1, waiters := map w | w in s.waiters :: Closed(s.waiters[w]))
  }

  function Run(s: State, acts: seq<Action>): State
  {
    if acts == [] then s else Step(Run(s, acts[..|acts| - 1]), acts[|acts| - 1])
  }

  const START := State(0, 0, map[])

  /** An open channel has seen no callback since it was made, so all later writes still owe theirs. */
  ghost predicate Owed(s: State)
  {
    forall w :: w in s.waiters ==>
      var x := s.waiters[w];
      x.since <= s.writes && (x.read.Some? ==> x.since <= x.read.value <= s.writes) && (x.open ==> s.writes - x.since <= s.owed)
  }

  lemma {:induction false} RunOwes(acts: seq<Action>)
    ensures Owed(Run(START, acts))
  {
    if acts != [] {
      RunOwes(acts[..|acts| - 1]);
    }
  }

  /** A goroutine about to block on a stale read has a wake-up coming, and the next callback delivers it. */
  lemma {:induction false} NoLostWake(acts: seq<Action>, w: nat)
    requires var s := Run(START, acts);
             w in s.waiters && s.waiters[w].open && s.waiters[w].read.Some? && s.waiters[w].read.value < s.writes
    ensures var s := Run(START, acts);
            s.owed > 0 && w in Step(s, Notify).waiters && !Step(s, Notify).waiters[w].open
  {
    RunOwes(acts);
  }

  /** The order matters: had the read come before the subscription, a write and its callback could fall between. */
  lemma ReadingFirstLosesWakes()
    ensures var read := Run(START, []).writes;
            var s := Run(START, [Write, Notify, Subscribe(0)]);
            0 in s.waiters && s.waiters[0].open && read < s.writes && s.owed == 0
  {
    var s1 := Run(START, [Write]);
    assert [Write][..0] == [];
    assert s1 == State(1, 1, map[]);
    assert [Write, Notify][..1] == [Write];
    assert Run(START, [Write, Notify]) == Step(s1, Notify);
    assert [Write, Notify, Subscribe(0)][..2] == [Write, Notify];
  }
}
