/** The certificate-storage lock as a protocol over one key (caddy/lock.go). */
module Lock {
  import opened Common

  /** The lock's value: the process that owns it, and when its lease ends. */
  datatype Lease = Lease(owner: nat, expires: int)

  /** A caller: one of many inside the process whose token is `owner`. */
  datatype Client = Client(owner: nat, id: nat)

  datatype Op = Acquire(ttl: int) | Renew(ttl: int) | Release
  datatype Outcome = Success | Refused | Raced

  /** Where a caller stands in `attemptAcquire`, `renewLease` or `Unlock`. */
  datatype Phase =
    | Idle(last: Option<Outcome>)
    | Watching(op: Op, watched: nat)
    | Checked(op: Op, watched: nat)
    | Seen(op: Op, watched: nat, seen: Option<Lease>, at: int)
    | Ready(op: Op, watched: nat, seen: Option<Lease>, at: int, write: Option<Lease>)

  /** A lease a process has been granted: from its commit until it ends, is replaced, or is given up. */
  datatype Grant = Grant(owner: nat, from: int, until: int)

  datatype State = State(
    lock: Option<Lease>,
    version: nat,
    now: int,
    phases: map<Client, Phase>,
    ledger: seq<Grant>
  )

  /** Every point where another caller or the clock can come between. */
  datatype Action =
    | Begin(c: Client, op: Op)
    | Check(c: Client)
    | Read(c: Client)
    | Emit(c: Client)
    | Flush(c: Client)
    | Abandon(c: Client)
    | Tick(d: nat)

  function PhaseOf(s: State, c: Client): Phase
  {
    if c in s.phases then s.phases[c] else Idle(None)
  }

  /** What a read at time `at` shows: a lease that has run out is not there. */
  function Visible(lock: Option<Lease>, at: int): Option<Lease>
  {
    if lock.Some? && at < lock.value.expires then lock else None
  }

  /** May the operation go on, given what it read? */
  predicate Allowed(c: Client, op: Op, seen: Option<Lease>)
  {
    if op.Acquire? then seen.None? else seen.Some? && seen.value.owner == c.owner
  }

  /** A process that renews or releases gives up what is left of its own grant; nobody shortens another's. */
  function Cut(ledger: seq<Grant>, owner: nat, now: int): (r: seq<Grant>)
    ensures |r| == |ledger|
  {
    if ledger == [] || ledger[|ledger| - 1].owner != owner then ledger
    else
      var g := ledger[|ledger| - 1];
      ledger[|ledger| - 1 := g.(until := if g.until < now then g.until else now)]
  }

  function Commit(s: State, c: Client, write: Option<Lease>): State
  {
    s.(lock := write,
       version := s.version + 1,
       phases := s.phases[c := Idle(Some(Success))],
       ledger := Cut(s.ledger, c.owner, s.now) + if write.None? then [] else [Grant(c.owner, s.now, write.value.expires)])
  }

  function To(s: State, c: Client, p: Phase): State { s.(phases := s.phases[c := p]) }

  /** One action; one that is not enabled changes nothing. */
  function Step(s: State, a: Action): State
  {
    match a
    case Tick(d) => s.(now := s.now + d)
    case Begin(c, op) => if PhaseOf(s, c).Idle? then To(s, c, Watching(op, s.version)) else s
    case Check(c) =>
      (match PhaseOf(s, c)
       case Watching(op, w) => To(s, c, if s.version == w then Checked(op, w) else Idle(Some(Raced)))
       case _ => s)
    case Read(c) =>
      (match PhaseOf(s, c)
       case Checked(op, w) =>
         var seen := Visible(s.lock, s.now);
         To(s, c, if Allowed(c, op, seen) then Seen(op, w, seen, s.now) else Idle(Some(Refused)))
       case _ => s)
    case Emit(c) =>
      (match PhaseOf(s, c)
       case Seen(op, w, seen, at) =>
         To(s, c, Ready(op, w, seen, at, if op.Release? then None else Some(Lease(c.owner, s.now + op.ttl))))
       case _ => s)
    case Flush(c) =>
      (match PhaseOf(s, c)
       case Ready(_, w, _, _, write) => if s.version == w then Commit(s, c, write) else To(s, c, Idle(Some(Raced)))
       case _ => s)
    case Abandon(c) => if PhaseOf(s, c).Idle? then s else To(s, c, Idle(None))
  }

  function Run(s: State, acts: seq<Action>): State
  {
    if acts == [] then s else Step(Run(s, acts[..|acts| - 1]), acts[|acts| - 1])
  }

  function Initial(now: int): State { State(None, 0, now, map[], []) }

  // ---- The invariant ----

  /** What a caller remembers is still true as long as nobody has written since it began to watch. */
  ghost predicate PhaseFacts(s: State, c: Client, p: Phase)
  {
    && (!p.Idle? ==> p.watched <= s.version)
    && (p.Seen? || p.Ready? ==>
          && Allowed(c, p.op, p.seen) && p.at <= s.now
          && (p.watched == s.version ==> p.seen == Visible(s.lock, p.at)))
    && (p.Ready? ==> (p.write.None? <==> p.op.Release?) && (p.write.Some? ==> p.write.value.owner == c.owner))
  }

  /** The grants follow one another, and the last one is the lock's. */
  ghost predicate LedgerFacts(s: State)
  {
    && (forall i, j :: 0 <= i < j < |s.ledger| ==> s.ledger[i].until <= s.ledger[j].from)
    && (forall i :: 0 <= i < |s.ledger| ==> s.ledger[i].from <= s.now)
    && (s.lock.Some? ==>
          && s.ledger != []
          && var g := s.ledger[|s.ledger| - 1]; g.owner == s.lock.value.owner && g.until == s.lock.value.expires)
    && (s.lock.None? ==> forall i :: 0 <= i < |s.ledger| ==> s.ledger[i].until <= s.now)
  }

  ghost predicate Inv(s: State)
  {
    LedgerFacts(s) && forall c :: c in s.phases ==> PhaseFacts(s, c, s.phases[c])
  }

  lemma EarlierGrantsOver(s: State, i: nat)
    requires LedgerFacts(s) && i < |s.ledger| - 1
    ensures s.ledger[i].until <= s.now
  {
    assert s.ledger[i].until <= s.ledger[|s.ledger| - 1].from;
  }

  lemma CommitLedger(s: State, c: Client, write: Option<Lease>)
    requires LedgerFacts(s) && (write.Some? ==> write.value.owner == c.owner)
    requires s.lock.Some? && s.lock.value.owner != c.owner ==> s.lock.value.expires <= s.now
    ensures LedgerFacts(Commit(s, c, write))
  {
    var cut := Cut(s.ledger, c.owner, s.now);
    forall i | 0 <= i < |cut| ensures cut[i].until <= s.now && cut[i].from <= s.now {
      if i < |cut| - 1 {
        EarlierGrantsOver(s, i);
      }
    }
  }

  lemma StepKeepsInv(s: State, a: Action)
    requires Inv(s)
    ensures Inv(Step(s, a))
  {
    var s' := Step(s, a);
    if a.Flush? && PhaseOf(s, a.c).Ready? && s.version == PhaseOf(s, a.c).watched {
      assert PhaseFacts(s, a.c, PhaseOf(s, a.c));
      CommitLedger(s, a.c, PhaseOf(s, a.c).write);
    }
    forall c | c in s'.phases ensures PhaseFacts(s', c, s'.phases[c]) {
      assert c in s.phases ==> PhaseFacts(s, c, s.phases[c]);
    }
  }

  lemma {:induction false} RunKeepsInv(now: int, acts: seq<Action>)
    ensures Inv(Run(Initial(now), acts))
  {
    if acts != [] {
      RunKeepsInv(now, acts[..|acts| - 1]);
      StepKeepsInv(Run(Initial(now), acts[..|acts| - 1]), acts[|acts| - 1]);
    }
  }

  // ---- Safety over every run ----

  predicate InForce(g: Grant, at: int) { g.from <= at < g.until }

  /** In no run are two grants in force at the same moment, so no two processes ever hold the lock together. */
  lemma GrantsNeverOverlap(now: int, acts: seq<Action>, i: nat, j: nat, at: int)
    requires i < j < |Run(Initial(now), acts).ledger|
    ensures var ledger := Run(Initial(now), acts).ledger; !(InForce(ledger[i], at) && InForce(ledger[j], at))
  {
    RunKeepsInv(now, acts);
  }

  /** A process whose latest grant has not run out and was not given up is the one the lock names. */
  lemma GrantHolds(now: int, acts: seq<Action>, i: nat)
    requires i < |Run(Initial(now), acts).ledger|
    requires Run(Initial(now), acts).now < Run(Initial(now), acts).ledger[i].until
    ensures var s := Run(Initial(now), acts); s.lock == Some(Lease(s.ledger[i].owner, s.ledger[i].until))
  {
    RunKeepsInv(now, acts);
    var s := Run(Initial(now), acts);
    if i < |s.ledger| - 1 {
      EarlierGrantsOver(s, i);
    }
  }

  /** The lock passes from one process to another only by release or after the lease has run out. */
  lemma OwnerChanges(now: int, acts: seq<Action>, a: Action)
    requires var s := Run(Initial(now), acts);
             var s' := Step(s, a);
             s.lock.Some? && s'.lock != s.lock && (s'.lock.Some? ==> s'.lock.value.owner != s.lock.value.owner)
    ensures var s := Run(Initial(now), acts);
            a.Flush? && PhaseOf(s, a.c).Ready? &&
            if PhaseOf(s, a.c).op.Release? then a.c.owner == s.lock.value.owner
            else PhaseOf(s, a.c).op.Acquire? && s.lock.value.expires <= s.now
  {
    RunKeepsInv(now, acts);
    var s := Run(Initial(now), acts);
    assert a.Flush? && PhaseOf(s, a.c).Ready?;
    assert PhaseFacts(s, a.c, PhaseOf(s, a.c));
  }

  /** Renewing or releasing somebody else's lock, or a lock that is not held, never changes it. */
  lemma OnlyTheOwnerWrites(now: int, acts: seq<Action>, c: Client)
    requires var s := Run(Initial(now), acts);
             PhaseOf(s, c).Ready? && !PhaseOf(s, c).op.Acquire?
             && (s.lock.None? || s.lock.value.owner != c.owner)
    ensures var s := Run(Initial(now), acts);
            var s' := Step(s, Flush(c));
            s'.lock == s.lock && s'.version == s.version && s'.ledger == s.ledger && PhaseOf(s', c) == Idle(Some(Raced))
  {
    RunKeepsInv(now, acts);
    var s := Run(Initial(now), acts);
    assert PhaseFacts(s, c, PhaseOf(s, c));
  }

  /** Only a flush writes; it succeeds exactly when nobody wrote since the watch, and a failed one leaves no trace. */
  lemma FlushExactly(s: State, a: Action)
    ensures var s' := Step(s, a);
            && (s'.version != s.version <==> a.Flush? && PhaseOf(s, a.c).Ready? && PhaseOf(s, a.c).watched == s.version)
            && (s'.version == s.version ==> s'.lock == s.lock && s'.ledger == s.ledger)
            && (a.Flush? && PhaseOf(s, a.c).Ready? ==>
                  (PhaseOf(s', a.c) == Idle(Some(Success)) <==> PhaseOf(s, a.c).watched == s.version))
  {
  }

  // ---- A lapsed lock can be taken ----

  /** Actions of others that do not write: anything but a flush that would succeed, and nothing of `c`. */
  predicate Quiet(s: State, c: Client, acts: seq<Action>)
  {
    acts == [] ||
    (var a := acts[|acts| - 1];
     var before := Run(s, acts[..|acts| - 1]);
     Quiet(s, c, acts[..|acts| - 1]) && (a.Tick? || a.c != c) && Step(before, a).version == before.version)
  }

  lemma {:induction false} QuietKeeps(s: State, c: Client, acts: seq<Action>)
    requires Quiet(s, c, acts)
    ensures var s' := Run(s, acts);
            s'.lock == s.lock && s'.version == s.version && PhaseOf(s', c) == PhaseOf(s, c) && s'.now >= s.now
  {
    if acts != [] {
      QuietKeeps(s, c, acts[..|acts| - 1]);
      FlushExactly(Run(s, acts[..|acts| - 1]), acts[|acts| - 1]);
    }
  }

  /** A step of `c`, then whatever the others do. */
  function After(s: State, a: Action, others: seq<Action>): State { Run(Step(s, a), others) }

  lemma QuietAfter(s: State, a: Action, others: seq<Action>)
    requires !a.Tick? && Quiet(Step(s, a), a.c, others)
    ensures var s', t := After(s, a, others), Step(s, a);
            s'.lock == t.lock && s'.version == t.version && PhaseOf(s', a.c) == PhaseOf(t, a.c) && s'.now >= t.now
  {
    QuietKeeps(Step(s, a), a.c, others);
  }

  /**
    Without a write by anybody else, an attempt to acquire succeeds if and only if no lease is running when it
    reads, however long its steps take.
  */
  lemma QuietAcquire(s: State, c: Client, ttl: int, q1: seq<Action>, q2: seq<Action>, q3: seq<Action>, q4: seq<Action>)
    requires PhaseOf(s, c).Idle? && Quiet(Step(s, Begin(c, Acquire(ttl))), c, q1)
    requires var s1 := After(s, Begin(c, Acquire(ttl)), q1);
             var s2 := After(s1, Check(c), q2);
             var s3 := After(s2, Read(c), q3);
             Quiet(Step(s1, Check(c)), c, q2) && Quiet(Step(s2, Read(c)), c, q3) && Quiet(Step(s3, Emit(c)), c, q4)
    ensures var s1 := After(s, Begin(c, Acquire(ttl)), q1);
            var s2 := After(s1, Check(c), q2);
            var s3 := After(s2, Read(c), q3);
            var s5 := Step(After(s3, Emit(c), q4), Flush(c));
            if Visible(s.lock, s2.now).None? then
              PhaseOf(s5, c) == Idle(Some(Success)) && s5.lock == Some(Lease(c.owner, s3.now + ttl))
            else PhaseOf(s5, c) == Idle(Some(Refused)) && s5.lock == s.lock
  {
    hide Run, Quiet, After;
    var s1 := After(s, Begin(c, Acquire(ttl)), q1);
    var s2 := After(s1, Check(c), q2);
    var s3 := After(s2, Read(c), q3);
    QuietAfter(s, Begin(c, Acquire(ttl)), q1);
    QuietAfter(s1, Check(c), q2);
    QuietAfter(s2, Read(c), q3);
    QuietAfter(s3, Emit(c), q4);
  }
}
