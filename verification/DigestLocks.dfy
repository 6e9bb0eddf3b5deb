/**
 The digest pipeline statement by statement, with any number of recording transactions and
 workers in flight. A schedule row is locked from the statement that writes or claims it
 until its transaction ends; other writers of the row wait, claimers skip it; a transaction
 sees its own writes and what others have committed (READ COMMITTED).
 */
module DigestLocks {
  import opened Wrappers
  import opened Seqs

  type Recipient = nat
  type Tx = nat

  datatype Item = Item(id: nat, to: Recipient)

  datatype TxState =
    | Idle
      /** `items`: inserted; `owes`: an item was written, the timer not yet; `timers`: timer rows written. */
    | Recording(items: set<Item>, owes: Option<Recipient>, timers: set<Recipient>)
      /** `claims` in claim order; the first `served` of them are drained and cleared. */
    | Working(claims: seq<Recipient>, served: nat, drained: bool, gone: set<Item>)

  /** Committed rows, the lock table on schedule keys, and each transaction's private state. */
  datatype System = System(items: set<Item>, schedules: set<Recipient>,
                           locks: map<Recipient, Tx>, txs: map<Tx, TxState>)

  function StateOf(s: System, t: Tx): TxState {
    if t in s.txs then s.txs[t] else Idle
  }

  function Put(s: System, t: Tx, st: TxState): System {
    s.(txs := s.txs[t := st])
  }

  /** The lock table without the rows that `t` holds. */
  function Released(locks: map<Recipient, Tx>, t: Tx): map<Recipient, Tx> {
    map r | r in locks && locks[r] != t :: locks[r]
  }

  datatype Step =
    | BeginRecord(t: Tx)
    | InsertItem(t: Tx, item: Item)
      /** `updateCoalesced`, whether or not the row still exists. */
    | UpdateItem(t: Tx, r: Recipient)
    | UpsertTimer(t: Tx)
    | CommitRecord(t: Tx)
    | Claim(t: Tx, claims: seq<Recipient>)
    | Drain(t: Tx)
    | Clear(t: Tx)
    | CommitWork(t: Tx)
    | Abort(t: Tx)

  ghost predicate Next(s: System, step: Step, s': System) {
    match step
    case BeginRecord(t) =>
      StateOf(s, t).Idle? && s' == Put(s, t, Recording({}, None, {}))
    case InsertItem(t, item) =>
      var st := StateOf(s, t);
      && st.Recording? && st.owes.None?
      && s' == Put(s, t, st.(items := st.items + {item}, owes := Some(item.to)))
    case UpdateItem(t, r) =>
      var st := StateOf(s, t);
      && st.Recording? && st.owes.None?
      && s' == Put(s, t, st.(owes := Some(r)))
    case UpsertTimer(t) =>
      var st := StateOf(s, t);
      && st.Recording? && st.owes.Some?
      && (st.owes.value in s.locks ==> s.locks[st.owes.value] == t)
      && s' == Put(s, t, st.(owes := None, timers := st.timers + {st.owes.value}))
               .(locks := s.locks[st.owes.value := t])
    case CommitRecord(t) =>
      var st := StateOf(s, t);
      && st.Recording? && st.owes.None?
      && s' == Put(s, t, Idle).(items := s.items + st.items, schedules := s.schedules + st.timers,
                                locks := Released(s.locks, t))
    case Claim(t, claims) =>
      && StateOf(s, t).Idle? && NoDup(claims)
      && (forall r :: r in claims ==> r in s.schedules && r !in s.locks)
      && s' == Put(s, t, Working(claims, 0, false, {}))
               .(locks := s.locks + map r | r in claims :: t)
    case Drain(t) =>
      var st := StateOf(s, t);
      && st.Working? && st.served < |st.claims| && !st.drained
      && s' == Put(s, t, st.(drained := true, gone := st.gone + set i | i in s.items && i.to == st.claims[st.served]))
    case Clear(t) =>
      var st := StateOf(s, t);
      && st.Working? && st.served < |st.claims| && st.drained
      && s' == Put(s, t, st.(drained := false, served := st.served + 1))
    case CommitWork(t) =>
      var st := StateOf(s, t);
      && st.Working? && st.served == |st.claims|
      && s' == Put(s, t, Idle).(items := s.items - st.gone, schedules := s.schedules - Elements(st.claims),
                                locks := Released(s.locks, t))
    case Abort(t) =>
      s' == Put(s, t, Idle).(locks := Released(s.locks, t))
  }

  const START: System := System({}, {}, map[], map[])

  ghost predicate Run(trace: seq<System>, steps: seq<Step>) {
    && |trace| == |steps| + 1
    && trace[0] == START
    && forall i :: 0 <= i < |steps| ==> Next(trace[i], steps[i], trace[i + 1])
  }

  /** What is committed: every pending item has a timer that will drain it. */
  ghost predicate Covered(s: System) {
    forall i :: i in s.items ==> i.to in s.schedules
  }

  /** The recipients whose items a working transaction has dealt with. */
  predicate DrainedFor(st: TxState, r: Recipient) {
    st.Working? && exists k :: 0 <= k < |st.claims| && st.claims[k] == r
                               && (k < st.served || (k == st.served && st.drained))
  }

  ghost predicate TxInv(s: System, t: Tx) {
    var st := StateOf(s, t);
    && (st.Recording? ==>
          && (forall r :: r in st.timers ==> r in s.locks && s.locks[r] == t)
          && (forall i :: i in st.items ==> i.to in st.timers || st.owes == Some(i.to)))
    && (st.Working? ==>
          && st.served <= |st.claims|
          && (forall r :: r in st.claims ==> r in s.locks && s.locks[r] == t)
          && (forall i :: i in s.items && DrainedFor(st, i.to) ==> i in st.gone)
          && (forall i :: i in st.gone ==> i.to in st.claims))
  }

  ghost predicate Inv(s: System) {
    Covered(s) && forall t :: TxInv(s, t)
  }

  lemma OthersKeep(s: System, s': System, t: Tx, u: Tx)
    requires TxInv(s, u) && u != t && StateOf(s', u) == StateOf(s, u)
    requires forall r :: r in s.locks && s.locks[r] == u ==> r in s'.locks && s'.locks[r] == u
    requires forall i :: i in s'.items && i !in s.items ==> !(i.to in s.locks && s.locks[i.to] == u)
    ensures TxInv(s', u)
  {
  }

  lemma StepKeepsInv(s: System, step: Step, s': System)
    requires Inv(s) && Next(s, step, s')
    ensures Inv(s')
  {
    var t := step.t;
    assert TxInv(s, t);
    forall u ensures TxInv(s', u) {
      assert TxInv(s, u);
      if u != t {
        OthersKeep(s, s', t, u);
      }
    }
    match step {
      case CommitWork(_) =>
        var st := StateOf(s, t);
        forall r | r in st.claims ensures DrainedFor(st, r) {
          var k :| 0 <= k < |st.claims| && st.claims[k] == r;
        }
      case _ =>
    }
  }

  /** In every reachable state, whatever the interleaving, every committed item has a committed timer. */
  lemma {:induction false} EveryItemScheduled(trace: seq<System>, steps: seq<Step>, i: nat)
    requires Run(trace, steps) && i < |trace|
    ensures Inv(trace[i]) && Covered(trace[i])
  {
    if i > 0 {
      EveryItemScheduled(trace, steps, i - 1);
      assert Next(trace[i - 1], steps[i - 1], trace[i - 1 + 1]);
      StepKeepsInv(trace[i - 1], steps[i - 1], trace[i]);
    }
  }

  // ----- The committed tables are those of the transactions in commit order -----

  predicate Ends(step: Step) {
    step.BeginRecord? || step.CommitRecord? || step.Claim? || step.CommitWork? || step.Abort?
  }

  /** The items that the transaction open at `t` after `n` steps has inserted. */
  function Own(steps: seq<Step>, n: nat, t: Tx): set<Item>
    requires n <= |steps|
  {
    if n == 0 || (steps[n - 1].t == t && Ends(steps[n - 1])) then {}
    else Own(steps, n - 1, t) + if steps[n - 1].t == t && steps[n - 1].InsertItem? then {steps[n - 1].item} else {}
  }

  /** The recipients of the items that it has inserted or updated. */
  function Written(steps: seq<Step>, n: nat, t: Tx): set<Recipient>
    requires n <= |steps|
  {
    if n == 0 || (steps[n - 1].t == t && Ends(steps[n - 1])) then {}
    else
      var before := Written(steps, n - 1, t);
      match steps[n - 1]
      case InsertItem(u, item) => if u == t then before + {item.to} else before
      case UpdateItem(u, r) => if u == t then before + {r} else before
      case _ => before
  }

  /** The recipients that it has claimed. */
  function Taken(steps: seq<Step>, n: nat, t: Tx): seq<Recipient>
    requires n <= |steps|
  {
    if n == 0 then []
    else if steps[n - 1].t == t && Ends(steps[n - 1]) then
      if steps[n - 1].Claim? then steps[n - 1].claims else []
    else Taken(steps, n - 1, t)
  }

  datatype Tables = Tables(items: set<Item>, schedules: set<Recipient>)

  /** Each commit in turn: a recorder adds its items and timers, a worker drops what its recipients have. */
  function Serial(steps: seq<Step>, n: nat): Tables
    requires n <= |steps|
  {
    if n == 0 then Tables({}, {})
    else
      var before := Serial(steps, n - 1);
      match steps[n - 1]
      case CommitRecord(t) =>
        Tables(before.items + Own(steps, n - 1, t), before.schedules + Written(steps, n - 1, t))
      case CommitWork(t) =>
        Tables((set i | i in before.items && i.to !in Taken(steps, n - 1, t)),
               before.schedules - Elements(Taken(steps, n - 1, t)))
      case _ => before
  }

  function Owed(st: TxState): set<Recipient>
    requires st.Recording?
  {
    if st.owes.Some? then {st.owes.value} else {}
  }

  /** What an open transaction holds is what its steps say. */
  ghost predicate Records(st: TxState, own: set<Item>, written: set<Recipient>, taken: seq<Recipient>) {
    && (st.Recording? ==> st.items == own && st.timers + Owed(st) == written)
    && (st.Working? ==> st.claims == taken)
  }

  lemma StepRecords(s: System, steps: seq<Step>, n: nat, s': System, u: Tx)
    requires 0 < n <= |steps| && Next(s, steps[n - 1], s')
    requires Records(StateOf(s, u), Own(steps, n - 1, u), Written(steps, n - 1, u), Taken(steps, n - 1, u))
    ensures Records(StateOf(s', u), Own(steps, n, u), Written(steps, n, u), Taken(steps, n, u))
  {
    if steps[n - 1].t != u {
      assert StateOf(s', u) == StateOf(s, u);
    }
  }

  lemma {:induction false} HistoryRecords(trace: seq<System>, steps: seq<Step>, n: nat, u: Tx)
    requires Run(trace, steps) && n < |trace|
    ensures Records(StateOf(trace[n], u), Own(steps, n, u), Written(steps, n, u), Taken(steps, n, u))
  {
    if n > 0 {
      HistoryRecords(trace, steps, n - 1, u);
      assert Next(trace[n - 1], steps[n - 1], trace[n - 1 + 1]);
      StepRecords(trace[n - 1], steps, n, trace[n], u);
    }
  }

  /** A worker that commits has dealt with all items of its recipients and with no other. */
  lemma WorkerTakesItsOwn(s: System, t: Tx)
    requires TxInv(s, t) && StateOf(s, t).Working? && StateOf(s, t).served == |StateOf(s, t).claims|
    ensures var st := StateOf(s, t);
            s.items - st.gone == (set i | i in s.items && i.to !in st.claims)
  {
    var st := StateOf(s, t);
    forall r | r in st.claims ensures DrainedFor(st, r) {
      var k :| 0 <= k < |st.claims| && st.claims[k] == r;
    }
  }

  /** A commit applies what its transaction holds; no other statement changes a committed row. */
  lemma StepIsSerial(s: System, step: Step, s': System)
    requires Inv(s) && Next(s, step, s')
    ensures var st := StateOf(s, step.t);
            if step.CommitRecord? then
              && st.Recording? && st.owes.None?
              && s'.items == s.items + st.items && s'.schedules == s.schedules + st.timers
            else if step.CommitWork? then
              && st.Working?
              && s'.items == (set i | i in s.items && i.to !in st.claims)
              && s'.schedules == s.schedules - Elements(st.claims)
            else s'.items == s.items && s'.schedules == s.schedules
  {
    assert TxInv(s, step.t);
    if step.CommitWork? {
      WorkerTakesItsOwn(s, step.t);
    }
  }

  lemma SerialNext(s: System, steps: seq<Step>, n: nat, s': System)
    requires 0 < n <= |steps| && Tables(s.items, s.schedules) == Serial(steps, n - 1)
    requires var t := steps[n - 1].t;
             Records(StateOf(s, t), Own(steps, n - 1, t), Written(steps, n - 1, t), Taken(steps, n - 1, t))
    requires var st := StateOf(s, steps[n - 1].t);
             if steps[n - 1].CommitRecord? then
               && st.Recording? && st.owes.None?
               && s'.items == s.items + st.items && s'.schedules == s.schedules + st.timers
             else if steps[n - 1].CommitWork? then
               && st.Working?
               && s'.items == (set i | i in s.items && i.to !in st.claims)
               && s'.schedules == s.schedules - Elements(st.claims)
             else s'.items == s.items && s'.schedules == s.schedules
    ensures Tables(s'.items, s'.schedules) == Serial(steps, n)
  {
  }

  lemma SerialStep(s: System, steps: seq<Step>, n: nat, s': System)
    requires 0 < n <= |steps| && Inv(s) && Next(s, steps[n - 1], s')
    requires Tables(s.items, s.schedules) == Serial(steps, n - 1)
    requires var t := steps[n - 1].t;
             Records(StateOf(s, t), Own(steps, n - 1, t), Written(steps, n - 1, t), Taken(steps, n - 1, t))
    ensures Tables(s'.items, s'.schedules) == Serial(steps, n)
  {
    StepIsSerial(s, steps[n - 1], s');
    SerialNext(s, steps, n, s');
  }

  /**
   Whatever the interleaving of their statements, the committed tables are those that the committed
   transactions give one after another, in the order of their commits.
   */
  lemma {:induction false} CommitsAreSerial(trace: seq<System>, steps: seq<Step>, n: nat)
    requires Run(trace, steps) && n < |trace|
    ensures Tables(trace[n].items, trace[n].schedules) == Serial(steps, n)
  {
    if n > 0 {
      CommitsAreSerial(trace, steps, n - 1);
      SerialAt(trace, steps, n);
    }
  }

  lemma SerialAt(trace: seq<System>, steps: seq<Step>, n: nat)
    requires Run(trace, steps) && 0 < n < |trace|
    requires Tables(trace[n - 1].items, trace[n - 1].schedules) == Serial(steps, n - 1)
    ensures Tables(trace[n].items, trace[n].schedules) == Serial(steps, n)
  {
    HistoryRecords(trace, steps, n - 1, steps[n - 1].t);
    EveryItemScheduled(trace, steps, n - 1);
    RunStep(trace, steps, n - 1);
    SerialStep(trace[n - 1], steps, n, trace[n]);
  }

  lemma RunStep(trace: seq<System>, steps: seq<Step>, i: nat)
    requires Run(trace, steps) && i < |steps|
    ensures Next(trace[i], steps[i], trace[i + 1])
  {
  }

  // ----- No guard stands in the way of a lone transaction -----

  /** With the timer row free, a recorder can run and commit its item and timer. */
  lemma RecorderRuns(s: System, t: Tx, item: Item) returns (s1: System, s2: System, s3: System, s4: System)
    requires StateOf(s, t).Idle? && item.to !in s.locks
    ensures Next(s, BeginRecord(t), s1) && Next(s1, InsertItem(t, item), s2)
    ensures Next(s2, UpsertTimer(t), s3) && Next(s3, CommitRecord(t), s4)
    ensures s4.items == s.items + {item} && s4.schedules == s.schedules + {item.to}
  {
    s1 := Put(s, t, Recording({}, None, {}));
    s2 := Put(s1, t, Recording({item}, Some(item.to), {}));
    s3 := Put(s2, t, Recording({item}, None, {item.to})).(locks := s.locks[item.to := t]);
    s4 := Put(s3, t, Idle).(items := s.items + {item}, schedules := s.schedules + {item.to},
                            locks := Released(s3.locks, t));
    assert {} + {item} == {item} && {} + {item.to} == {item.to};
  }

  /** A worker can claim any timer that nobody holds, and commit. */
  lemma WorkerRuns(s: System, t: Tx, r: Recipient) returns (s1: System, s2: System, s3: System, s4: System)
    requires StateOf(s, t).Idle? && r in s.schedules && r !in s.locks
    ensures Next(s, Claim(t, [r]), s1) && Next(s1, Drain(t), s2) && Next(s2, Clear(t), s3)
    ensures Next(s3, CommitWork(t), s4)
    ensures s4.items == (set i | i in s.items && i.to != r) && s4.schedules == s.schedules - {r}
  {
    s1 := Put(s, t, Working([r], 0, false, {})).(locks := s.locks + map x | x in [r] :: t);
    s2, s3, s4 := ClaimedRuns(s1, t, r);
  }

  lemma ClaimedRuns(s1: System, t: Tx, r: Recipient) returns (s2: System, s3: System, s4: System)
    requires StateOf(s1, t) == Working([r], 0, false, {})
    ensures Next(s1, Drain(t), s2) && Next(s2, Clear(t), s3) && Next(s3, CommitWork(t), s4)
    ensures s4.items == (set i | i in s1.items && i.to != r) && s4.schedules == s1.schedules - {r}
  {
    var mine := set i | i in s1.items && i.to == [r][0];
    s2 := Put(s1, t, Working([r], 0, true, {} + mine));
    s3 := Put(s2, t, Working([r], 1, false, {} + mine));
    s4 := Put(s3, t, Idle).(items := s1.items - ({} + mine), schedules := s1.schedules - Elements([r]),
                            locks := Released(s3.locks, t));
    assert Elements([r]) == {r};
  }
}
