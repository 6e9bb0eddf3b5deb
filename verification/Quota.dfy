/**
 Uploads and NDA drafts of many clients at once, one database statement at a time. The checks before
 the transaction read whatever is committed at that moment; only the checks under the lock on the
 customer row decide.
 */
module Quota {
  import opened Wrappers
  import opened Documents

  datatype Request =
    | UploadRequest(upload: Upload, now: nat)
    | DraftRequest(customer: nat, size: nat, now: nat)

  /** How far a job has come; `d` is the row it is going to insert. */
  datatype Stage =
    | Requested(request: Request)
    | Resolved(u: Upload, d: Document)
    | Admitted(u: Upload, d: Document)
    | Ready(d: Document)
    | Locked(d: Document)
    | Weighed(d: Document, bytes: nat)
    | Inserted(d: Document)
    | Finished

  /** Committed rows, the jobs by the id of the document they add, and who holds which customer row. */
  datatype System = System(
    docs: seq<Document>, customers: Customers, jobs: map<nat, Stage>, locks: map<nat, nat>)

  datatype Step =
    | Begin(job: nat, request: Request)
    | Resolve(job: nat)
    | CheckCustomer(job: nat)
    | PreCheckQuota(job: nat)
    | LockCustomer(job: nat)
    | Weigh(job: nat)
    | Insert(job: nat)
    | Commit(job: nat)
    | Abort(job: nat)
    | SetStatus(customer: nat, status: CustomerStatus)

  predicate IsActive(s: System, customer: nat) {
    customer in s.customers && s.customers[customer].Active?
  }

  predicate Enabled(s: System, step: Step) {
    match step
    case Begin(j, r) => j !in s.jobs
    case Resolve(j) =>
      j in s.jobs && s.jobs[j].Requested? &&
      (s.jobs[j].request.UploadRequest? ==>
         var category := ResolvedCategory(s.docs, s.jobs[j].request.upload);
         category.Ok? && !category.value.Other?)
    case CheckCustomer(j) => j in s.jobs && s.jobs[j].Resolved? && IsActive(s, s.jobs[j].d.customer)
    case PreCheckQuota(j) =>
      j in s.jobs && s.jobs[j].Admitted? && FileError(s.jobs[j].u.file, s.jobs[j].u.declared).None? &&
      StorageBytes(s.docs, s.jobs[j].d.customer) + s.jobs[j].d.size <= MAX_CUSTOMER_BYTES
    case LockCustomer(j) =>
      j in s.jobs && s.jobs[j].Ready? && s.jobs[j].d.customer !in s.locks && IsActive(s, s.jobs[j].d.customer)
    case Weigh(j) =>
      j in s.jobs && s.jobs[j].Locked? &&
      StorageBytes(s.docs, s.jobs[j].d.customer) + s.jobs[j].d.size <= MAX_CUSTOMER_BYTES
    case Insert(j) => j in s.jobs && s.jobs[j].Weighed?
    case Commit(j) => j in s.jobs && s.jobs[j].Inserted?
    case Abort(j) => j in s.jobs && !s.jobs[j].Finished?
    // An update of the customer row waits for its lock.
    case SetStatus(c, _) => c !in s.locks
  }

  /** The row that a request leads to. */
  function Row(docs: seq<Document>, j: nat, r: Request): Document
    requires r.UploadRequest? ==> ResolvedCategory(docs, r.upload).Ok?
  {
    match r
    case UploadRequest(u, now) =>
      Document(j, u.customer, u.parent, ResolvedCategory(docs, u).value, u.file.size, now)
    case DraftRequest(c, size, now) => Document(j, c, None, NdaDraft, size, now)
  }

  predicate HoldsLock(stage: Stage) {
    stage.Locked? || stage.Weighed? || stage.Inserted?
  }

  function Unlock(s: System, j: nat): map<nat, nat>
    requires j in s.jobs
  {
    if HoldsLock(s.jobs[j]) then s.locks - {s.jobs[j].d.customer} else s.locks
  }

  function After(s: System, step: Step): System
    requires Enabled(s, step)
  {
    match step
    case Begin(j, r) => s.(jobs := s.jobs[j := Requested(r)])
    case Resolve(j) =>
      var r := s.jobs[j].request;
      var d := Row(s.docs, j, r);
      // A draft has no quota check before its transaction; its early look at the status decides nothing.
      s.(jobs := s.jobs[j := if r.UploadRequest? then Resolved(r.upload, d) else Ready(d)])
    case CheckCustomer(j) => s.(jobs := s.jobs[j := Admitted(s.jobs[j].u, s.jobs[j].d)])
    case PreCheckQuota(j) => s.(jobs := s.jobs[j := Ready(s.jobs[j].d)])
    case LockCustomer(j) =>
      s.(jobs := s.jobs[j := Locked(s.jobs[j].d)], locks := s.locks[s.jobs[j].d.customer := j])
    case Weigh(j) =>
      var d := s.jobs[j].d;
      s.(jobs := s.jobs[j := Weighed(d, StorageBytes(s.docs, d.customer))])
    case Insert(j) => s.(jobs := s.jobs[j := Inserted(s.jobs[j].d)])
    case Commit(j) =>
      s.(docs := s.docs + [s.jobs[j].d], jobs := s.jobs[j := Finished], locks := Unlock(s, j))
    case Abort(j) => s.(jobs := s.jobs[j := Finished], locks := Unlock(s, j))
    case SetStatus(c, status) => s.(customers := s.customers[c := status])
  }

  ghost predicate Legal(s: System, steps: seq<Step>)
    decreases |steps|
  {
    steps == [] || (Enabled(s, steps[0]) && Legal(After(s, steps[0]), steps[1..]))
  }

  ghost function Run(s: System, steps: seq<Step>): System
    requires Legal(s, steps)
    decreases |steps|
  {
    if steps == [] then s else Run(After(s, steps[0]), steps[1..])
  }

  /** What a job relies on. Everything read before the lock may be stale, except that versions stay. */
  ghost predicate JobInv(s: System, j: nat, stage: Stage) {
    && (!stage.Requested? && !stage.Finished? ==> stage.d.id == j && Fits(s.docs, stage.d))
    && (HoldsLock(stage) ==>
          && stage.d.customer in s.locks && s.locks[stage.d.customer] == j
          && IsActive(s, stage.d.customer))
    && (stage.Weighed? ==> stage.bytes == StorageBytes(s.docs, stage.d.customer))
    && (stage.Weighed? || stage.Inserted? ==>
          StorageBytes(s.docs, stage.d.customer) + stage.d.size <= MAX_CUSTOMER_BYTES)
  }

  ghost predicate LocksInv(s: System) {
    forall c :: c in s.locks ==>
                  s.locks[c] in s.jobs && HoldsLock(s.jobs[s.locks[c]]) && s.jobs[s.locks[c]].d.customer == c
  }

  ghost predicate RowsFinished(s: System) {
    forall i :: 0 <= i < |s.docs| ==> s.docs[i].id in s.jobs && s.jobs[s.docs[i].id].Finished?
  }

  ghost predicate Inv(s: System) {
    && ValidStore(s.docs)
    && (forall j :: j in s.jobs ==> JobInv(s, j, s.jobs[j]))
    && LocksInv(s) && RowsFinished(s)
  }

  /** A row that fits still fits after another row is committed. */
  lemma FitsStays(docs: seq<Document>, d: Document, e: Document)
    requires Fits(docs, d) && Fits(docs, e) && d.id != e.id
    ensures Fits(docs + [e], d)
  {
    assert (docs + [e])[..|docs|] == docs;
  }

  lemma RowFits(s: System, j: nat)
    requires Inv(s) && Enabled(s, Resolve(j))
    ensures Fits(s.docs, Row(s.docs, j, s.jobs[j].request))
  {
    assert IndexOf(s.docs, j).None?;
  }

  /** Committing the row of a job that holds its lock leaves the other jobs' knowledge true. */
  lemma CommitKeepsOthers(s: System, j: nat, k: nat)
    requires Inv(s) && Enabled(s, Commit(j)) && k in s.jobs && k != j
    ensures JobInv(After(s, Commit(j)), k, s.jobs[k])
  {
    var d := s.jobs[j].d;
    assert JobInv(s, j, s.jobs[j]) && JobInv(s, k, s.jobs[k]);
    if !s.jobs[k].Requested? && !s.jobs[k].Finished? {
      FitsStays(s.docs, s.jobs[k].d, d);
      StorageSnoc(s.docs, d, s.jobs[k].d.customer);
    }
  }

  lemma CommitKeepsInv(s: System, j: nat)
    requires Inv(s) && Enabled(s, Commit(j))
    ensures Inv(After(s, Commit(j)))
  {
    var t := After(s, Commit(j));
    assert JobInv(s, j, s.jobs[j]);
    InsertKeepsStore(s.docs, s.jobs[j].d);
    forall k | k in t.jobs ensures JobInv(t, k, t.jobs[k]) {
      if k != j {
        CommitKeepsOthers(s, j, k);
      }
    }
    ReleaseKeepsLocks(s, j, t);
    forall i | 0 <= i < |t.docs| ensures t.docs[i].id in t.jobs && t.jobs[t.docs[i].id].Finished? {
      assert i < |s.docs| ==> t.docs[i] == s.docs[i];
    }
  }

  lemma ReleaseKeepsLocks(s: System, j: nat, t: System)
    requires Inv(s) && j in s.jobs
    requires t.jobs == s.jobs[j := Finished] && t.locks == Unlock(s, j)
    ensures LocksInv(t)
  {
    assert JobInv(s, j, s.jobs[j]);
  }

  lemma AbortKeepsInv(s: System, j: nat)
    requires Inv(s) && Enabled(s, Abort(j))
    ensures Inv(After(s, Abort(j)))
  {
    var t := After(s, Abort(j));
    ReleaseKeepsLocks(s, j, t);
    forall k | k in t.jobs ensures JobInv(t, k, t.jobs[k]) {
      assert JobInv(s, j, s.jobs[j]);
      if k != j {
        assert JobInv(s, k, s.jobs[k]);
      }
    }
  }

  lemma LockKeepsInv(s: System, j: nat)
    requires Inv(s) && Enabled(s, LockCustomer(j))
    ensures Inv(After(s, LockCustomer(j)))
  {
    var t := After(s, LockCustomer(j));
    forall k | k in t.jobs ensures JobInv(t, k, t.jobs[k]) {
      assert JobInv(s, j, s.jobs[j]);
      if k != j {
        assert JobInv(s, k, s.jobs[k]);
      }
    }
  }

  /** A state in which only job `j` has moved, to a stage that is right and holds a lock iff it did. */
  lemma MovedKeepsInv(s: System, t: System, j: nat)
    requires Inv(s) && j in t.jobs && t == s.(jobs := s.jobs[j := t.jobs[j]])
    requires JobInv(t, j, t.jobs[j])
    requires j in s.jobs ==> !s.jobs[j].Finished?
    requires j in s.jobs && HoldsLock(s.jobs[j]) ==> HoldsLock(t.jobs[j]) && t.jobs[j].d == s.jobs[j].d
    ensures Inv(t)
  {
    forall k | k in t.jobs ensures JobInv(t, k, t.jobs[k]) {
      if k != j {
        assert JobInv(s, k, s.jobs[k]);
      }
    }
  }

  /** Steps that only move one job along, without touching rows, customers or locks. */
  lemma OwnStepKeepsInv(s: System, step: Step)
    requires Inv(s) && Enabled(s, step)
    requires step.Begin? || step.Resolve? || step.CheckCustomer? || step.PreCheckQuota? || step.Weigh? || step.Insert?
    ensures Inv(After(s, step))
  {
    var t, j := After(s, step), step.job;
    if step.Resolve? {
      RowFits(s, j);
    }
    if j in s.jobs {
      assert JobInv(s, j, s.jobs[j]);
    }
    assert JobInv(t, j, t.jobs[j]);
    MovedKeepsInv(s, t, j);
  }

  lemma StatusKeepsInv(s: System, c: nat, status: CustomerStatus)
    requires Inv(s) && Enabled(s, SetStatus(c, status))
    ensures Inv(After(s, SetStatus(c, status)))
  {
    var t := After(s, SetStatus(c, status));
    forall k | k in t.jobs ensures JobInv(t, k, t.jobs[k]) {
      assert JobInv(s, k, s.jobs[k]);
    }
  }

  lemma StepKeepsInv(s: System, step: Step)
    requires Inv(s) && Enabled(s, step)
    ensures Inv(After(s, step))
  {
    match step
    case Commit(j) => CommitKeepsInv(s, j);
    case Abort(j) => AbortKeepsInv(s, j);
    case LockCustomer(j) => LockKeepsInv(s, j);
    case SetStatus(c, status) => StatusKeepsInv(s, c, status);
    case _ => OwnStepKeepsInv(s, step);
  }

  lemma {:induction false} RunKeepsInv(s: System, steps: seq<Step>)
    requires Inv(s) && Legal(s, steps)
    ensures Inv(Run(s, steps))
    decreases |steps|
  {
    if steps != [] {
      StepKeepsInv(s, steps[0]);
      RunKeepsInv(After(s, steps[0]), steps[1..]);
    }
  }

  function Start(customers: Customers): System {
    System([], customers, map[], map[])
  }

  /**
   Whatever the interleaving of uploads, drafts, aborts and status changes, no customer is ever over
   quota in committed rows, and the committed rows are a forest of versions.
   */
  lemma QuotaKept(customers: Customers, steps: seq<Step>, customer: nat)
    requires Legal(Start(customers), steps)
    ensures var docs := Run(Start(customers), steps).docs;
            StorageBytes(docs, customer) <= 5_368_709_120 && Forest(docs)
  {
    RunKeepsInv(Start(customers), steps);
  }

  /** At most one job at a time is between the lock and the commit for a customer. */
  lemma OneAtATime(customers: Customers, steps: seq<Step>, j: nat, k: nat)
    requires Legal(Start(customers), steps)
    requires var s := Run(Start(customers), steps);
             && j in s.jobs && k in s.jobs && HoldsLock(s.jobs[j]) && HoldsLock(s.jobs[k])
             && s.jobs[j].d.customer == s.jobs[k].d.customer
    ensures j == k
  {
    RunKeepsInv(Start(customers), steps);
    var s := Run(Start(customers), steps);
    assert JobInv(s, j, s.jobs[j]) && JobInv(s, k, s.jobs[k]);
  }

  /** A row is committed for an active customer, and what was weighed is still true at that moment. */
  lemma CommitIsChecked(customers: Customers, steps: seq<Step>, j: nat)
    requires Legal(Start(customers), steps) && Enabled(Run(Start(customers), steps), Commit(j))
    ensures var s := Run(Start(customers), steps);
            var d := s.jobs[j].d;
            && IsActive(s, d.customer)
            && StorageBytes(s.docs + [d], d.customer) == StorageBytes(s.docs, d.customer) + d.size <= MAX_CUSTOMER_BYTES
  {
    RunKeepsInv(Start(customers), steps);
    var s := Run(Start(customers), steps);
    assert JobInv(s, j, s.jobs[j]);
    StorageSnoc(s.docs, s.jobs[j].d, s.jobs[j].d.customer);
  }
}
