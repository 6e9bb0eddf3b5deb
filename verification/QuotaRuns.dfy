/** What the committed rows of a run owe to the requests that began their jobs. */
module QuotaRuns {
  import opened Wrappers
  import opened Documents
  import opened Quota

  /** The row is what the request asks for. */
  predicate Answers(d: Document, r: Request) {
    match r
    case UploadRequest(u, now) =>
      && d.customer == u.customer && d.parent == u.parent && d.size == u.file.size && d.uploadedAt == now
      && (u.parent.None? ==> d.category == u.category)
    case DraftRequest(c, size, now) =>
      d.customer == c && d.parent == None && d.category == NdaDraft && d.size == size && d.uploadedAt == now
  }

  /** An uploaded file arrived whole, is not above 50 MB and is of a known type, the declared one if any. */
  predicate FileFine(r: Request) {
    r.UploadRequest? ==>
      var f, declared := r.upload.file, r.upload.declared;
      && !f.truncated && f.size <= 52_428_800 && f.sniffed.Some?
      && (declared.Some? && declared.value != "" ==> declared == f.sniffed)
  }

  predicate StageTracks(stage: Stage, r: Request) {
    match stage
    case Requested(q) => q == r
    case Resolved(u, d) => r.UploadRequest? && u == r.upload && Answers(d, r)
    case Admitted(u, d) => r.UploadRequest? && u == r.upload && Answers(d, r)
    case Finished => true
    case _ => Answers(stage.d, r) && FileFine(r)
  }

  /** Every job is on its way to, and every committed row is, what its request asks for. */
  ghost predicate Tracks(s: System, requests: map<nat, Request>) {
    && s.jobs.Keys == requests.Keys
    && (forall j :: j in s.jobs ==> StageTracks(s.jobs[j], requests[j]))
    && (forall i :: 0 <= i < |s.docs| ==> RowTracks(s.docs[i], requests))
  }

  predicate RowTracks(d: Document, requests: map<nat, Request>) {
    d.id in requests && Answers(d, requests[d.id]) && FileFine(requests[d.id])
  }

  function Noted(requests: map<nat, Request>, step: Step): map<nat, Request> {
    if step.Begin? then requests[step.job := step.request] else requests
  }

  /** The request of every job that the steps begin. */
  function RequestsOf(steps: seq<Step>): map<nat, Request> {
    if steps == [] then map[] else Noted(RequestsOf(steps[..|steps| - 1]), steps[|steps| - 1])
  }

  lemma {:induction false} LegalSnoc(s: System, steps: seq<Step>)
    requires steps != [] && Legal(s, steps)
    ensures var n := |steps| - 1;
            && Legal(s, steps[..n]) && Enabled(Run(s, steps[..n]), steps[n])
            && Run(s, steps) == After(Run(s, steps[..n]), steps[n])
    decreases |steps|
  {
    var n := |steps| - 1;
    if n > 0 {
      LegalSnoc(After(s, steps[0]), steps[1..]);
      assert steps[1..][..n - 1] == steps[..n][1..];
    }
  }

  lemma CommitKeepsTracks(s: System, requests: map<nat, Request>, j: nat)
    requires Inv(s) && Tracks(s, requests) && Enabled(s, Commit(j))
    ensures Tracks(After(s, Commit(j)), requests)
  {
    var d := s.jobs[j].d;
    assert JobInv(s, j, s.jobs[j]);
    assert StageTracks(s.jobs[j], requests[j]);
    var t := After(s, Commit(j));
    forall i | 0 <= i < |t.docs| ensures RowTracks(t.docs[i], requests) {
      assert t.docs[i] == if i < |s.docs| then s.docs[i] else d;
    }
  }

  lemma ResolveKeepsTracks(s: System, requests: map<nat, Request>, j: nat)
    requires Tracks(s, requests) && Enabled(s, Resolve(j))
    ensures Tracks(After(s, Resolve(j)), requests)
  {
    assert StageTracks(s.jobs[j], requests[j]);
  }

  /** Steps that move one job along and leave its row as it is. */
  lemma MoveKeepsTracks(s: System, requests: map<nat, Request>, step: Step)
    requires Tracks(s, requests) && Enabled(s, step)
    requires !step.Begin? && !step.Resolve? && !step.Commit? && !step.SetStatus?
    ensures Tracks(After(s, step), requests)
  {
    var t := After(s, step);
    assert StageTracks(s.jobs[step.job], requests[step.job]);
    assert t.jobs == s.jobs[step.job := t.jobs[step.job]] && t.docs == s.docs;
    assert StageTracks(t.jobs[step.job], requests[step.job]);
  }

  lemma StepKeepsTracks(s: System, requests: map<nat, Request>, step: Step)
    requires Inv(s) && Tracks(s, requests) && Enabled(s, step)
    ensures Tracks(After(s, step), Noted(requests, step))
  {
    match step
    case Commit(j) => CommitKeepsTracks(s, requests, j);
    case Resolve(j) => ResolveKeepsTracks(s, requests, j);
    case Begin(_, _) =>
    case SetStatus(_, _) =>
    case _ => MoveKeepsTracks(s, requests, step);
  }

  lemma {:induction false} RunTracks(customers: Customers, steps: seq<Step>)
    requires Legal(Start(customers), steps)
    ensures Inv(Run(Start(customers), steps)) && Tracks(Run(Start(customers), steps), RequestsOf(steps))
  {
    if steps != [] {
      var n := |steps| - 1;
      LegalSnoc(Start(customers), steps);
      RunTracks(customers, steps[..n]);
      StepKeepsInv(Run(Start(customers), steps[..n]), steps[n]);
      StepKeepsTracks(Run(Start(customers), steps[..n]), RequestsOf(steps[..n]), steps[n]);
    }
  }

  lemma {:induction false} RequestFrom(steps: seq<Step>, j: nat) returns (i: nat)
    requires j in RequestsOf(steps)
    ensures i < |steps| && steps[i] == Begin(j, RequestsOf(steps)[j])
  {
    i := |steps| - 1;
    if !(steps[i].Begin? && steps[i].job == j) {
      i := RequestFrom(steps[..i], j);
    }
  }

  lemma {:induction false} BegunIsRequested(steps: seq<Step>, i: nat)
    requires i < |steps| && steps[i].Begin?
    ensures steps[i].job in RequestsOf(steps)
  {
    var n := |steps| - 1;
    if i < n {
      BegunIsRequested(steps[..n], i);
    }
  }

  /** A job is begun once. */
  lemma {:induction false} BegunOnce(customers: Customers, steps: seq<Step>, i: nat, k: nat)
    requires Legal(Start(customers), steps) && i < k < |steps|
    requires steps[i].Begin? && steps[k].Begin?
    ensures steps[i].job != steps[k].job
  {
    var n := |steps| - 1;
    LegalSnoc(Start(customers), steps);
    if k < n {
      BegunOnce(customers, steps[..n], i, k);
    } else {
      BegunIsRequested(steps[..n], i);
      RunTracks(customers, steps[..n]);
    }
  }

  /**
   Every committed row was begun by exactly one step of the run. An upload's row carries the customer,
   parent, size and time of its request, a draft's row the customer, size and time of its own.
   */
  lemma CommittedAsRequested(customers: Customers, steps: seq<Step>, d: Document) returns (i: nat)
    requires Legal(Start(customers), steps) && d in Run(Start(customers), steps).docs
    ensures i < |steps| && steps[i].Begin? && steps[i].job == d.id
    ensures Answers(d, steps[i].request) && FileFine(steps[i].request)
    ensures forall k :: 0 <= k < |steps| && steps[k].Begin? && steps[k].job == d.id ==> k == i
  {
    RunTracks(customers, steps);
    var docs := Run(Start(customers), steps).docs;
    var n :| 0 <= n < |docs| && docs[n] == d;
    assert RowTracks(docs[n], RequestsOf(steps));
    i := RequestFrom(steps, d.id);
    forall k | 0 <= k < |steps| && steps[k].Begin? && steps[k].job == d.id ensures k == i {
      if k < i {
        BegunOnce(customers, steps, k, i);
      } else if i < k {
        BegunOnce(customers, steps, i, k);
      }
    }
  }

  /** The jobs that the steps commit, in order. */
  function Commits(steps: seq<Step>): seq<nat> {
    if steps == [] then []
    else
      var n := |steps| - 1;
      Commits(steps[..n]) + if steps[n].Commit? then [steps[n].job] else []
  }

  function IdsOf(docs: seq<Document>): (ids: seq<nat>)
    ensures |ids| == |docs|
  {
    seq(|docs|, i requires 0 <= i < |docs| => docs[i].id)
  }

  /** The table holds the rows of the committed jobs in the order of their commits, and no others. */
  lemma {:induction false} RowsAreCommits(customers: Customers, steps: seq<Step>)
    requires Legal(Start(customers), steps)
    ensures IdsOf(Run(Start(customers), steps).docs) == Commits(steps)
  {
    if steps != [] {
      var n := |steps| - 1;
      LegalSnoc(Start(customers), steps);
      RowsAreCommits(customers, steps[..n]);
      RunTracks(customers, steps[..n]);
      StepCommits(Run(Start(customers), steps[..n]), steps[n]);
    }
  }

  lemma StepCommits(s: System, step: Step)
    requires Inv(s) && Enabled(s, step)
    ensures IdsOf(After(s, step).docs) == IdsOf(s.docs) + if step.Commit? then [step.job] else []
  {
    if step.Commit? {
      assert JobInv(s, step.job, s.jobs[step.job]);
    }
  }

  function Asker(r: Request): nat {
    match r
    case UploadRequest(u, _) => u.customer
    case DraftRequest(c, _, _) => c
  }

  function AskedBytes(r: Request): nat {
    match r
    case UploadRequest(u, _) => u.file.size
    case DraftRequest(_, size, _) => size
  }

  /** The bytes that the jobs `ids` of one customer asked for. */
  function RequestedBytes(requests: map<nat, Request>, ids: seq<nat>, customer: nat): nat {
    if ids == [] then 0
    else
      var j := ids[|ids| - 1];
      RequestedBytes(requests, ids[..|ids| - 1], customer)
      + if j in requests && Asker(requests[j]) == customer then AskedBytes(requests[j]) else 0
  }

  lemma {:induction false} StoredIsRequested(docs: seq<Document>, requests: map<nat, Request>, customer: nat)
    requires forall i :: 0 <= i < |docs| ==> RowTracks(docs[i], requests)
    ensures StorageBytes(docs, customer) == RequestedBytes(requests, IdsOf(docs), customer)
  {
    if docs != [] {
      var n := |docs| - 1;
      StoredIsRequested(docs[..n], requests, customer);
      assert IdsOf(docs)[..n] == IdsOf(docs[..n]);
      assert RowTracks(docs[n], requests);
    }
  }

  /** What the committed jobs of a customer asked for is at most 5 GB in all, whatever the interleaving. */
  lemma RequestsWithinQuota(customers: Customers, steps: seq<Step>, customer: nat)
    requires Legal(Start(customers), steps)
    ensures RequestedBytes(RequestsOf(steps), Commits(steps), customer) <= 5_368_709_120
  {
    RunTracks(customers, steps);
    RowsAreCommits(customers, steps);
    StoredIsRequested(Run(Start(customers), steps).docs, RequestsOf(steps), customer);
  }

  // ----- A customer's status -----

  /** The customers as the status changes of the run leave them. */
  function StatusAfter(customers: Customers, steps: seq<Step>, c: nat): Option<CustomerStatus> {
    if steps == [] then if c in customers then Some(customers[c]) else None
    else
      var n := |steps| - 1;
      if steps[n].SetStatus? && steps[n].customer == c then Some(steps[n].status)
      else StatusAfter(customers, steps[..n], c)
  }

  lemma {:induction false} StatusIsLast(customers: Customers, steps: seq<Step>, c: nat)
    requires Legal(Start(customers), steps)
    ensures var s := Run(Start(customers), steps);
            StatusAfter(customers, steps, c) == if c in s.customers then Some(s.customers[c]) else None
  {
    if steps != [] {
      LegalSnoc(Start(customers), steps);
      StatusIsLast(customers, steps[..|steps| - 1], c);
    }
  }

  /** A row is committed only while the last status given to its customer is active. */
  lemma CommittedWhileActive(customers: Customers, steps: seq<Step>, j: nat)
    requires steps != [] && Legal(Start(customers), steps) && steps[|steps| - 1] == Commit(j)
    ensures var docs := Run(Start(customers), steps).docs;
            && docs != [] && docs[|docs| - 1].id == j
            && StatusAfter(customers, steps, docs[|docs| - 1].customer) == Some(Active)
  {
    var n := |steps| - 1;
    LegalSnoc(Start(customers), steps);
    RunTracks(customers, steps[..n]);
    var s := Run(Start(customers), steps[..n]);
    assert JobInv(s, j, s.jobs[j]);
    StatusIsLast(customers, steps[..n], s.jobs[j].d.customer);
  }

  // ----- What is fit to be committed can be -----

  lemma RunCons(s: System, step: Step, rest: seq<Step>)
    requires Enabled(s, step) && Legal(After(s, step), rest)
    ensures Legal(s, [step] + rest) && Run(s, [step] + rest) == Run(After(s, step), rest)
  {
    assert ([step] + rest)[1..] == rest;
  }

  /** A job whose row is ready commits it, when its customer is active, not locked and has room. */
  lemma ReadyCommits(s: System, j: nat)
    requires j in s.jobs && s.jobs[j].Ready?
    requires var d := s.jobs[j].d;
             && d.customer !in s.locks && IsActive(s, d.customer)
             && StorageBytes(s.docs, d.customer) + d.size <= MAX_CUSTOMER_BYTES
    ensures var steps := [LockCustomer(j), Weigh(j), Insert(j), Commit(j)];
            && Legal(s, steps)
            && Run(s, steps) == s.(docs := s.docs + [s.jobs[j].d], jobs := s.jobs[j := Finished])
  {
    var d := s.jobs[j].d;
    var locked := After(s, LockCustomer(j));
    var weighed := After(locked, Weigh(j));
    var inserted := After(weighed, Insert(j));
    var done := After(inserted, Commit(j));
    assert done.jobs == s.jobs[j := Finished] && done.locks == s.locks;
    RunCons(inserted, Commit(j), []);
    RunCons(weighed, Insert(j), [Commit(j)]);
    RunCons(locked, Weigh(j), [Insert(j), Commit(j)]);
    RunCons(s, LockCustomer(j), [Weigh(j), Insert(j), Commit(j)]);
    assert [LockCustomer(j)] + [Weigh(j), Insert(j), Commit(j)] == [LockCustomer(j), Weigh(j), Insert(j), Commit(j)];
  }

  lemma LegalConcat(s: System, first: seq<Step>, rest: seq<Step>)
    requires Legal(s, first) && Legal(Run(s, first), rest)
    ensures Legal(s, first + rest) && Run(s, first + rest) == Run(Run(s, first), rest)
    decreases |first|
  {
    if first == [] {
      assert first + rest == rest;
    } else {
      LegalConcat(After(s, first[0]), first[1..], rest);
      RunCons(s, first[0], first[1..] + rest);
      assert [first[0]] + (first[1..] + rest) == first + rest;
    }
  }

  /** The request names no customer's version but the customer's own, and a category that a document may have. */
  ghost predicate WellPlaced(docs: seq<Document>, u: Upload) {
    if u.parent.None? then !u.category.Other?
    else exists p :: 0 <= p < |docs| && docs[p].id == u.parent.value && docs[p].customer == u.customer
  }

  lemma UploadGetsReady(s: System, j: nat, u: Upload, now: nat) returns (d: Document)
    requires Forest(s.docs) && j !in s.jobs && IsActive(s, u.customer)
    requires FileFine(UploadRequest(u, now)) && WellPlaced(s.docs, u)
    requires StorageBytes(s.docs, u.customer) + u.file.size <= MAX_CUSTOMER_BYTES
    ensures Answers(d, UploadRequest(u, now)) && d.id == j
    ensures var steps := [Begin(j, UploadRequest(u, now)), Resolve(j), CheckCustomer(j), PreCheckQuota(j)];
            Legal(s, steps) && Run(s, steps) == s.(jobs := s.jobs[j := Ready(d)])
  {
    ParentFound(s.docs, u);
    var begun := After(s, Begin(j, UploadRequest(u, now)));
    d := Row(s.docs, j, UploadRequest(u, now));
    var resolved := After(begun, Resolve(j));
    var admitted := After(resolved, CheckCustomer(j));
    var ready := After(admitted, PreCheckQuota(j));
    assert ready.jobs == s.jobs[j := Ready(d)];
    RunCons(admitted, PreCheckQuota(j), []);
    RunCons(resolved, CheckCustomer(j), [PreCheckQuota(j)]);
    RunCons(begun, Resolve(j), [CheckCustomer(j), PreCheckQuota(j)]);
    RunCons(s, Begin(j, UploadRequest(u, now)), [Resolve(j), CheckCustomer(j), PreCheckQuota(j)]);
    assert [Begin(j, UploadRequest(u, now))] + [Resolve(j), CheckCustomer(j), PreCheckQuota(j)] ==
           [Begin(j, UploadRequest(u, now)), Resolve(j), CheckCustomer(j), PreCheckQuota(j)];
  }

  /** No guard turns away an upload that is fit: with its customer unlocked it can run to its commit. */
  lemma FitUploadCommits(s: System, j: nat, u: Upload, now: nat) returns (d: Document, steps: seq<Step>)
    requires Forest(s.docs) && j !in s.jobs && IsActive(s, u.customer) && u.customer !in s.locks
    requires FileFine(UploadRequest(u, now)) && WellPlaced(s.docs, u)
    requires StorageBytes(s.docs, u.customer) + u.file.size <= 5_368_709_120
    ensures Answers(d, UploadRequest(u, now)) && d.id == j
    ensures Legal(s, steps) && Run(s, steps) == s.(docs := s.docs + [d], jobs := s.jobs[j := Finished])
  {
    d := UploadGetsReady(s, j, u, now);
    var first := [Begin(j, UploadRequest(u, now)), Resolve(j), CheckCustomer(j), PreCheckQuota(j)];
    var ready := Run(s, first);
    ReadyCommits(ready, j);
    steps := first + [LockCustomer(j), Weigh(j), Insert(j), Commit(j)];
    LegalConcat(s, first, [LockCustomer(j), Weigh(j), Insert(j), Commit(j)]);
    assert ready.jobs[j := Finished] == s.jobs[j := Finished];
  }

  /** The same for a draft. */
  lemma FitDraftCommits(s: System, j: nat, c: nat, size: nat, now: nat) returns (d: Document, steps: seq<Step>)
    requires j !in s.jobs && IsActive(s, c) && c !in s.locks
    requires StorageBytes(s.docs, c) + size <= 5_368_709_120
    ensures Answers(d, DraftRequest(c, size, now)) && d.id == j
    ensures Legal(s, steps) && Run(s, steps) == s.(docs := s.docs + [d], jobs := s.jobs[j := Finished])
  {
    var r := DraftRequest(c, size, now);
    var begun := After(s, Begin(j, r));
    d := Row(s.docs, j, r);
    var ready := After(begun, Resolve(j));
    assert ready.jobs == s.jobs[j := Ready(d)];
    ReadyCommits(ready, j);
    var rest := [LockCustomer(j), Weigh(j), Insert(j), Commit(j)];
    RunCons(begun, Resolve(j), rest);
    RunCons(s, Begin(j, r), [Resolve(j)] + rest);
    steps := [Begin(j, r)] + ([Resolve(j)] + rest);
    assert ready.jobs[j := Finished] == s.jobs[j := Finished];
  }
}
