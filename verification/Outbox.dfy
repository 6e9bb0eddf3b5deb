/** The e-mail outbox: idempotent enqueue, batched claim, send, retry with backoff. Times are milliseconds. */
module Outbox {
  import opened Wrappers
  import opened Numbers
  import opened Seqs

  datatype Status = Queued | Sending | Sent | Failed

  /** An `email_outbox` row; its primary key is its position in the table. */
  datatype Mail = Mail(key: string, to: string, template: string, locale: string, locals: map<string, string>,
                       status: Status, attempts: nat, lastError: Option<string>, sendAfter: nat, sentAt: Option<nat>)

  /** What rendering and the mailer make of a claimed row. */
  datatype Outcome = Delivered | Refused(retryable: bool, message: string)

  const MAX_ATTEMPTS: nat := 5

  const SENSITIVE_LOCAL_KEYS: set<string> := {"code", "welcomeUrl", "resetUrl", "inviteUrl", "verifyUrl", "revertUrl"}

  /** `Math.min(2 ** attempts * 60_000, 3_600_000)` */
  function Backoff(attempts: nat): nat {
    var ms := Pow2(attempts) * 60_000;
    if ms < 3_600_000 then ms else 3_600_000
  }

  /** For the attempts that occur, the backoff is 2, 4, 8, 16, 32 minutes and its cap is never reached. */
  lemma BackoffBelowCap(attempts: nat)
    requires 1 <= attempts <= MAX_ATTEMPTS
    ensures Backoff(attempts) == Pow2(attempts) * 60_000 < 3_600_000
    ensures attempts > 1 ==> Backoff(attempts) == 2 * Backoff(attempts - 1)
  {
    assert Pow2(1) == 2 && Pow2(2) == 4 && Pow2(3) == 8 && Pow2(4) == 16 && Pow2(5) == 32;
  }

  /** After more attempts than occur it would be the cap of one hour. */
  lemma {:induction false} BackoffCapped(attempts: nat)
    requires attempts > MAX_ATTEMPTS
    ensures Backoff(attempts) == 3_600_000
  {
    PowGrows(attempts);
  }

  lemma {:induction false} PowGrows(n: nat)
    requires n >= 6
    ensures Pow2(n) >= 64
  {
    if n == 6 {
      assert Pow2(1) == 2 && Pow2(2) == 4 && Pow2(3) == 8 && Pow2(4) == 16 && Pow2(5) == 32;
    } else {
      PowGrows(n - 1);
    }
  }

  predicate Claimable(m: Mail, now: nat) {
    (m.status == Queued || m.status == Failed) && m.sendAfter <= now && m.attempts < MAX_ATTEMPTS
  }

  /** `ORDER BY send_after ASC LIMIT batch` over the claimable rows; the order of the result is open. */
  ghost predicate IsClaim(rows: seq<Mail>, now: nat, batch: nat, ids: seq<nat>) {
    && NoDup(ids)
    && |ids| <= batch
    && (forall k :: 0 <= k < |ids| ==> ids[k] < |rows| && Claimable(rows[ids[k]], now))
    && (forall i :: 0 <= i < |rows| && Claimable(rows[i], now) && i !in ids ==>
          |ids| == batch && forall k :: 0 <= k < |ids| ==> rows[ids[k]].sendAfter <= rows[i].sendAfter)
  }

  function Claimed(m: Mail): Mail {
    m.(status := Sending, attempts := m.attempts + 1)
  }

  function MarkedSent(m: Mail, now: nat): Mail {
    m.(status := Sent, sentAt := Some(now), lastError := None, locals := m.locals - SENSITIVE_LOCAL_KEYS)
  }

  function MarkedFailed(m: Mail, retryable: bool, attempts: nat, message: string, now: nat): Mail {
    m.(status := if retryable && attempts < MAX_ATTEMPTS then Queued else Failed,
       sendAfter := now + Backoff(attempts), lastError := Some(message))
  }

  /** A claimed row once its outcome is recorded. */
  function Settled(m: Mail, out: Outcome, now: nat): Mail {
    match out
    case Delivered => MarkedSent(Claimed(m), now)
    case Refused(retryable, message) => MarkedFailed(Claimed(m), retryable, m.attempts + 1, message, now)
  }

  type Mailer = nat -> Outcome

  function Delivers(mailer: Mailer): nat -> bool {
    (id: nat) => mailer(id).Delivered?
  }

  /** The table after a worker transaction that claimed `ids`. */
  function AfterTick(rows: seq<Mail>, ids: seq<nat>, mailer: Mailer, now: nat): (r: seq<Mail>)
    ensures |r| == |rows|
  {
    seq(|rows|, i requires 0 <= i < |rows| => if i in ids then Settled(rows[i], mailer(i), now) else rows[i])
  }

  predicate HasKey(rows: seq<Mail>, key: string) {
    exists i :: 0 <= i < |rows| && rows[i].key == key
  }

  function Fresh(key: string, to: string, template: string, locale: string, locals: map<string, string>,
                 sendAfter: Option<nat>, subject: Option<string>, now: nat): Mail
  {
    Mail(key, to, template, locale,
         if subject.Some? && subject.value != "" then locals["__subject_override" := subject.value] else locals,
         Queued, 0, None, if sendAfter.Some? then sendAfter.value else now, None)
  }

  /** An added row is one that `enqueue` writes. */
  predicate IsFresh(m: Mail) {
    m.status == Queued && m.attempts == 0 && m.lastError.None? && m.sentAt.None?
  }

  /** The row holds what was enqueued, and may be claimed from the time asked for on, or else at once. */
  ghost predicate Queues(m: Mail, key: string, to: string, template: string, locale: string,
                         locals: map<string, string>, sendAfter: Option<nat>, subject: Option<string>, now: nat)
  {
    && m.key == key && m.to == to && m.template == template && m.locale == locale && IsFresh(m)
    && (subject.None? || subject.value == "" ==> m.locals == locals)
    && (subject.Some? && subject.value != "" ==>
          && m.locals.Keys == locals.Keys + {"__subject_override"}
          && m.locals["__subject_override"] == subject.value
          && forall k :: k in locals && k != "__subject_override" ==> m.locals[k] == locals[k])
    && forall t: nat :: Claimable(m, t) <==> t >= match sendAfter case Some(at) => at case None => now
  }

  class OutboxTable {
    var rows: seq<Mail>

    constructor ()
      ensures rows == []
    {
      rows := [];
    }

    /** `INSERT ... ON CONFLICT (idempotency_key) DO NOTHING RETURNING id` */
    method Enqueue(key: string, to: string, template: string, locale: string, locals: map<string, string>,
                   sendAfter: Option<nat>, subject: Option<string>, now: nat) returns (id: Option<nat>)
      modifies this
      ensures id.None? <==> HasKey(old(rows), key)
      ensures id.None? ==> rows == old(rows)
      ensures id.Some? ==> id.value == |old(rows)| && |rows| == id.value + 1 && rows[..id.value] == old(rows)
      ensures id.Some? ==> Queues(rows[id.value], key, to, template, locale, locals, sendAfter, subject, now)
    {
      for i := 0 to |rows|
        invariant forall j :: 0 <= j < i ==> rows[j].key != key
      {
        if rows[i].key == key {
          return None;
        }
      }
      id := Some(|rows|);
      rows := rows + [Fresh(key, to, template, locale, locals, sendAfter, subject, now)];
    }

    /** The subquery of `claim`. */
    method PickClaimable(now: nat, batch: nat) returns (ids: seq<nat>)
      ensures IsClaim(rows, now, batch, ids)
    {
      ids := [];
      var left := set i | 0 <= i < |rows| && Claimable(rows[i], now);
      while left != {} && |ids| < batch
        invariant NoDup(ids) && |ids| <= batch
        invariant forall k :: 0 <= k < |ids| ==> ids[k] < |rows| && Claimable(rows[ids[k]], now)
        invariant forall i :: i in left <==> 0 <= i < |rows| && Claimable(rows[i], now) && i !in ids
        invariant forall k, i :: 0 <= k < |ids| && i in left ==> rows[ids[k]].sendAfter <= rows[i].sendAfter
      {
        ghost var table := rows;
        ghost var oldest := LeastExists(left, (j: int) => if 0 <= j < |table| then table[j].sendAfter else 0);
        assert forall j :: j in left ==> rows[oldest].sendAfter <= rows[j].sendAfter;
        var i: nat :| i in left && forall j :: j in left ==> rows[i].sendAfter <= rows[j].sendAfter;
        ids := ids + [i];
        left := left - {i};
      }
    }

    method Claim(now: nat, batch: nat) returns (ids: seq<nat>)
      modifies this
      ensures IsClaim(old(rows), now, batch, ids)
      ensures |rows| == |old(rows)|
      ensures forall i :: 0 <= i < |rows| ==>
                var was := old(rows)[i];
                rows[i] == if i in ids then was.(status := Sending, attempts := was.attempts + 1) else was
    {
      ids := PickClaimable(now, batch);
      var before, claimed := rows, ids;
      rows := seq(|before|, i requires 0 <= i < |before| => if i in claimed then Claimed(before[i]) else before[i]);
    }

    method MarkSent(id: nat, now: nat)
      requires id < |rows|
      modifies this
      ensures rows == old(rows)[id := MarkedSent(old(rows)[id], now)]
    {
      rows := rows[id := MarkedSent(rows[id], now)];
    }

    method MarkFailed(id: nat, retryable: bool, attempts: nat, message: string, now: nat)
      requires id < |rows|
      modifies this
      ensures rows == old(rows)[id := MarkedFailed(old(rows)[id], retryable, attempts, message, now)]
    {
      rows := rows[id := MarkedFailed(rows[id], retryable, attempts, message, now)];
    }

    /** The body of the worker's loop for one row, `before` it was claimed. */
    method Settle(id: nat, ghost before: Mail, out: Outcome, now: nat) returns (ok: bool)
      requires id < |rows| && rows[id] == Claimed(before)
      modifies this
      ensures rows == old(rows)[id := Settled(before, out, now)] && (ok <==> out.Delivered?)
    {
      ok := out.Delivered?;
      match out
      case Delivered => MarkSent(id, now);
      case Refused(retryable, message) => MarkFailed(id, retryable, rows[id].attempts, message, now);
    }

    method TickOnce(now: nat, batch: nat, mailer: Mailer) returns (ids: seq<nat>, sent: nat, failed: nat)
      modifies this
      ensures IsClaim(old(rows), now, batch, ids)
      ensures rows == AfterTick(old(rows), ids, mailer, now)
      ensures sent == |Filter(ids, Delivers(mailer))| && sent + failed == |ids|
    {
      ids := Claim(now, batch);
      sent, failed := 0, 0;
      for k := 0 to |ids|
        invariant PartSettled(old(rows), rows, ids, k, mailer, now)
        invariant sent == |Filter(ids[..k], Delivers(mailer))| && sent + failed == k
      {
        var id := ids[k];
        SettlesNext(old(rows), rows, ids, k, mailer, now);
        DeliversNext(ids, k, mailer);
        var ok := Settle(id, old(rows)[id], mailer(id), now);
        if ok {
          sent := sent + 1;
        } else {
          failed := failed + 1;
        }
      }
      assert ids[..|ids|] == ids;
    }
  }

  /** The table of a worker transaction that has settled the first `k` of its claimed rows. */
  ghost predicate PartSettled(before: seq<Mail>, rows: seq<Mail>, ids: seq<nat>, k: nat, mailer: Mailer, now: nat) {
    && k <= |ids| && |rows| == |before|
    && forall i :: 0 <= i < |rows| ==>
         rows[i] == if i in ids[..k] then Settled(before[i], mailer(i), now)
                    else if i in ids then Claimed(before[i]) else before[i]
  }

  lemma SettlesNext(before: seq<Mail>, rows: seq<Mail>, ids: seq<nat>, k: nat, mailer: Mailer, now: nat)
    requires PartSettled(before, rows, ids, k, mailer, now) && k < |ids| && NoDup(ids) && ids[k] < |rows|
    ensures rows[ids[k]] == Claimed(before[ids[k]])
    ensures PartSettled(before, rows[ids[k] := Settled(before[ids[k]], mailer(ids[k]), now)], ids, k + 1, mailer, now)
  {
    assert ids[..k + 1] == ids[..k] + [ids[k]];
    assert ids[k] !in ids[..k];
  }

  lemma DeliversNext(ids: seq<nat>, k: nat, mailer: Mailer)
    requires k < |ids|
    ensures |Filter(ids[..k + 1], Delivers(mailer))| ==
            |Filter(ids[..k], Delivers(mailer))| + if mailer(ids[k]).Delivered? then 1 else 0
  {
    FilterSnoc(ids[..k], ids[k], Delivers(mailer));
    assert ids[..k + 1] == ids[..k] + [ids[k]];
  }

  // ----- Runs -----

  /** One claim of a row and what became of it. */
  datatype Try = Try(at: nat, outcome: Outcome)

  /** The table, and for every row the claims of it, in order. */
  datatype World = World(rows: seq<Mail>, tries: seq<seq<Try>>)

  datatype Step =
    | Add(mail: Mail)
    | Tick(now: nat, batch: nat, ids: seq<nat>, mailer: Mailer)

  const START: World := World([], [])

  function After(w: World, s: Step): World {
    match s
    case Add(m) => if HasKey(w.rows, m.key) then w else World(w.rows + [m], w.tries + [[]])
    case Tick(now, _, ids, mailer) =>
      World(AfterTick(w.rows, ids, mailer, now),
            seq(|w.tries|, i requires 0 <= i < |w.tries| =>
              if i in ids then w.tries[i] + [Try(now, mailer(i))] else w.tries[i]))
  }

  ghost predicate Enabled(w: World, s: Step) {
    match s
    case Add(m) => IsFresh(m)
    case Tick(now, batch, ids, _) => IsClaim(w.rows, now, batch, ids)
  }

  ghost predicate Run(trace: seq<World>, steps: seq<Step>) {
    && |trace| == |steps| + 1
    && trace[0] == START
    && forall i :: 0 <= i < |steps| ==> Enabled(trace[i], steps[i]) && trace[i + 1] == After(trace[i], steps[i])
  }

  predicate NoSecrets(m: Mail) {
    && "code" !in m.locals && "welcomeUrl" !in m.locals && "resetUrl" !in m.locals
    && "inviteUrl" !in m.locals && "verifyUrl" !in m.locals && "revertUrl" !in m.locals
  }

  /** What a row looks like after its n-th and so far last try. */
  predicate SettledBy(m: Mail, t: Try, n: nat) {
    match t.outcome
    case Delivered => m.status == Sent && m.sentAt == Some(t.at) && m.lastError.None? && NoSecrets(m)
    case Refused(retryable, message) =>
      && m.status == (if retryable && n < 5 then Queued else Failed)
      && m.sentAt.None? && m.lastError == Some(message)
      && m.sendAfter == t.at + Pow2(n) * 60_000
  }

  /** A row in terms of its tries: at most five, only the last delivered, the k-th 2^k minutes before the next. */
  ghost predicate RowInv(m: Mail, tries: seq<Try>) {
    && m.attempts == |tries| <= 5
    && (forall k :: 0 <= k < |tries| - 1 ==>
          tries[k].outcome.Refused? && tries[k + 1].at >= tries[k].at + Pow2(k + 1) * 60_000)
    && if tries == [] then IsFresh(m) else SettledBy(m, tries[|tries| - 1], |tries|)
  }

  ghost predicate Inv(w: World) {
    && |w.tries| == |w.rows|
    && (forall i :: 0 <= i < |w.rows| ==> RowInv(w.rows[i], w.tries[i]))
    && (forall i, j :: 0 <= i < j < |w.rows| ==> w.rows[i].key != w.rows[j].key)
  }

  lemma SettleKeepsRow(m: Mail, tries: seq<Try>, out: Outcome, now: nat)
    requires RowInv(m, tries) && Claimable(m, now)
    ensures RowInv(Settled(m, out, now), tries + [Try(now, out)])
  {
    BackoffBelowCap(|tries| + 1);
  }

  lemma StepKeepsInv(w: World, s: Step)
    requires Inv(w) && Enabled(w, s)
    ensures Inv(After(w, s))
  {
    match s
    case Add(m) =>
    case Tick(now, _, ids, mailer) =>
      var v := After(w, s);
      forall i | 0 <= i < |w.rows|
        ensures RowInv(v.rows[i], v.tries[i]) && v.rows[i].key == w.rows[i].key
      {
        assert RowInv(w.rows[i], w.tries[i]);
        if i in ids {
          var k :| 0 <= k < |ids| && ids[k] == i;
          SettleKeepsRow(w.rows[i], w.tries[i], mailer(i), now);
        }
      }
  }

  /**
   In every reachable state: a row was claimed `attempts <= 5` times, the k-th and (k+1)-th claims at
   least 2^k minutes apart; status, error, times and secrets are what its last try made of them, so no
   row is left `sending`; idempotency keys are unique.
   */
  lemma {:induction false} OutboxInvariant(trace: seq<World>, steps: seq<Step>, n: nat)
    requires Run(trace, steps) && n < |trace|
    ensures Inv(trace[n])
  {
    if n > 0 {
      OutboxInvariant(trace, steps, n - 1);
      assert trace[n - 1 + 1] == After(trace[n - 1], steps[n - 1]);
      StepKeepsInv(trace[n - 1], steps[n - 1]);
    }
  }

  /** The claims of row `i` among the first `n` steps. */
  function TriesOf(steps: seq<Step>, n: nat, i: nat): seq<Try>
    requires n <= |steps|
  {
    if n == 0 then []
    else
      var s := steps[n - 1];
      TriesOf(steps, n - 1, i) + if s.Tick? && i in s.ids then [Try(s.now, s.mailer(i))] else []
  }

  lemma {:induction false} TriesAreClaims(trace: seq<World>, steps: seq<Step>, n: nat, i: nat)
    requires Run(trace, steps) && n < |trace|
    ensures |trace[n].tries| == |trace[n].rows|
    ensures TriesOf(steps, n, i) == if i < |trace[n].rows| then trace[n].tries[i] else []
  {
    if n > 0 {
      TriesAreClaims(trace, steps, n - 1, i);
      var w, s := trace[n - 1], steps[n - 1];
      assert trace[n - 1 + 1] == After(w, s) && Enabled(w, s);
      assert s.Tick? ==> forall k :: 0 <= k < |s.ids| ==> s.ids[k] < |w.rows|;
    }
  }

  /** A tried row may be claimed again until it is sent or was tried five times, 2^n minutes after its n-th try. */
  lemma ClaimableIff(trace: seq<World>, steps: seq<Step>, n: nat, i: nat, t: nat)
    requires Run(trace, steps) && n < |trace| && i < |trace[n].rows|
    ensures var tries := TriesOf(steps, n, i);
            tries != [] ==>
              var last := tries[|tries| - 1];
              Claimable(trace[n].rows[i], t) <==>
                last.outcome.Refused? && |tries| < 5 && t >= last.at + Pow2(|tries|) * 60_000
  {
    OutboxInvariant(trace, steps, n);
    TriesAreClaims(trace, steps, n, i);
    assert RowInv(trace[n].rows[i], trace[n].tries[i]);
  }

  /** A row that no step claims is not changed. */
  lemma {:induction false} UnclaimedUnchanged(trace: seq<World>, steps: seq<Step>, n: nat, m: nat, i: nat)
    requires Run(trace, steps) && n <= m < |trace| && i < |trace[n].rows|
    requires forall k :: n <= k < m && steps[k].Tick? ==> i !in steps[k].ids
    ensures i < |trace[m].rows| && trace[m].rows[i] == trace[n].rows[i]
  {
    if n < m {
      UnclaimedUnchanged(trace, steps, n, m - 1, i);
      assert trace[m - 1 + 1] == After(trace[m - 1], steps[m - 1]);
    }
  }

  /** What `Enqueue` does is an enabled step of the runs. */
  lemma EnqueueIsAdd(w: World, m: Mail, key: string, to: string, template: string, locale: string,
                     locals: map<string, string>, sendAfter: Option<nat>, subject: Option<string>, now: nat)
    requires Queues(m, key, to, template, locale, locals, sendAfter, subject, now)
    ensures Enabled(w, Add(m))
    ensures After(w, Add(m)).rows ==
            if exists i :: 0 <= i < |w.rows| && w.rows[i].key == key then w.rows else w.rows + [m]
  {
  }

  /** And so is what `TickOnce` does. */
  lemma TickIsStep(w: World, now: nat, batch: nat, ids: seq<nat>, mailer: Mailer)
    requires IsClaim(w.rows, now, batch, ids)
    ensures Enabled(w, Tick(now, batch, ids, mailer))
    ensures After(w, Tick(now, batch, ids, mailer)).rows == AfterTick(w.rows, ids, mailer, now)
  {
  }

  /** A sent row is never claimed or changed again, and never disappears. */
  lemma {:induction false} SentIsFinal(trace: seq<World>, steps: seq<Step>, n: nat, m: nat, i: nat)
    requires Run(trace, steps) && n <= m < |trace|
    requires i < |trace[n].rows| && trace[n].rows[i].status == Sent
    ensures i < |trace[m].rows| && trace[m].rows[i] == trace[n].rows[i]
    ensures forall k :: n <= k < m && steps[k].Tick? ==> i !in steps[k].ids
    decreases m - n
  {
    if n < m {
      assert trace[n + 1] == After(trace[n], steps[n]);
      assert Enabled(trace[n], steps[n]);
      assert steps[n].Tick? ==> forall k :: 0 <= k < |steps[n].ids| ==> steps[n].ids[k] != i;
      SentIsFinal(trace, steps, n + 1, m, i);
    }
  }

  /** What a row says once it is sent (`sent`) or before, given what was enqueued. */
  predicate SameContent(m: Mail, now: Mail) {
    && now.key == m.key && now.to == m.to && now.template == m.template && now.locale == m.locale
    && now.locals == (if now.status == Sent && m.status != Sent then m.locals - SENSITIVE_LOCAL_KEYS else m.locals)
  }

  /** A row keeps key, address, template and locale for ever, and its locals but for the secrets dropped on delivery. */
  lemma {:induction false} ContentKept(trace: seq<World>, steps: seq<Step>, n: nat, m: nat, i: nat)
    requires Run(trace, steps) && n <= m < |trace| && i < |trace[n].rows|
    ensures i < |trace[m].rows| && SameContent(trace[n].rows[i], trace[m].rows[i])
    ensures trace[n].rows[i].status == Sent ==> trace[m].rows[i].status == Sent
    decreases m - n
  {
    if n < m {
      assert trace[n + 1] == After(trace[n], steps[n]) && Enabled(trace[n], steps[n]);
      ContentKept(trace, steps, n + 1, m, i);
      if steps[n].Tick? && i in steps[n].ids {
        var k :| 0 <= k < |steps[n].ids| && steps[n].ids[k] == i;
        assert Claimable(trace[n].rows[i], steps[n].now);
      }
    }
  }

  // ----- The claim budget -----

  /** Claims still possible: 5 - attempts over the rows not sent yet. */
  function Budget(rows: seq<Mail>): int {
    if rows == [] then 0
    else
      var m := rows[|rows| - 1];
      Budget(rows[..|rows| - 1]) + if m.status == Sent then 0 else MAX_ATTEMPTS - m.attempts
  }

  function Below(ids: seq<nat>, n: nat): set<nat> {
    set i | i in ids && i < n
  }

  /** A settled row has lost at least one unit of budget. */
  lemma SettleSpends(m: Mail, out: Outcome, now: nat)
    requires Claimable(m, now)
    ensures Budget([Settled(m, out, now)]) <= Budget([m]) - 1
  {
    var r := Settled(m, out, now);
    assert [m][..0] == [] && [r][..0] == [];
  }

  lemma BelowNext(ids: seq<nat>, n: nat)
    ensures |Below(ids, n + 1)| == |Below(ids, n)| + if n in ids then 1 else 0
  {
    if n in ids {
      assert Below(ids, n + 1) == Below(ids, n) + {n};
    } else {
      assert Below(ids, n + 1) == Below(ids, n);
    }
  }

  lemma BudgetNext(rows: seq<Mail>, n: nat)
    requires n < |rows|
    ensures Budget(rows[..n + 1]) == Budget(rows[..n]) + Budget([rows[n]])
  {
    assert rows[..n + 1][..n] == rows[..n];
    assert [rows[n]][..0] == [];
  }

  lemma {:induction false} TickSpends(rows: seq<Mail>, ids: seq<nat>, mailer: Mailer, now: nat, n: nat)
    requires n <= |rows|
    requires forall k :: 0 <= k < |ids| ==> ids[k] < |rows| && Claimable(rows[ids[k]], now)
    ensures Budget(AfterTick(rows, ids, mailer, now)[..n]) <= Budget(rows[..n]) - |Below(ids, n)|
  {
    var after := AfterTick(rows, ids, mailer, now);
    if n == 0 {
      assert Below(ids, 0) == {};
    } else {
      var i := n - 1;
      TickSpends(rows, ids, mailer, now, i);
      BudgetNext(rows, i);
      BudgetNext(after, i);
      BelowNext(ids, i);
      if i in ids {
        var k :| 0 <= k < |ids| && ids[k] == i;
        SettleSpends(rows[i], mailer(i), now);
      }
    }
  }

  /** Every claim uses up at least one unit of the budget. */
  lemma BudgetFalls(rows: seq<Mail>, now: nat, batch: nat, ids: seq<nat>, mailer: Mailer)
    requires IsClaim(rows, now, batch, ids)
    ensures Budget(AfterTick(rows, ids, mailer, now)) <= Budget(rows) - |ids|
  {
    TickSpends(rows, ids, mailer, now, |rows|);
    assert rows[..|rows|] == rows;
    assert AfterTick(rows, ids, mailer, now)[..|rows|] == AfterTick(rows, ids, mailer, now);
    NoDupSize(ids);
    assert Below(ids, |rows|) == Elements(ids);
  }

  /** Sends attempted by the first `n` steps. */
  function Sends(steps: seq<Step>, n: nat): nat
    requires n <= |steps|
  {
    if n == 0 then 0
    else Sends(steps, n - 1) + if steps[n - 1].Tick? then |steps[n - 1].ids| else 0
  }

  lemma {:induction false} BudgetNonNegative(rows: seq<Mail>)
    requires forall i :: 0 <= i < |rows| ==> rows[i].attempts <= MAX_ATTEMPTS
    ensures Budget(rows) >= 0
  {
    if rows != [] {
      BudgetNonNegative(rows[..|rows| - 1]);
    }
  }

  lemma {:induction false} SendsWithinBudget(trace: seq<World>, steps: seq<Step>, n: nat)
    requires Run(trace, steps) && n < |trace|
    ensures Sends(steps, n) + Budget(trace[n].rows) <= MAX_ATTEMPTS * |trace[n].rows|
  {
    if n > 0 {
      SendsWithinBudget(trace, steps, n - 1);
      var w, s := trace[n - 1], steps[n - 1];
      assert trace[n - 1 + 1] == After(w, s) && Enabled(w, s);
      match s
      case Add(m) =>
        assert (w.rows + [m])[..|w.rows|] == w.rows;
      case Tick(now, batch, ids, mailer) =>
        BudgetFalls(w.rows, now, batch, ids, mailer);
    }
  }

  /** Over any run the mailer is called at most five times per stored mail. */
  lemma SendsBounded(trace: seq<World>, steps: seq<Step>, n: nat)
    requires Run(trace, steps) && n < |trace|
    ensures Sends(steps, n) <= 5 * |trace[n].rows|
  {
    SendsWithinBudget(trace, steps, n);
    OutboxInvariant(trace, steps, n);
    forall i | 0 <= i < |trace[n].rows| ensures trace[n].rows[i].attempts <= MAX_ATTEMPTS {
      assert RowInv(trace[n].rows[i], trace[n].tries[i]);
    }
    BudgetNonNegative(trace[n].rows);
  }

  // ----- `retryable` -----

  /** The rows differ at most in being labelled queued or failed. */
  predicate SameButLabel(a: seq<Mail>, b: seq<Mail>) {
    |a| == |b| && forall i :: 0 <= i < |a| ==> AlikeButLabel(a[i], b[i])
  }

  predicate AlikeButLabel(a: Mail, b: Mail) {
    && a.(status := b.status) == b
    && (a.status == b.status || (a.status in {Queued, Failed} && b.status in {Queued, Failed}))
  }

  /** The same deliveries and messages, whatever the `retryable` flags say. */
  ghost predicate SameButFlag(f: Mailer, g: Mailer) {
    forall i :: f(i) == g(i) || (f(i).Refused? && g(i).Refused? && f(i).message == g(i).message)
  }

  /**
   `retryable` never decides whether a mail is tried again: tables that differ only in the
   queued/failed label offer the same claims and stay that way. A mail marked `failed` after a
   non-retryable error is therefore retried like any other until its fifth attempt.
   */
  lemma RetryableIsInert(a: seq<Mail>, b: seq<Mail>, now: nat, batch: nat, ids: seq<nat>, f: Mailer, g: Mailer)
    requires SameButLabel(a, b) && SameButFlag(f, g)
    ensures IsClaim(a, now, batch, ids) <==> IsClaim(b, now, batch, ids)
    ensures SameButLabel(AfterTick(a, ids, f, now), AfterTick(b, ids, g, now))
  {
    forall i | 0 <= i < |a|
      ensures Claimable(a[i], now) <==> Claimable(b[i], now)
      ensures a[i].sendAfter == b[i].sendAfter
    {
    }
    assert IsClaim(a, now, batch, ids) <==> IsClaim(b, now, batch, ids);
    forall i | 0 <= i < |a| && i in ids
      ensures AlikeButLabel(Settled(a[i], f(i), now), Settled(b[i], g(i), now))
    {
      assert f(i) == g(i) || (f(i).Refused? && g(i).Refused? && f(i).message == g(i).message);
    }
  }

  /** A first refusal that is not retryable still lets the row be claimed again two minutes later. */
  lemma PermanentFailureIsRetried(m: Mail, message: string, now: nat)
    requires IsFresh(m)
    ensures var r := Settled(m, Refused(false, message), now);
            r.status == Failed && (forall t: nat :: Claimable(r, t) <==> t >= now + 120_000)
  {
    BackoffBelowCap(1);
    assert Pow2(1) == 2;
  }
}
