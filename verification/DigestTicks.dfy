/** What a tick mails, counts and leaves waiting, said of the tables before it and of the steps of the run. */
module DigestTicks {
  import opened Seqs
  import opened Digest
  import opened DigestLog
  import opened DigestRuns

  /** Claim `k` ends in a mail: its recipient is active and had a pending row. */
  ghost predicate Mailed(pending: seq<Row>, claims: seq<Recipient>, active: set<Recipient>, k: nat) {
    && k < |claims|
    && claims[k] in active
    && exists row :: row in pending && row.line.recipient == claims[k]
  }

  /** The mails of one tick: one for each claim that `ks` lists, in claim order. */
  ghost predicate MailsOf(pending: seq<Row>, claims: seq<Recipient>, stamps: Stamps, active: set<Recipient>,
                          mails: seq<Mail>, ks: seq<nat>)
  {
    && |mails| == |ks|
    && (forall i, j :: 0 <= i < j < |ks| ==> ks[i] < ks[j])
    && (forall k: nat :: k in ks <==> Mailed(pending, claims, active, k))
    && (forall j :: 0 <= j < |mails| ==> MailAt(pending, claims, stamps, mails[j], ks[j]))
  }

  /** The mail of claim `k` holds the pending rows of its recipient, in order. */
  ghost predicate MailAt(pending: seq<Row>, claims: seq<Recipient>, stamps: Stamps, m: Mail, k: nat) {
    k < |claims| && m == Mail(claims[k], stamps(k), Filter(pending, RowOf(claims[k])))
  }

  lemma RowsNonEmpty(pending: seq<Row>, r: Recipient)
    ensures Filter(pending, RowOf(r)) != [] <==> exists row :: row in pending && row.line.recipient == r
  {
    if row :| row in pending && row.line.recipient == r {
      assert RowOf(r)(row);
    }
    if Filter(pending, RowOf(r)) != [] {
      assert Filter(pending, RowOf(r))[0] in Filter(pending, RowOf(r));
    }
  }

  lemma {:induction false} DrainKeepsOthers(pending: seq<Row>, r: Recipient, q: Recipient)
    requires q != r
    ensures Filter(Filter(pending, RowNotOf(r)), RowOf(q)) == Filter(pending, RowOf(q))
  {
    if pending != [] {
      var n := |pending| - 1;
      DrainKeepsOthers(pending[..n], r, q);
      FilterSnoc(Filter(pending[..n], RowNotOf(r)), pending[n], RowOf(q));
    }
  }

  lemma {:induction false} ServesKeepOthers(w: World, claims: seq<Recipient>, stamps: Stamps, active: set<Recipient>,
                                            q: Recipient)
    requires q !in claims
    ensures Filter(AfterServes(w, claims, stamps, active).tables.pending, RowOf(q)) ==
            Filter(w.tables.pending, RowOf(q))
  {
    if claims != [] {
      var n := |claims| - 1;
      ServesKeepOthers(w, claims[..n], stamps, active, q);
      DrainKeepsOthers(AfterServes(w, claims[..n], stamps, active).tables.pending, claims[n], q);
    }
  }

  lemma MailsSnoc(pending: seq<Row>, claims: seq<Recipient>, stamps: Stamps, active: set<Recipient>,
                  mails: seq<Mail>, ks: seq<nat>)
    requires claims != [] && MailsOf(pending, claims[..|claims| - 1], stamps, active, mails, ks)
    ensures var n := |claims| - 1;
            var items := Filter(pending, RowOf(claims[n]));
            if claims[n] in active && items != []
            then MailsOf(pending, claims, stamps, active, mails + [Mail(claims[n], stamps(n), items)], ks + [n])
            else MailsOf(pending, claims, stamps, active, mails, ks)
  {
    var n := |claims| - 1;
    RowsNonEmpty(pending, claims[n]);
    forall k: nat
      ensures Mailed(pending, claims, active, k) <==>
              Mailed(pending, claims[..n], active, k) || (k == n && Mailed(pending, claims, active, n))
    {
      assert k < n ==> claims[..n][k] == claims[k];
    }
    forall k: nat | k in ks ensures k < n {
      assert Mailed(pending, claims[..n], active, k);
    }
    forall j | 0 <= j < |mails| ensures MailAt(pending, claims, stamps, mails[j], ks[j]) {
      assert MailAt(pending, claims[..n], stamps, mails[j], ks[j]);
    }
  }

  /** A tick appends one mail for each active claim with rows, and for no other. */
  lemma {:induction false} TickMails(w: World, claims: seq<Recipient>, stamps: Stamps, active: set<Recipient>)
    returns (mails: seq<Mail>, ks: seq<nat>)
    requires NoDup(claims)
    ensures AfterServes(w, claims, stamps, active).sent == w.sent + mails
    ensures MailsOf(w.tables.pending, claims, stamps, active, mails, ks)
  {
    mails, ks := [], [];
    if claims != [] {
      var n := |claims| - 1;
      mails, ks := TickMails(w, claims[..n], stamps, active);
      ServesKeepOthers(w, claims[..n], stamps, active, claims[n]);
      MailsSnoc(w.tables.pending, claims, stamps, active, mails, ks);
      var items := Filter(w.tables.pending, RowOf(claims[n]));
      if claims[n] in active && items != [] {
        ConcatAssociative(w.sent, mails, [Mail(claims[n], stamps(n), items)]);
        mails, ks := mails + [Mail(claims[n], stamps(n), items)], ks + [n];
      }
    }
  }

  lemma {:induction false} ServesDrainAll(w: World, claims: seq<Recipient>, stamps: Stamps, active: set<Recipient>)
    ensures AfterServes(w, claims, stamps, active).tables == DrainedAll(w.tables, claims)
  {
    if claims != [] {
      ServesDrainAll(w, claims[..|claims| - 1], stamps, active);
    }
  }

  function RowIn(rs: set<Recipient>): Row -> bool {
    (row: Row) => row.line.recipient in rs
  }

  lemma {:induction false} CountsSplit(pending: seq<Row>, rs: set<Recipient>, r: Recipient)
    requires r !in rs
    ensures SumCounts(Filter(pending, RowIn(rs + {r}))) ==
            SumCounts(Filter(pending, RowIn(rs))) + SumCounts(Filter(pending, RowOf(r)))
  {
    if pending != [] {
      var n := |pending| - 1;
      CountsSplit(pending[..n], rs, r);
      SumCountsNext(Filter(pending[..n], RowIn(rs + {r})), pending[n]);
      SumCountsNext(Filter(pending[..n], RowIn(rs)), pending[n]);
      SumCountsNext(Filter(pending[..n], RowOf(r)), pending[n]);
    }
  }

  lemma SumCountsNext(rows: seq<Row>, row: Row)
    ensures SumCounts(rows + [row]) == SumCounts(rows) + CountOf(row.line)
  {
    assert (rows + [row])[..|rows|] == rows;
  }

  lemma {:induction false} NoneIn(pending: seq<Row>)
    ensures Filter(pending, RowIn({})) == []
  {
    if pending != [] {
      NoneIn(pending[..|pending| - 1]);
    }
  }

  /** The rows of active claims count as mailed, those of the other claims as dropped. */
  lemma {:induction false} TickCounts(w: World, claims: seq<Recipient>, stamps: Stamps, active: set<Recipient>)
    requires NoDup(claims)
    ensures var v := AfterServes(w, claims, stamps, active);
            && v.emailed == w.emailed + SumCounts(Filter(w.tables.pending, RowIn(Elements(claims) * active)))
            && v.dropped == w.dropped + SumCounts(Filter(w.tables.pending, RowIn(Elements(claims) - active)))
  {
    var pending := w.tables.pending;
    if claims == [] {
      NoneIn(pending);
      assert Elements(claims) * active == {} && Elements(claims) - active == {};
    } else {
      var n := |claims| - 1;
      var r := claims[n];
      TickCounts(w, claims[..n], stamps, active);
      ServesKeepOthers(w, claims[..n], stamps, active, r);
      ElementsSnoc(claims);
      var taken := Elements(claims[..n]);
      assert r !in taken;
      if r in active {
        assert Elements(claims) * active == taken * active + {r} && Elements(claims) - active == taken - active;
        CountsSplit(pending, taken * active, r);
      } else {
        assert Elements(claims) * active == taken * active && Elements(claims) - active == taken - active + {r};
        CountsSplit(pending, taken - active, r);
      }
    }
  }

  // ----- Whole runs -----

  /** Step `i` is a tick whose claim `k` ends in the mail `m`, from the rows at hand before the step. */
  ghost predicate MailOfStep(cfg: Config, w: World, steps: seq<Step>, i: nat, k: nat, m: Mail) {
    && i < |steps| && steps[i].Tick?
    && var pending := Run(cfg, w, steps[..i]).tables.pending;
       Mailed(pending, steps[i].claims, steps[i].active, k) && MailAt(pending, steps[i].claims, steps[i].stamps, m, k)
  }

  ghost predicate MailOfRun(cfg: Config, w: World, steps: seq<Step>, m: Mail) {
    exists i: nat, k: nat :: MailOfStep(cfg, w, steps, i, k, m)
  }

  ghost predicate MailOfTick(w: World, s: Step, m: Mail) {
    s.Tick? && exists k: nat :: Mailed(w.tables.pending, s.claims, s.active, k)
                           && MailAt(w.tables.pending, s.claims, s.stamps, m, k)
  }

  lemma StepMails(cfg: Config, w: World, s: Step, m: Mail)
    requires Enabled(w, s)
    ensures m in After(cfg, w, s).sent <==>
            m in w.sent || MailOfTick(w, s, m)
  {
    if s.Tick? {
      var mails, ks := TickMails(w, s.claims, s.stamps, s.active);
      if k: nat :| Mailed(w.tables.pending, s.claims, s.active, k)
                   && MailAt(w.tables.pending, s.claims, s.stamps, m, k) {
        var j :| 0 <= j < |ks| && ks[j] == k;
        assert MailAt(w.tables.pending, s.claims, s.stamps, mails[j], ks[j]);
        assert mails[j] in mails;
      }
      if j :| 0 <= j < |mails| && mails[j] == m {
        assert ks[j] in ks;
        assert MailAt(w.tables.pending, s.claims, s.stamps, mails[j], ks[j]);
      }
    }
  }

  lemma RunNext(cfg: Config, w: World, steps: seq<Step>, i: nat)
    requires i < |steps|
    ensures Run(cfg, w, steps[..i + 1]) == Run(cfg, After(cfg, w, steps[0]), steps[1..][..i])
  {
    assert steps[..i + 1][1..] == steps[1..][..i];
  }

  lemma MailOfNext(cfg: Config, w: World, steps: seq<Step>, i: nat, k: nat, m: Mail)
    requires steps != []
    ensures MailOfStep(cfg, w, steps, i + 1, k, m) <==>
            MailOfStep(cfg, After(cfg, w, steps[0]), steps[1..], i, k, m)
  {
    if i + 1 < |steps| {
      RunNext(cfg, w, steps, i);
    }
  }

  lemma MailOfFirst(cfg: Config, w: World, steps: seq<Step>, k: nat, m: Mail)
    requires steps != []
    ensures MailOfStep(cfg, w, steps, 0, k, m) <==>
            steps[0].Tick? && Mailed(w.tables.pending, steps[0].claims, steps[0].active, k)
            && MailAt(w.tables.pending, steps[0].claims, steps[0].stamps, m, k)
  {
    assert steps[..0] == [];
  }

  lemma FirstOrLater(cfg: Config, w: World, steps: seq<Step>, i: nat, k: nat, m: Mail)
    requires MailOfStep(cfg, w, steps, i, k, m)
    ensures MailOfTick(w, steps[0], m) || MailOfRun(cfg, After(cfg, w, steps[0]), steps[1..], m)
  {
    if i == 0 {
      MailOfFirst(cfg, w, steps, k, m);
    } else {
      MailOfNext(cfg, w, steps, i - 1, k, m);
    }
  }

  /** A mail of a run is one of its first step or of the others. */
  lemma MailOfEither(cfg: Config, w: World, steps: seq<Step>, m: Mail)
    requires steps != []
    ensures MailOfRun(cfg, w, steps, m) <==>
            MailOfTick(w, steps[0], m) || MailOfRun(cfg, After(cfg, w, steps[0]), steps[1..], m)
  {
    if i: nat, k: nat :| MailOfStep(cfg, w, steps, i, k, m) {
      FirstOrLater(cfg, w, steps, i, k, m);
    }
    if i: nat, k: nat :| MailOfStep(cfg, After(cfg, w, steps[0]), steps[1..], i, k, m) {
      MailOfNext(cfg, w, steps, i, k, m);
    }
    if MailOfTick(w, steps[0], m) {
      var k: nat :| Mailed(w.tables.pending, steps[0].claims, steps[0].active, k)
               && MailAt(w.tables.pending, steps[0].claims, steps[0].stamps, m, k);
      MailOfFirst(cfg, w, steps, k, m);
    }
  }

  /** The digests of a run are exactly those of active claims with rows, with the rows they had at their tick. */
  lemma {:induction false} SentExactly(cfg: Config, w: World, steps: seq<Step>, m: Mail)
    requires Legal(cfg, w, steps)
    ensures m in Run(cfg, w, steps).sent <==> m in w.sent || MailOfRun(cfg, w, steps, m)
    decreases |steps|
  {
    if steps != [] {
      SentExactly(cfg, After(cfg, w, steps[0]), steps[1..], m);
      StepMails(cfg, w, steps[0], m);
      MailOfEither(cfg, w, steps, m);
    }
  }

  // ----- What is waiting -----

  /** The events recorded for `r` since the last tick that claimed it. */
  function Waiting(steps: seq<Step>, r: Recipient): Log {
    if steps == [] then []
    else
      var n := |steps| - 1;
      match steps[n]
      case Record(e, now) => Waiting(steps[..n], r) + (if e.recipient == r then [Event(e, now)] else [])
      case Tick(_, _, _, claims, _) => if r in claims then [] else Waiting(steps[..n], r)
  }

  lemma RunFirst(cfg: Config, w: World, s: Step, rest: seq<Step>)
    ensures Run(cfg, w, [s] + rest) == Run(cfg, After(cfg, w, s), rest)
  {
    assert ([s] + rest)[1..] == rest;
  }

  lemma {:induction false} RunAppend(cfg: Config, w: World, steps: seq<Step>, s: Step)
    ensures Run(cfg, w, steps + [s]) == After(cfg, Run(cfg, w, steps), s)
    decreases |steps|
  {
    if steps == [] {
      RunFirst(cfg, w, s, []);
      assert [] + [s] == [s] + [];
    } else {
      RunAppend(cfg, After(cfg, w, steps[0]), steps[1..], s);
      RunFirst(cfg, w, steps[0], steps[1..] + [s]);
      ConcatAssociative([steps[0]], steps[1..], [s]);
      assert steps == [steps[0]] + steps[1..];
    }
  }

  lemma RunSnoc(cfg: Config, w: World, steps: seq<Step>)
    requires steps != []
    ensures Run(cfg, w, steps) == After(cfg, Run(cfg, w, steps[..|steps| - 1]), steps[|steps| - 1])
  {
    LastApart(steps);
    RunAppend(cfg, w, steps[..|steps| - 1], steps[|steps| - 1]);
  }

  lemma LastApart(steps: seq<Step>)
    requires steps != []
    ensures steps == steps[..|steps| - 1] + [steps[|steps| - 1]]
  {
  }

  /** The last time that a step reads. */
  function LastTime(s: Step): nat {
    match s
    case Record(_, now) => now
    case Tick(now, stamps, _, claims, _) => if claims == [] then now else stamps(|claims| - 1)
  }

  /** The clock of a run is the last time that its last step read. */
  lemma ClockIsLast(cfg: Config, steps: seq<Step>)
    ensures Run(cfg, START, steps).clock ==
            if steps == [] then 0 else LastTime(steps[|steps| - 1])
  {
    if steps != [] {
      RunSnoc(cfg, START, steps);
    }
  }

  lemma {:induction false} ServesDrain(w: World, claims: seq<Recipient>, stamps: Stamps, active: set<Recipient>,
                                       r: Recipient)
    ensures EventsOf(AfterServes(w, claims, stamps, active).log, r) ==
            if r in claims then [] else EventsOf(w.log, r)
  {
    if claims != [] {
      var n := |claims| - 1;
      ServesDrain(w, claims[..n], stamps, active, r);
      var u := AfterServes(w, claims[..n], stamps, active);
      ServeDrains(u, claims[n], stamps(n), active, r);
      InSnoc(claims, r);
    }
  }

  lemma InSnoc(claims: seq<Recipient>, r: Recipient)
    requires claims != []
    ensures r in claims <==> r in claims[..|claims| - 1] || r == claims[|claims| - 1]
  {
  }

  lemma ServeDrains(w: World, q: Recipient, stamp: nat, active: set<Recipient>, r: Recipient)
    ensures EventsOf(AfterServe(w, q, stamp, active).log, r) == if r == q then [] else EventsOf(w.log, r)
  {
    EventsOfDrained(w.log, q, r);
  }

  /** The un-drained events of a recipient are those recorded since it was last claimed. */
  lemma {:induction false} UndrainedIsWaiting(cfg: Config, steps: seq<Step>, r: Recipient)
    ensures EventsOf(Run(cfg, START, steps).log, r) == Waiting(steps, r)
  {
    if steps != [] {
      var n := |steps| - 1;
      UndrainedIsWaiting(cfg, steps[..n], r);
      RunSnoc(cfg, START, steps);
      var w := Run(cfg, START, steps[..n]);
      match steps[n] {
        case Record(e, now) => FilterSnoc(w.log, Event(e, now), OfRecipient(r));
        case Tick(_, stamps, _, claims, active) => ServesDrain(w, claims, stamps, active, r);
      }
    }
  }
}
