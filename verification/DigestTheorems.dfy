/** What holds of every run of the digest pipeline. */
module DigestTheorems {
  import opened Wrappers
  import opened Numbers
  import opened Seqs
  import opened Digest
  import opened DigestLog
  import opened DigestRuns

  ghost predicate Reachable(cfg: Config, w: World) {
    exists steps :: Legal(cfg, START, steps) && Run(cfg, START, steps) == w
  }

  lemma ReachableInv(cfg: Config, w: World)
    requires Reachable(cfg, w)
    ensures Inv(cfg, w)
  {
    var steps :| Legal(cfg, START, steps) && Run(cfg, START, steps) == w;
    StartInv(cfg);
    RunKeepsInv(cfg, START, steps);
  }

  // ----- The pending table is the grouped log -----

  /** One row per head, in order; each row is the fold of its group and counts it. */
  lemma PendingIsGroupedLog(cfg: Config, w: World)
    requires Reachable(cfg, w)
    ensures |w.tables.pending| == |Heads(w.log)|
    ensures forall i :: 0 <= i < |Heads(w.log)| ==>
              && Heads(w.log)[i] in w.log && Members(w.log, Heads(w.log)[i]) != []
              && w.tables.pending[i].line == LineOf(cfg.titleFor, Members(w.log, Heads(w.log)[i]))
              && CountOf(w.tables.pending[i].line) ==
                 |Members(w.log, Heads(w.log)[i])| - 1 + StartCount(Members(w.log, Heads(w.log)[i])[0].item)
  {
    ReachableInv(cfg, w);
    forall i | 0 <= i < |Heads(w.log)|
      ensures Heads(w.log)[i] in w.log && Members(w.log, Heads(w.log)[i]) != []
      ensures w.tables.pending[i].line == LineOf(cfg.titleFor, Members(w.log, Heads(w.log)[i]))
      ensures CountOf(w.tables.pending[i].line) ==
                |Members(w.log, Heads(w.log)[i])| - 1 + StartCount(Members(w.log, Heads(w.log)[i])[0].item)
    {
      var h := Heads(w.log)[i];
      ViewAt(cfg.titleFor, w.log, i);
      MembersNonEmpty(w.log, h);
      LineCount(cfg.titleFor, Members(w.log, h));
    }
  }

  /** A coalescing event is no member of two groups. */
  lemma NotInTwo(log: Log, e: Event, i: nat, j: nat)
    requires i < j < |Heads(log)| && Coalesces(e.item.eventType)
    ensures !(e in Members(log, Heads(log)[i]) && e in Members(log, Heads(log)[j]))
  {
    HeadsApart(log);
    var a, b := Heads(log)[i], Heads(log)[j];
    assert EventsApart(a, b);
    assert a in log && b in log;
    if e in Members(log, a) && e in Members(log, b) {
      MembersNonEmpty(log, a);
      MembersNonEmpty(log, b);
      SameKeySameType(a, e);
      SameKeySameType(b, e);
    }
  }

  /** Every un-drained event is reported by exactly one pending row when it coalesces. */
  lemma EveryEventReported(cfg: Config, w: World, e: Event)
    requires Reachable(cfg, w) && e in w.log
    ensures exists i :: 0 <= i < |Heads(w.log)| && e in Members(w.log, Heads(w.log)[i])
    ensures Coalesces(e.item.eventType) ==>
              forall i, j :: 0 <= i < j < |Heads(w.log)| ==>
                !(e in Members(w.log, Heads(w.log)[i]) && e in Members(w.log, Heads(w.log)[j]))
  {
    if Coalesces(e.item.eventType) {
      var i := KeyHead(w.log, e);
      var h := Heads(w.log)[i];
      SameKeySameType(h, e);
      assert Sharing(ItemKey(h.item))(e);
      assert e in Members(w.log, h);
      forall i, j | 0 <= i < j < |Heads(w.log)|
        ensures !(e in Members(w.log, Heads(w.log)[i]) && e in Members(w.log, Heads(w.log)[j]))
      {
        NotInTwo(w.log, e, i, j);
      }
    } else {
      PlainIsHead(w.log, e);
      var i :| 0 <= i < |Heads(w.log)| && Heads(w.log)[i] == e;
      assert e in Members(w.log, Heads(w.log)[i]);
    }
  }

  lemma {:induction false} PlainIsHead(log: Log, e: Event)
    requires e in log && !Coalesces(e.item.eventType)
    ensures e in Heads(log)
  {
    var n := |log| - 1;
    if e in log[..n] {
      PlainIsHead(log[..n], e);
    }
  }

  // ----- The debounce timer -----

  lemma RowOfHead(cfg: Config, w: World, i: nat)
    requires Follows(cfg, w) && i < |w.tables.pending|
    ensures Heads(w.log)[i] in w.log
    ensures w.tables.pending[i].line.recipient == Heads(w.log)[i].item.recipient
  {
    ViewAt(cfg.titleFor, w.log, i);
    LineForKey(cfg.titleFor, w.log, Heads(w.log)[i]);
  }

  lemma EventHasHead(log: Log, e: Event) returns (i: nat)
    requires e in log
    ensures i < |Heads(log)| && Heads(log)[i].item.recipient == e.item.recipient
  {
    if Coalesces(e.item.eventType) {
      i := KeyHead(log, e);
      SameKeySameType(Heads(log)[i], e);
    } else {
      PlainIsHead(log, e);
      i :| 0 <= i < |Heads(log)| && Heads(log)[i] == e;
    }
  }

  lemma HasRowsIffHasEvents(cfg: Config, w: World, r: Recipient)
    requires Follows(cfg, w)
    ensures (exists row :: row in w.tables.pending && row.line.recipient == r) <==> EventsOf(w.log, r) != []
  {
    if row :| row in w.tables.pending && row.line.recipient == r {
      var i :| 0 <= i < |w.tables.pending| && w.tables.pending[i] == row;
      RowOfHead(cfg, w, i);
      assert OfRecipient(r)(Heads(w.log)[i]);
    }
    if EventsOf(w.log, r) != [] {
      var e := EventsOf(w.log, r)[0];
      assert e in EventsOf(w.log, r);
      assert OfRecipient(r)(e);
      var i := EventHasHead(w.log, e);
      RowOfHead(cfg, w, i);
      assert w.tables.pending[i] in w.tables.pending;
    }
  }

  /** Since the last drain: due = min(last + window, first + cap), oldest = first; scheduled iff pending. */
  lemma DebounceClosedForm(cfg: Config, w: World, r: Recipient)
    requires Reachable(cfg, w)
    ensures r in w.tables.schedules <==> exists row :: row in w.tables.pending && row.line.recipient == r
    ensures r in w.tables.schedules <==> EventsOf(w.log, r) != []
    ensures r in w.tables.schedules ==>
              var es, s := EventsOf(w.log, r), w.tables.schedules[r];
              && s.oldest == es[0].at
              && (s.due == Min(es[|es| - 1].at + cfg.window, es[0].at + cfg.cap)
                  <==> cfg.window <= cfg.cap || |es| > 1)
              && (|es| == 1 ==> s.due == es[0].at + cfg.window)
  {
    ReachableTimed(cfg, w, r);
    HasRowsIffHasEvents(cfg, w, r);
    TimedInClosedForm(cfg, w.tables.schedules, EventsOf(w.log, r), r);
  }

  lemma TimedInClosedForm(cfg: Config, schedules: map<Recipient, Schedule>, es: Log, r: Recipient)
    requires TimedFor(cfg, schedules, es, r)
    ensures r in schedules <==> es != []
    ensures r in schedules ==>
              var s := schedules[r];
              && s.oldest == es[0].at
              && (s.due == Min(es[|es| - 1].at + cfg.window, es[0].at + cfg.cap)
                  <==> cfg.window <= cfg.cap || |es| > 1)
              && (|es| == 1 ==> s.due == es[0].at + cfg.window)
  {
    if r in schedules {
      TimerIsMin(cfg, es);
    }
  }

  lemma TimerIsMin(cfg: Config, es: Log)
    requires es != []
    ensures Timer(cfg, es).oldest == es[0].at
    ensures Timer(cfg, es).due == Min(es[|es| - 1].at + cfg.window, es[0].at + cfg.cap)
            <==> cfg.window <= cfg.cap || |es| > 1
    ensures |es| == 1 ==> Timer(cfg, es).due == es[0].at + cfg.window
  {
  }

  lemma ReachableTimed(cfg: Config, w: World, r: Recipient)
    requires Reachable(cfg, w)
    ensures TimedFor(cfg, w.tables.schedules, EventsOf(w.log, r), r) && Follows(cfg, w)
  {
    ReachableInv(cfg, w);
  }

  /** No digest leaves before the recipient was idle for the window or the cap ran out; none is empty. */
  lemma NeverEarly(cfg: Config, w: World, s: Step, r: Recipient)
    requires Reachable(cfg, w) && Enabled(w, s) && s.Tick? && r in s.claims
    requires cfg.window <= cfg.cap
    ensures EventsOf(w.log, r) != [] && exists row :: row in w.tables.pending && row.line.recipient == r
    ensures var es := EventsOf(w.log, r);
            s.now >= es[|es| - 1].at + cfg.window || s.now >= es[0].at + cfg.cap
  {
    DebounceClosedForm(cfg, w, r);
    var i :| 0 <= i < |s.claims| && s.claims[i] == r;
    assert DueAt(w.tables.schedules, s.claims[i], s.now);
  }

  // ----- Conservation -----

  lemma {:induction false} NoSurplus(cfg: Config, w: World, steps: seq<Step>)
    requires Legal(cfg, w, steps)
    requires forall i :: 0 <= i < |steps| && steps[i].Record? ==> CountsOnce(steps[i].item)
    ensures Run(cfg, w, steps).surplus == w.surplus
    decreases |steps|
  {
    if steps != [] {
      var s := steps[0];
      if s.Tick? {
        ServesKeepHistory(w, s.claims, s.stamps, s.active);
      }
      NoSurplus(cfg, After(cfg, w, s), steps[1..]);
    }
  }

  lemma {:induction false} ServesKeepHistory(w: World, claims: seq<Recipient>, stamps: Stamps, active: set<Recipient>)
    ensures AfterServes(w, claims, stamps, active).surplus == w.surplus
    ensures AfterServes(w, claims, stamps, active).recorded == w.recorded
  {
    if claims != [] {
      ServesKeepHistory(w, claims[..|claims| - 1], stamps, active);
    }
  }

  lemma {:induction false} RecordedCountsRecords(cfg: Config, w: World, steps: seq<Step>)
    ensures Run(cfg, w, steps).recorded == w.recorded + CountOfSteps(steps, IsRecord())
    decreases |steps|
  {
    if steps != [] {
      var s := steps[0];
      if s.Tick? {
        ServesKeepHistory(w, s.claims, s.stamps, s.active);
      }
      RecordedCountsRecords(cfg, After(cfg, w, s), steps[1..]);
    }
  }

  function IsRecord(): Step -> bool {
    (s: Step) => s.Record?
  }

  function CountOfSteps<S>(steps: seq<S>, p: S -> bool): nat {
    if steps == [] then 0 else (if p(steps[0]) then 1 else 0) + CountOfSteps(steps[1..], p)
  }

  /** Nothing is lost or counted twice: events recorded = pending + emailed + dropped, shifted by the surplus. */
  lemma EventsConserved(cfg: Config, steps: seq<Step>)
    requires Legal(cfg, START, steps)
    ensures var w := Run(cfg, START, steps);
            && CountOfSteps(steps, IsRecord()) + w.surplus == SumCounts(w.tables.pending) + w.emailed + w.dropped
            && ((forall i :: 0 <= i < |steps| && steps[i].Record? ==> CountsOnce(steps[i].item)) ==>
                  CountOfSteps(steps, IsRecord()) == SumCounts(w.tables.pending) + w.emailed + w.dropped)
  {
    StartInv(cfg);
    RunKeepsInv(cfg, START, steps);
    RecordedCountsRecords(cfg, START, steps);
    if forall i :: 0 <= i < |steps| && steps[i].Record? ==> CountsOnce(steps[i].item) {
      NoSurplus(cfg, START, steps);
    }
  }

  /** An event whose metadata carries `count: 5` is counted five times. */
  lemma OwnCountBreaksConservation(titleFor: TitleFor)
    ensures var cfg := Config(10, 60, titleFor);
            var e := Item(Recipient(Admin, 0), None, Fyi, DocumentUploaded, "t", None, None,
                          Metadata(Some(5), None, None, map[]), None, None);
            var w := Run(cfg, START, [Record(e, 0)]);
            Legal(cfg, START, [Record(e, 0)]) && w.recorded == 1 && SumCounts(w.tables.pending) == 5
  {
    var cfg := Config(10, 60, titleFor);
    var e := Item(Recipient(Admin, 0), None, Fyi, DocumentUploaded, "t", None, None,
                  Metadata(Some(5), None, None, map[]), None, None);
    assert [Record(e, 0)][1..] == [];
    var w := After(cfg, START, Record(e, 0));
    assert Run(cfg, START, [Record(e, 0)]) == w;
    assert w.tables.pending == [Row(0, FreshLine(e, 0))];
    assert [Row(0, FreshLine(e, 0))][..0] == [];
  }

  // ----- Idempotency keys of the mails -----

  /** Keys are unique, and every live timer started after, and ends after, the recipient's past mails. */
  ghost predicate KeysFresh(sent: seq<Mail>, schedules: map<Recipient, Schedule>, clock: nat) {
    && (forall m :: m in sent ==> m.at <= clock)
    && (forall m :: m in sent && m.to in schedules ==> m.at <= schedules[m.to].oldest && m.at < schedules[m.to].due)
    && (forall i, j :: 0 <= i < j < |sent| && sent[i].to == sent[j].to ==> sent[i].at < sent[j].at)
  }

  lemma RecordKeepsKeys(cfg: Config, sent: seq<Mail>, schedules: map<Recipient, Schedule>, clock: nat,
                        r: Recipient, now: nat)
    requires cfg.window > 0 && cfg.cap > 0 && clock <= now
    requires KeysFresh(sent, schedules, clock)
    ensures KeysFresh(sent, Upsert(cfg, schedules, r, now), now)
  {
  }

  lemma ServeKeepsKeys(sent: seq<Mail>, schedules: map<Recipient, Schedule>, clock: nat, r: Recipient, mail: Mail)
    requires KeysFresh(sent, schedules, clock) && mail.to == r && clock <= mail.at
    requires r in schedules && schedules[r].due <= mail.at
    ensures KeysFresh(sent, schedules - {r}, mail.at)
    ensures KeysFresh(sent + [mail], schedules - {r}, mail.at)
  {
  }

  lemma AscendingNext(now: nat, stamps: Stamps, claims: seq<Recipient>, n: nat)
    requires Ascending(now, stamps, |claims|) && n < |claims|
    ensures TickEnd(now, stamps, claims[..n]) <= stamps(n)
  {
    assert (if n == 0 then now else stamps(n - 1)) <= stamps(n);
  }

  lemma {:induction false} ServesKeepKeys(w: World, now: nat, claims: seq<Recipient>, stamps: Stamps,
                                          active: set<Recipient>)
    requires KeysFresh(w.sent, w.tables.schedules, now) && NoDup(claims)
    requires Ascending(now, stamps, |claims|)
    requires forall i :: 0 <= i < |claims| ==> DueAt(w.tables.schedules, claims[i], now)
    ensures var v := AfterServes(w, claims, stamps, active);
            KeysFresh(v.sent, v.tables.schedules, TickEnd(now, stamps, claims))
    ensures now <= TickEnd(now, stamps, claims)
  {
    if claims != [] {
      var n := |claims| - 1;
      ServesKeepKeys(w, now, claims[..n], stamps, active);
      ServesSchedules(w, claims[..n], stamps, active);
      var u := AfterServes(w, claims[..n], stamps, active);
      assert DueAt(w.tables.schedules, claims[n], now);
      assert claims[n] !in claims[..n];
      AscendingNext(now, stamps, claims, n);
      NextServeKeepsKeys(u, TickEnd(now, stamps, claims[..n]), claims[n], stamps(n), active);
    }
  }

  lemma NextServeKeepsKeys(w: World, clock: nat, r: Recipient, stamp: nat, active: set<Recipient>)
    requires KeysFresh(w.sent, w.tables.schedules, clock) && clock <= stamp
    requires r in w.tables.schedules && w.tables.schedules[r].due <= stamp
    ensures var v := AfterServe(w, r, stamp, active);
            KeysFresh(v.sent, v.tables.schedules, stamp)
  {
    var items := Filter(w.tables.pending, RowOf(r));
    ServeKeepsKeys(w.sent, w.tables.schedules, clock, r, Mail(r, stamp, items));
  }

  lemma TickKeepsKeys(w: World, now: nat, claims: seq<Recipient>, stamps: Stamps, active: set<Recipient>)
    requires KeysFresh(w.sent, w.tables.schedules, w.clock) && w.clock <= now && NoDup(claims)
    requires Ascending(now, stamps, |claims|)
    requires forall i :: 0 <= i < |claims| ==> DueAt(w.tables.schedules, claims[i], now)
    ensures var v := AfterServes(w, claims, stamps, active);
            KeysFresh(v.sent, v.tables.schedules, TickEnd(now, stamps, claims))
  {
    ServesKeepKeys(w, now, claims, stamps, active);
  }

  lemma StepKeepsKeys(cfg: Config, w: World, s: Step)
    requires cfg.window > 0 && cfg.cap > 0
    requires KeysFresh(w.sent, w.tables.schedules, w.clock) && Enabled(w, s) && OnTime(w, s)
    ensures var v := After(cfg, w, s);
            KeysFresh(v.sent, v.tables.schedules, v.clock)
  {
    match s
    case Record(e, now) => RecordKeepsKeys(cfg, w.sent, w.tables.schedules, w.clock, e.recipient, now);
    case Tick(now, stamps, _, claims, active) => TickKeepsKeys(w, now, claims, stamps, active);
  }

  lemma {:induction false} RunKeepsKeys(cfg: Config, w: World, steps: seq<Step>)
    requires cfg.window > 0 && cfg.cap > 0 && Legal(cfg, w, steps) && Timely(cfg, w, steps)
    requires KeysFresh(w.sent, w.tables.schedules, w.clock)
    ensures var v := Run(cfg, w, steps);
            KeysFresh(v.sent, v.tables.schedules, v.clock)
    decreases |steps|
  {
    if steps != [] {
      StepKeepsKeys(cfg, w, steps[0]);
      RunKeepsKeys(cfg, After(cfg, w, steps[0]), steps[1..]);
    }
  }

  /** `digest:<recipient>:<time>` is never reused, so `ON CONFLICT DO NOTHING` swallows no digest. */
  lemma MailKeysDistinct(cfg: Config, steps: seq<Step>)
    requires cfg.window > 0 && cfg.cap > 0 && Legal(cfg, START, steps) && Timely(cfg, START, steps)
    ensures var sent := Run(cfg, START, steps).sent;
            forall i, j :: 0 <= i < j < |sent| ==> (sent[i].to, sent[i].at) != (sent[j].to, sent[j].at)
  {
    RunKeepsKeys(cfg, START, steps);
  }

  // ----- No recipient starves -----

  /** The recipients whose timer falls due by `deadline`. */
  function DueBy(schedules: map<Recipient, Schedule>, deadline: nat): set<Recipient> {
    set r | r in schedules && schedules[r].due <= deadline
  }

  /** No timer of a live schedule ever passes its cap. */
  ghost predicate Capped(cfg: Config, schedules: map<Recipient, Schedule>) {
    forall r :: r in schedules ==> schedules[r].due <= schedules[r].oldest + cfg.cap
  }

  /** Once the deadline is reached, events never put a further recipient ahead of it. */
  lemma RecordAddsNoRival(cfg: Config, schedules: map<Recipient, Schedule>, q: Recipient, now: nat, deadline: nat)
    requires 0 < cfg.window <= cfg.cap && Capped(cfg, schedules) && deadline <= now
    ensures Capped(cfg, Upsert(cfg, schedules, q, now))
    ensures DueBy(Upsert(cfg, schedules, q, now), deadline) <= DueBy(schedules, deadline)
    ensures forall r :: r in schedules ==>
              r in Upsert(cfg, schedules, q, now) && Upsert(cfg, schedules, q, now)[r].oldest == schedules[r].oldest
  {
  }

  /** A tick at or past the deadline that leaves `r` unclaimed takes a full batch from its rivals. */
  lemma TickTakesFullBatch(schedules: map<Recipient, Schedule>, now: nat, batch: nat, claims: seq<Recipient>,
                           r: Recipient, deadline: nat)
    requires IsClaim(schedules, now, batch, claims) && deadline <= now
    requires r in DueBy(schedules, deadline) && r !in claims
    ensures var rest := schedules - Elements(claims);
            r in rest && |DueBy(rest, deadline)| == |DueBy(schedules, deadline)| - batch
  {
    var taken := Elements(claims);
    assert DueAt(schedules, r, now);
    forall c | c in claims ensures c in DueBy(schedules, deadline)
    {
      var i :| 0 <= i < |claims| && claims[i] == c;
      assert DueAt(schedules, claims[i], now);
    }
    NoDupSize(claims);
    assert DueBy(schedules - taken, deadline) == DueBy(schedules, deadline) - taken;
  }

  lemma {:induction false} ServesSchedules(w: World, claims: seq<Recipient>, stamps: Stamps, active: set<Recipient>)
    ensures AfterServes(w, claims, stamps, active).tables.schedules == w.tables.schedules - Elements(claims)
  {
    if claims != [] {
      var n := |claims| - 1;
      ServesSchedules(w, claims[..n], stamps, active);
      ElementsSnoc(claims);
      var u := AfterServes(w, claims[..n], stamps, active);
      assert AfterServe(u, claims[n], stamps(n), active).tables.schedules == u.tables.schedules - {claims[n]};
    }
  }

  /** `r` waits with at most `k` timers, its own included, due by the moment its cap runs out, now past. */
  ghost predicate WaitsIn(cfg: Config, schedules: map<Recipient, Schedule>, clock: nat, r: Recipient, k: int) {
    && Capped(cfg, schedules)
    && r in schedules
    && schedules[r].oldest + cfg.cap <= clock
    && |DueBy(schedules, schedules[r].oldest + cfg.cap)| <= k
  }

  ghost predicate Waits(cfg: Config, w: World, r: Recipient, k: int) {
    WaitsIn(cfg, w.tables.schedules, w.clock, r, k)
  }

  lemma WaitsPositive(cfg: Config, schedules: map<Recipient, Schedule>, clock: nat, r: Recipient, k: int)
    requires WaitsIn(cfg, schedules, clock, r, k)
    ensures k > 0
  {
    assert r in DueBy(schedules, schedules[r].oldest + cfg.cap);
  }

  lemma RecordWaits(cfg: Config, schedules: map<Recipient, Schedule>, clock: nat, r: Recipient, k: int,
                    q: Recipient, now: nat)
    requires 0 < cfg.window <= cfg.cap && clock <= now && WaitsIn(cfg, schedules, clock, r, k)
    ensures WaitsIn(cfg, Upsert(cfg, schedules, q, now), now, r, k)
  {
    var deadline := schedules[r].oldest + cfg.cap;
    RecordAddsNoRival(cfg, schedules, q, now, deadline);
    SubsetSize(DueBy(Upsert(cfg, schedules, q, now), deadline), DueBy(schedules, deadline));
  }

  lemma TickWaits(cfg: Config, schedules: map<Recipient, Schedule>, clock: nat, r: Recipient, k: int,
                  now: nat, end: nat, batch: nat, claims: seq<Recipient>)
    requires clock <= now <= end && WaitsIn(cfg, schedules, clock, r, k)
    requires IsClaim(schedules, now, batch, claims) && r !in claims
    ensures WaitsIn(cfg, schedules - Elements(claims), end, r, k - batch)
  {
    var deadline := schedules[r].oldest + cfg.cap;
    assert r in DueBy(schedules, deadline);
    TickTakesFullBatch(schedules, now, batch, claims, r, deadline);
  }

  lemma {:induction false} AscendingEnd(now: nat, stamps: Stamps, claims: seq<Recipient>)
    requires Ascending(now, stamps, |claims|)
    ensures now <= TickEnd(now, stamps, claims)
  {
    if claims != [] {
      var n := |claims| - 1;
      AscendingEnd(now, stamps, claims[..n]);
      assert (if n == 0 then now else stamps(n - 1)) <= stamps(n);
    }
  }

  /** One step that does not claim `r`: a tick has brought it a full batch nearer. */
  lemma StepNearer(cfg: Config, w: World, s: Step, r: Recipient, k: int)
    requires 0 < cfg.window <= cfg.cap && Enabled(w, s) && OnTime(w, s) && Waits(cfg, w, r, k) && !Claims(r)(s)
    ensures Waits(cfg, After(cfg, w, s), r, if s.Tick? then k - s.batch else k)
  {
    match s {
      case Record(e, now) =>
        RecordWaits(cfg, w.tables.schedules, w.clock, r, k, e.recipient, now);
      case Tick(now, stamps, batch, claims, active) =>
        AscendingEnd(now, stamps, claims);
        TickWaits(cfg, w.tables.schedules, w.clock, r, k, now, TickEnd(now, stamps, claims), batch, claims);
        ServesSchedules(w, claims, stamps, active);
    }
  }

  function Claims(r: Recipient): Step -> bool {
    (s: Step) => s.Tick? && r in s.claims
  }

  function IsTick(): Step -> bool {
    (s: Step) => s.Tick?
  }

  lemma HitsLeft(hits: nat, batch: nat, k: int)
    requires (1 + hits) * batch >= k
    ensures hits * batch >= k - batch
  {
    assert (1 + hits) * batch == batch + hits * batch;
  }

  /** With `k` timers due by the deadline, a recipient past its cap is claimed within ceil(k / batch) ticks. */
  lemma {:induction false} ClaimedWithin(cfg: Config, w: World, steps: seq<Step>, r: Recipient, batch: nat, k: int)
    requires 0 < cfg.window <= cfg.cap && Legal(cfg, w, steps) && Timely(cfg, w, steps) && Waits(cfg, w, r, k)
    requires forall i :: 0 <= i < |steps| && steps[i].Tick? ==> steps[i].batch == batch
    requires CountOfSteps(steps, IsTick()) * batch >= k
    ensures exists i :: 0 <= i < |steps| && steps[i].Tick? && r in steps[i].claims
    decreases |steps|
  {
    WaitsPositive(cfg, w.tables.schedules, w.clock, r, k);
    if !Claims(r)(steps[0]) {
      var k' := TailWaits(cfg, w, steps, r, batch, k);
      ClaimedWithin(cfg, After(cfg, w, steps[0]), steps[1..], r, batch, k');
      ClaimedLater(steps, r);
    }
  }

  /** What is left to do after a first step that does not claim `r`. */
  lemma TailWaits(cfg: Config, w: World, steps: seq<Step>, r: Recipient, batch: nat, k: int) returns (k': int)
    requires 0 < cfg.window <= cfg.cap && steps != [] && Enabled(w, steps[0]) && OnTime(w, steps[0])
    requires Waits(cfg, w, r, k) && !Claims(r)(steps[0])
    requires forall i :: 0 <= i < |steps| && steps[i].Tick? ==> steps[i].batch == batch
    requires CountOfSteps(steps, IsTick()) * batch >= k
    ensures Waits(cfg, After(cfg, w, steps[0]), r, k')
    ensures forall i :: 0 <= i < |steps[1..]| && steps[1..][i].Tick? ==> steps[1..][i].batch == batch
    ensures CountOfSteps(steps[1..], IsTick()) * batch >= k'
  {
    StepNearer(cfg, w, steps[0], r, k);
    k' := if steps[0].Tick? then k - batch else k;
    if steps[0].Tick? {
      HitsLeft(CountOfSteps(steps[1..], IsTick()), batch, k);
    }
    TailBatch(steps, batch);
  }

  lemma TailBatch(steps: seq<Step>, batch: nat)
    requires steps != [] && forall i :: 0 <= i < |steps| && steps[i].Tick? ==> steps[i].batch == batch
    ensures forall i :: 0 <= i < |steps[1..]| && steps[1..][i].Tick? ==> steps[1..][i].batch == batch
  {
  }

  lemma ClaimedLater(steps: seq<Step>, r: Recipient)
    requires steps != []
    requires exists i :: 0 <= i < |steps[1..]| && steps[1..][i].Tick? && r in steps[1..][i].claims
    ensures exists i :: 0 <= i < |steps| && steps[i].Tick? && r in steps[i].claims
  {
    var i :| 0 <= i < |steps[1..]| && steps[1..][i].Tick? && r in steps[1..][i].claims;
    assert steps[i + 1] == steps[1..][i];
  }

  lemma CeilingBound(ticks: nat, k: nat, batch: nat)
    requires batch > 0 && ticks > k / batch
    ensures ticks * batch >= k
  {
    var q := k / batch;
    TimesMonotone(q + 1, ticks, batch);
    assert (q + 1) * batch == q * batch + batch;
    assert k < q * batch + batch;
  }

  lemma ReachableCapped(cfg: Config, w: World)
    requires Reachable(cfg, w) && cfg.window <= cfg.cap
    ensures Capped(cfg, w.tables.schedules)
  {
    forall r | r in w.tables.schedules
      ensures w.tables.schedules[r].due <= w.tables.schedules[r].oldest + cfg.cap
    {
      ReachableTimed(cfg, w, r);
    }
  }

  /** No digest starves: floor(k / batch) + 1 ticks after the cap suffice, whatever else is recorded meanwhile. */
  lemma NoStarvation(cfg: Config, w: World, steps: seq<Step>, r: Recipient, batch: nat)
    requires 0 < cfg.window <= cfg.cap && batch > 0
    requires Reachable(cfg, w) && Legal(cfg, w, steps) && Timely(cfg, w, steps)
    requires r in w.tables.schedules && w.tables.schedules[r].oldest + cfg.cap <= w.clock
    requires forall i :: 0 <= i < |steps| && steps[i].Tick? ==> steps[i].batch == batch
    requires CountOfSteps(steps, IsTick()) > |DueBy(w.tables.schedules, w.tables.schedules[r].oldest + cfg.cap)| / batch
    ensures exists i :: 0 <= i < |steps| && steps[i].Tick? && r in steps[i].claims
  {
    ReachableCapped(cfg, w);
    var k := |DueBy(w.tables.schedules, w.tables.schedules[r].oldest + cfg.cap)|;
    CeilingBound(CountOfSteps(steps, IsTick()), k, batch);
    ClaimedWithin(cfg, w, steps, r, batch, k);
  }

  /** A claimed recipient leaves the tick with no timer, no pending row and no un-drained event. */
  lemma ClaimDrains(cfg: Config, w: World, s: Step, r: Recipient)
    requires Reachable(cfg, w) && Enabled(w, s) && s.Tick? && r in s.claims
    ensures var v := After(cfg, w, s);
            && r !in v.tables.schedules
            && EventsOf(v.log, r) == []
            && forall row :: row in v.tables.pending ==> row.line.recipient != r
  {
    ReachableInv(cfg, w);
    StepKeepsInv(cfg, w, s);
    ServesSchedules(w, s.claims, s.stamps, s.active);
    var v := After(cfg, w, s);
    assert TimedFor(cfg, v.tables.schedules, EventsOf(v.log, r), r);
    HasRowsIffHasEvents(cfg, v, r);
    assert !exists row :: row in v.tables.pending && row.line.recipient == r;
  }
}
