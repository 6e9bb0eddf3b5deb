/**
 Whole runs of the digest pipeline: any interleaving of committed `recordForDigest` transactions and
 worker ticks. A transaction brings the time it read, which may be older than the last commit.
 */
module DigestRuns {
  import opened Wrappers
  import opened Numbers
  import opened Seqs
  import opened Digest
  import opened DigestLog

  /** A digest handed to the outbox; (`to`, `at`) is what its idempotency key is made of. */
  datatype Mail = Mail(to: Recipient, at: nat, rows: seq<Row>)

  /** The tables, and a history kept beside them. `surplus` adds up `StartCount - 1` over inserted lines. */
  datatype World = World(tables: Tables, log: Log, clock: nat, recorded: nat, surplus: int,
                         emailed: int, dropped: int, sent: seq<Mail>)

  /** When the worker reads the time for the idempotency key of its k-th claim. */
  type Stamps = nat -> nat

  /** A tick reads `now` when it claims. */
  datatype Step =
    | Record(item: Item, now: nat)
    | Tick(now: nat, stamps: Stamps, batch: nat, claims: seq<Recipient>, active: set<Recipient>)

  const START: World := World(Tables([], map[], 0), [], 0, 0, 0, 0, 0, [])

  /** Did recording insert a line (rather than fold into one)? */
  function Inserted(t: Tables, e: Item): bool {
    !Coalesces(e.eventType) || MatchIndex(t.pending, ItemKey(e)).None?
  }

  function AfterRecord(cfg: Config, w: World, e: Item, now: nat): World {
    w.(tables := Recorded(cfg, w.tables, e, now),
       log := w.log + [Event(e, now)],
       clock := now,
       recorded := w.recorded + 1,
       surplus := w.surplus + if Inserted(w.tables, e) then StartCount(e) - 1 else 0)
  }

  /** One claimed recipient: drain, then mail or drop, then clear the timer. */
  function AfterServe(w: World, r: Recipient, stamp: nat, active: set<Recipient>): World {
    var items := Filter(w.tables.pending, RowOf(r));
    var mailed := r in active && items != [];
    w.(tables := Drained(w.tables, r),
       log := Filter(w.log, NotOfRecipient(r)),
       emailed := w.emailed + if mailed then SumCounts(items) else 0,
       dropped := w.dropped + if mailed then 0 else SumCounts(items),
       sent := w.sent + if mailed then [Mail(r, stamp, items)] else [])
  }

  function AfterServes(w: World, claims: seq<Recipient>, stamps: Stamps, active: set<Recipient>): World {
    if claims == [] then w
    else
      var n := |claims| - 1;
      AfterServe(AfterServes(w, claims[..n], stamps, active), claims[n], stamps(n), active)
  }

  lemma AfterServesNext(w: World, claims: seq<Recipient>, k: nat, stamps: Stamps, active: set<Recipient>)
    requires k < |claims|
    ensures AfterServes(w, claims[..k + 1], stamps, active) ==
            AfterServe(AfterServes(w, claims[..k], stamps, active), claims[k], stamps(k), active)
  {
    assert claims[..k + 1][..k] == claims[..k];
  }

  /** The last time that a tick reads. */
  function TickEnd(now: nat, stamps: Stamps, claims: seq<Recipient>): nat {
    if claims == [] then now else stamps(|claims| - 1)
  }

  function After(cfg: Config, w: World, s: Step): World {
    match s
    case Record(e, now) => AfterRecord(cfg, w, e, now)
    case Tick(now, stamps, _, claims, active) =>
      AfterServes(w, claims, stamps, active).(clock := TickEnd(now, stamps, claims))
  }

  ghost predicate Enabled(w: World, s: Step) {
    s.Tick? ==> IsClaim(w.tables.schedules, s.now, s.batch, s.claims)
  }

  ghost predicate Legal(cfg: Config, w: World, steps: seq<Step>)
    decreases |steps|
  {
    steps == [] || (Enabled(w, steps[0]) && Legal(cfg, After(cfg, w, steps[0]), steps[1..]))
  }

  /** The step's times are not before those of the steps so far. */
  predicate OnTime(w: World, s: Step) {
    w.clock <= s.now && (s.Tick? ==> Ascending(s.now, s.stamps, |s.claims|))
  }

  /** The first `n` stamps follow `now` and one another. */
  predicate Ascending(now: nat, stamps: Stamps, n: nat) {
    forall i :: 0 <= i < n ==> (if i == 0 then now else stamps(i - 1)) <= stamps(i)
  }

  /** A run whose clock never goes back. */
  predicate Timely(cfg: Config, w: World, steps: seq<Step>)
    decreases |steps|
  {
    steps == [] || (OnTime(w, steps[0]) && Timely(cfg, After(cfg, w, steps[0]), steps[1..]))
  }

  function Run(cfg: Config, w: World, steps: seq<Step>): World
    decreases |steps|
  {
    if steps == [] then w else Run(cfg, After(cfg, w, steps[0]), steps[1..])
  }

  // ----- The invariant -----

  /** The rows hold the lines, in order. */
  ghost predicate Aligned(rows: seq<Row>, lines: seq<Line>) {
    |rows| == |lines| && forall i :: 0 <= i < |rows| ==> rows[i].line == lines[i]
  }

  /** The pending rows are, in order, the lines that the un-drained log calls for. */
  ghost predicate Follows(cfg: Config, w: World) {
    Aligned(w.tables.pending, View(cfg.titleFor, w.log))
  }

  function EventsOf(log: Log, r: Recipient): Log {
    Filter(log, OfRecipient(r))
  }

  /** The debounce timer in closed form, from the un-drained events of one recipient. */
  function Timer(cfg: Config, es: Log): Schedule
    requires es != []
  {
    var first, last := es[0].at, es[|es| - 1].at;
    Schedule(if |es| == 1 then first + cfg.window else Min(last + cfg.window, first + cfg.cap), first)
  }

  ghost predicate Timed(cfg: Config, schedules: map<Recipient, Schedule>, log: Log) {
    forall r :: TimedFor(cfg, schedules, EventsOf(log, r), r)
  }

  ghost predicate Balanced(w: World) {
    w.recorded + w.surplus == SumCounts(w.tables.pending) + w.emailed + w.dropped
  }

  ghost predicate Inv(cfg: Config, w: World) {
    && ValidTables(w.tables)
    && Follows(cfg, w)
    && Timed(cfg, w.tables.schedules, w.log)
    && Balanced(w)
  }

  lemma {:induction false} SumCountsConcat(a: seq<Row>, b: seq<Row>)
    ensures SumCounts(a + b) == SumCounts(a) + SumCounts(b)
  {
    if b == [] {
      assert a + b == a;
    } else {
      SumCountsConcat(a, b[..|b| - 1]);
      assert (a + b)[..|a + b| - 1] == a + b[..|b| - 1];
    }
  }

  lemma SumCountsUpdate(a: seq<Row>, i: nat, row: Row)
    requires i < |a|
    ensures SumCounts(a[i := row]) == SumCounts(a) - CountOf(a[i].line) + CountOf(row.line)
  {
    assert a == a[..i] + [a[i]] + a[i + 1..];
    assert a[i := row] == a[..i] + [row] + a[i + 1..];
    SumCountsConcat(a[..i], [a[i]]);
    SumCountsConcat(a[..i], [row]);
    SumCountsConcat(a[..i] + [a[i]], a[i + 1..]);
    SumCountsConcat(a[..i] + [row], a[i + 1..]);
    assert [a[i]][..0] == [] && [row][..0] == [];
  }

  lemma {:induction false} SumCountsSplit(rows: seq<Row>, r: Recipient)
    ensures SumCounts(rows) == SumCounts(Filter(rows, RowOf(r))) + SumCounts(Filter(rows, RowNotOf(r)))
  {
    if rows != [] {
      var n := |rows| - 1;
      SumCountsSplit(rows[..n], r);
      var a, b := Filter(rows[..n], RowOf(r)), Filter(rows[..n], RowNotOf(r));
      assert (a + [rows[n]])[..|a|] == a && (b + [rows[n]])[..|b|] == b;
    }
  }

  /** A row of a coalescing event's key exists only where the log has a line for that key. */
  lemma RowOfKeyIsLine(cfg: Config, w: World, e: Event, i: nat)
    requires Follows(cfg, w) && i < |w.tables.pending|
    requires LineKey(w.tables.pending[i].line) == ItemKey(e.item) && Coalesces(e.item.eventType)
    ensures !Opens(w.log, e)
  {
    ViewAt(cfg.titleFor, w.log, i);
    LineForKey(cfg.titleFor, w.log, Heads(w.log)[i]);
  }

  /** In valid tables, the row that matches a coalescing key is the only one. */
  lemma MatchIsOnly(t: Tables, e: Item, i: nat)
    requires ValidTables(t) && Coalesces(e.eventType)
    requires i < |t.pending| && LineKey(t.pending[i].line) == ItemKey(e)
    ensures MatchIndex(t.pending, ItemKey(e)) == Some(i)
    ensures forall j :: 0 <= j < |t.pending| && j != i ==> t.pending[j].id != t.pending[i].id
  {
    var m := MatchIndex(t.pending, ItemKey(e));
    assert m.Some?;
    assert LineKey(t.pending[i].line).eventType == t.pending[i].line.eventType;
    assert LineKey(t.pending[m.value].line).eventType == t.pending[m.value].line.eventType;
    assert m.value < i ==> Apart(t.pending[m.value], t.pending[i]);
    assert i < m.value ==> Apart(t.pending[i], t.pending[m.value]);
    forall j | 0 <= j < |t.pending| && j != i
      ensures t.pending[j].id != t.pending[i].id
    {
      assert j < i ==> Apart(t.pending[j], t.pending[i]);
      assert i < j ==> Apart(t.pending[i], t.pending[j]);
    }
  }

  /** `recordForDigest` inserts exactly when the event opens a line. */
  lemma InsertsIffOpens(cfg: Config, w: World, e: Event)
    requires Follows(cfg, w)
    ensures Inserted(w.tables, e.item) <==> Opens(w.log, e)
  {
    var m := MatchIndex(w.tables.pending, ItemKey(e.item));
    if !Inserted(w.tables, e.item) {
      RowOfKeyIsLine(cfg, w, e, m.value);
    }
    if !Opens(w.log, e) {
      var i := ViewSnocFolds(cfg.titleFor, w.log, e);
      assert LineKey(w.tables.pending[i].line) == ItemKey(e.item);
    }
  }

  lemma InsertFollows(cfg: Config, w: World, e: Item, now: nat)
    requires Follows(cfg, w) && Opens(w.log, Event(e, now)) && Inserted(w.tables, e)
    ensures Follows(cfg, AfterRecord(cfg, w, e, now))
  {
    ViewSnocOpens(cfg.titleFor, w.log, Event(e, now));
    AlignedSnoc(w.tables.pending, View(cfg.titleFor, w.log), Row(w.tables.nextId, FreshLine(e, now)));
  }

  lemma FoldFollows(cfg: Config, w: World, e: Item, now: nat)
    requires ValidTables(w.tables) && Follows(cfg, w) && !Opens(w.log, Event(e, now)) && !Inserted(w.tables, e)
    ensures Follows(cfg, AfterRecord(cfg, w, e, now))
  {
    var i := ViewSnocFolds(cfg.titleFor, w.log, Event(e, now));
    var row := w.tables.pending[i];
    assert LineKey(row.line) == ItemKey(e);
    MatchIsOnly(w.tables, e, i);
    AlignedUpdate(w.tables.pending, View(cfg.titleFor, w.log), i, row.(line := Coalesced(cfg.titleFor, row.line, e)));
  }

  lemma AlignedUpdate(rows: seq<Row>, lines: seq<Line>, i: nat, row: Row)
    requires Aligned(rows, lines) && i < |rows|
    ensures Aligned(rows[i := row], lines[i := row.line])
  {
  }

  lemma RecordFollows(cfg: Config, w: World, e: Item, now: nat)
    requires ValidTables(w.tables) && Follows(cfg, w)
    ensures Follows(cfg, AfterRecord(cfg, w, e, now))
  {
    var ev := Event(e, now);
    InsertsIffOpens(cfg, w, ev);
    if Opens(w.log, ev) {
      InsertFollows(cfg, w, e, now);
    } else {
      FoldFollows(cfg, w, e, now);
    }
  }

  /** The timer of one recipient against its events. */
  ghost predicate TimedFor(cfg: Config, schedules: map<Recipient, Schedule>, es: Log, r: Recipient) {
    && (r in schedules <==> es != [])
    && (r in schedules ==> schedules[r] == Timer(cfg, es))
  }

  lemma RecordTimedFor(cfg: Config, schedules: map<Recipient, Schedule>, es: Log, e: Event)
    requires TimedFor(cfg, schedules, es, e.item.recipient)
    ensures TimedFor(cfg, Upsert(cfg, schedules, e.item.recipient, e.at), es + [e], e.item.recipient)
  {
  }

  lemma RecordTimed(cfg: Config, w: World, e: Item, now: nat)
    requires Timed(cfg, w.tables.schedules, w.log)
    ensures Timed(cfg, Upsert(cfg, w.tables.schedules, e.recipient, now), w.log + [Event(e, now)])
  {
    var schedules := Upsert(cfg, w.tables.schedules, e.recipient, now);
    forall r ensures TimedFor(cfg, schedules, EventsOf(w.log + [Event(e, now)], r), r)
    {
      FilterSnoc(w.log, Event(e, now), OfRecipient(r));
      assert TimedFor(cfg, w.tables.schedules, EventsOf(w.log, r), r);
      if r == e.recipient {
        RecordTimedFor(cfg, w.tables.schedules, EventsOf(w.log, r), Event(e, now));
      }
    }
  }

  lemma RecordKeepsInv(cfg: Config, w: World, e: Item, now: nat)
    requires Inv(cfg, w)
    ensures Inv(cfg, AfterRecord(cfg, w, e, now))
  {
    RecordedKeepsValid(cfg, w.tables, e, now);
    RecordFollows(cfg, w, e, now);
    RecordTimed(cfg, w, e, now);
    var m := MatchIndex(w.tables.pending, ItemKey(e));
    if Inserted(w.tables, e) {
      SumCountsConcat(w.tables.pending, [Row(w.tables.nextId, FreshLine(e, now))]);
      assert [Row(w.tables.nextId, FreshLine(e, now))][..0] == [];
    } else {
      var row := w.tables.pending[m.value];
      SumCountsUpdate(w.tables.pending, m.value, row.(line := Coalesced(cfg.titleFor, row.line, e)));
    }
  }

  lemma AlignedSnoc(rows: seq<Row>, lines: seq<Line>, row: Row)
    requires Aligned(rows, lines)
    ensures Aligned(rows + [row], lines + [row.line])
  {
  }

  lemma {:induction false} FilterLines(rows: seq<Row>, lines: seq<Line>, r: Recipient)
    requires Aligned(rows, lines)
    ensures Aligned(Filter(rows, RowNotOf(r)), Filter(lines, LineNotOf(r)))
  {
    if rows != [] {
      var n := |rows| - 1;
      FilterLines(rows[..n], lines[..n], r);
      FilterLinesNext(rows[..n], lines[..n], rows[n], r);
      assert rows == rows[..n] + [rows[n]] && lines == lines[..n] + [lines[n]];
    }
  }

  lemma FilterLinesNext(rows: seq<Row>, lines: seq<Line>, row: Row, r: Recipient)
    requires Aligned(Filter(rows, RowNotOf(r)), Filter(lines, LineNotOf(r)))
    ensures Aligned(Filter(rows + [row], RowNotOf(r)), Filter(lines + [row.line], LineNotOf(r)))
  {
    FilterSnoc(rows, row, RowNotOf(r));
    FilterSnoc(lines, row.line, LineNotOf(r));
    AlignedSnoc(Filter(rows, RowNotOf(r)), Filter(lines, LineNotOf(r)), row);
  }

  lemma {:induction false} EventsOfDrained(log: Log, r: Recipient, q: Recipient)
    ensures EventsOf(Filter(log, NotOfRecipient(r)), q) == if q == r then [] else EventsOf(log, q)
  {
    if log != [] {
      var n := |log| - 1;
      EventsOfDrained(log[..n], r, q);
      FilterSnoc(Filter(log[..n], NotOfRecipient(r)), log[n], OfRecipient(q));
    }
  }

  lemma ServeFollows(cfg: Config, w: World, r: Recipient, stamp: nat, active: set<Recipient>)
    requires Follows(cfg, w)
    ensures Follows(cfg, AfterServe(w, r, stamp, active))
  {
    ViewDrain(cfg.titleFor, w.log, r);
    FilterLines(w.tables.pending, View(cfg.titleFor, w.log), r);
  }

  lemma ServeTimed(cfg: Config, schedules: map<Recipient, Schedule>, log: Log, r: Recipient)
    requires Timed(cfg, schedules, log)
    ensures Timed(cfg, schedules - {r}, Filter(log, NotOfRecipient(r)))
  {
    forall q ensures TimedFor(cfg, schedules - {r}, EventsOf(Filter(log, NotOfRecipient(r)), q), q) {
      EventsOfDrained(log, r, q);
      assert TimedFor(cfg, schedules, EventsOf(log, q), q);
    }
  }

  lemma ServeBalanced(w: World, r: Recipient, stamp: nat, active: set<Recipient>)
    requires Balanced(w)
    ensures Balanced(AfterServe(w, r, stamp, active))
  {
    SumCountsSplit(w.tables.pending, r);
  }

  lemma ServeKeepsInv(cfg: Config, w: World, r: Recipient, stamp: nat, active: set<Recipient>)
    requires Inv(cfg, w)
    ensures Inv(cfg, AfterServe(w, r, stamp, active))
  {
    DrainedKeepsValid(w.tables, r);
    ServeFollows(cfg, w, r, stamp, active);
    ServeTimed(cfg, w.tables.schedules, w.log, r);
    ServeBalanced(w, r, stamp, active);
  }

  lemma {:induction false} ServesKeepInv(cfg: Config, w: World, claims: seq<Recipient>, stamps: Stamps,
                                         active: set<Recipient>)
    requires Inv(cfg, w)
    ensures Inv(cfg, AfterServes(w, claims, stamps, active))
  {
    if claims != [] {
      var n := |claims| - 1;
      ServesKeepInv(cfg, w, claims[..n], stamps, active);
      ServeKeepsInv(cfg, AfterServes(w, claims[..n], stamps, active), claims[n], stamps(n), active);
    }
  }

  /** The clock is no part of the invariant. */
  lemma ClockIsFree(cfg: Config, w: World, clock: nat)
    requires Inv(cfg, w)
    ensures Inv(cfg, w.(clock := clock))
  {
    assert Follows(cfg, w.(clock := clock)) && Balanced(w.(clock := clock));
  }

  lemma StepKeepsInv(cfg: Config, w: World, s: Step)
    requires Inv(cfg, w) && Enabled(w, s)
    ensures Inv(cfg, After(cfg, w, s))
  {
    match s
    case Record(e, now) => RecordKeepsInv(cfg, w, e, now);
    case Tick(now, stamps, _, claims, active) =>
      ServesKeepInv(cfg, w, claims, stamps, active);
      ClockIsFree(cfg, AfterServes(w, claims, stamps, active), TickEnd(now, stamps, claims));
  }

  /** Induction over runs: what every enabled step keeps, every legal run keeps. */
  lemma {:induction false} RunKeeps(cfg: Config, w: World, steps: seq<Step>, holds: World -> bool)
    requires holds(w) && Legal(cfg, w, steps)
    requires forall v, s :: holds(v) && Enabled(v, s) ==> holds(After(cfg, v, s))
    ensures holds(Run(cfg, w, steps))
    decreases |steps|
  {
    if steps != [] {
      RunKeeps(cfg, After(cfg, w, steps[0]), steps[1..], holds);
    }
  }

  lemma RunKeepsInv(cfg: Config, w: World, steps: seq<Step>)
    requires Inv(cfg, w) && Legal(cfg, w, steps)
    ensures Inv(cfg, Run(cfg, w, steps))
  {
    var holds := (v: World) => Inv(cfg, v);
    forall v, s | holds(v) && Enabled(v, s)
      ensures holds(After(cfg, v, s))
    {
      StepKeepsInv(cfg, v, s);
    }
    RunKeeps(cfg, w, steps, holds);
  }

  lemma StartInv(cfg: Config)
    ensures Inv(cfg, START)
  {
  }
}
