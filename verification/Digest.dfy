/**
 The tables of the digest pipeline and what one committed transaction does to them:
 recording an event (lib/digest.js) and draining a claimed recipient
 (domain/digest/worker.js). Times are natural numbers of one unit (say milliseconds).
 */
module Digest {
  import opened Wrappers
  import opened Numbers
  import opened Seqs
  import Text

  datatype RecipientType = CustomerUser | Admin

  datatype Recipient = Recipient(kind: RecipientType, id: nat)

  datatype Bucket = ActionRequired | Fyi

  /** The five event types of COALESCING_EVENTS, and all others by name. */
  datatype EventType =
    | DocumentUploaded
    | DocumentDownloaded
    | CredentialViewed
    | CredentialCreated
    | ChecklistToggled
    | Other(name: string)

  /** A JSON scalar stored under a metadata key. */
  datatype Json = JNull | JText(text: string) | JNum(num: int)

  type Vars = map<string, string>

  /** A metadata object: the three keys the pipeline itself reads, and all the others. */
  datatype Metadata = Metadata(count: Option<int>, vars: Option<Vars>, locale: Option<string>,
                               fields: map<string, Json>)

  /** What a caller passes to `recordForDigest`. */
  datatype Item = Item(recipient: Recipient, customer: Option<nat>, bucket: Bucket, eventType: EventType,
                       title: string, detail: Option<string>, linkPath: Option<string>,
                       metadata: Metadata, vars: Option<Vars>, locale: Option<string>)

  /** A `pending_digest_items` row without its primary key. */
  datatype Line = Line(recipient: Recipient, customer: Option<nat>, bucket: Bucket, eventType: EventType,
                       title: string, detail: Option<string>, linkPath: Option<string>,
                       metadata: Metadata, createdAt: nat)

  datatype Row = Row(id: nat, line: Line)

  /** A `digest_schedules` row without its primary key. */
  datatype Schedule = Schedule(due: nat, oldest: nat)

  datatype Tables = Tables(pending: seq<Row>, schedules: map<Recipient, Schedule>, nextId: nat)

  /** `titleFor(eventType, locale, {...vars, count})`, whose text is left open. */
  type TitleFor = (EventType, string, Vars, int) -> string

  datatype Config = Config(window: nat, cap: nat, titleFor: TitleFor)

  /** Membership in COALESCING_EVENTS. */
  predicate Coalesces(eventType: EventType) {
    !eventType.Other?
  }

  /** COALESCING_DISCRIMINATORS: the metadata keys that keep lines of one event type apart. */
  function Discriminators(eventType: EventType): seq<string> {
    if eventType == ChecklistToggled then ["phaseId"] else []
  }

  /** `metadata->>'k'`, which is also `String(metadata[k])` unless that is missing or null. */
  function MarkOf(m: Metadata, k: string): Option<string> {
    if k !in m.fields then None
    else match m.fields[k]
      case JNull => None
      case JText(t) => Some(t)
      case JNum(n) => Some(Text.IntText(n))
  }

  function MarksOf(m: Metadata, keys: seq<string>): seq<Option<string>> {
    if keys == [] then [] else [MarkOf(m, keys[0])] + MarksOf(m, keys[1..])
  }

  /** The discriminator values that tell two lines of one event type apart. */
  function Marks(m: Metadata, eventType: EventType): seq<Option<string>> {
    MarksOf(m, Discriminators(eventType))
  }

  /** Marks depend on the metadata fields alone. */
  lemma {:induction false} MarksSame(m: Metadata, n: Metadata, keys: seq<string>)
    requires m.fields == n.fields
    ensures MarksOf(m, keys) == MarksOf(n, keys)
  {
    if keys != [] {
      MarksSame(m, n, keys[1..]);
    }
  }

  /** What two events must share to be folded into one line. */
  datatype Key = Key(recipient: Recipient, eventType: EventType, customer: Option<nat>, marks: seq<Option<string>>)

  function ItemKey(e: Item): Key {
    Key(e.recipient, e.eventType, e.customer, Marks(e.metadata, e.eventType))
  }

  function LineKey(l: Line): Key {
    Key(l.recipient, l.eventType, l.customer, Marks(l.metadata, l.eventType))
  }

  /** JavaScript truthiness of an optional string: the empty string is falsy. */
  predicate Truthy(s: Option<string>) {
    s.Some? && s.value != ""
  }

  function Pluralise(titleFor: TitleFor, eventType: EventType, oldTitle: string, count: int,
                     vars: Option<Vars>, locale: Option<string>): string
  {
    if vars.Some? && Truthy(locale) then titleFor(eventType, locale.value, vars.value, count)
    else match eventType
      case DocumentUploaded => Text.IntText(count) + " new documents"
      case DocumentDownloaded => Text.IntText(count) + " document downloads"
      case CredentialViewed => "DB Studio viewed " + Text.IntText(count) + " credentials"
      case CredentialCreated => Text.IntText(count) + " new credentials"
      case _ => oldTitle + " (+" + Text.IntText(count - 1) + " more)"
  }

  /** `metadata.count ?? 1` */
  function CountOf(l: Line): int {
    if l.metadata.count.Some? then l.metadata.count.value else 1
  }

  /** The count an event starts its own line with: 1, unless its metadata carries a `count` key. */
  function StartCount(e: Item): int {
    if e.metadata.count.Some? then e.metadata.count.value else 1
  }

  function FreshLine(e: Item, now: nat): (l: Line)
    ensures LineKey(l) == ItemKey(e) && CountOf(l) == StartCount(e)
  {
    var l := Line(e.recipient, e.customer, e.bucket, e.eventType, e.title, e.detail, e.linkPath,
         Metadata(Some(StartCount(e)),
                  if e.vars.Some? then e.vars else e.metadata.vars,
                  if Truthy(e.locale) then e.locale else e.metadata.locale,
                  e.metadata.fields),
         now);
    MarksSame(l.metadata, e.metadata, Discriminators(e.eventType));
    l
  }

  /** The existing line after one more event of the same key. */
  function Coalesced(titleFor: TitleFor, l: Line, e: Item): (r: Line)
    ensures LineKey(r) == LineKey(l) && CountOf(r) == CountOf(l) + 1
  {
    var vars := if e.vars.Some? then e.vars else l.metadata.vars;
    var locale := if e.locale.Some? then e.locale else l.metadata.locale;
    var r := l.(title := Pluralise(titleFor, e.eventType, l.title, CountOf(l) + 1, vars, locale),
       metadata := l.metadata.(count := Some(CountOf(l) + 1), vars := vars,
                               locale := if Truthy(locale) then locale else l.metadata.locale));
    MarksSame(r.metadata, l.metadata, Discriminators(l.eventType));
    r
  }

  /** `INSERT ... ON CONFLICT DO UPDATE` on the debounce timer. */
  function Upsert(cfg: Config, schedules: map<Recipient, Schedule>, r: Recipient, now: nat): map<Recipient, Schedule> {
    if r in schedules
    then schedules[r := schedules[r].(due := Min(now + cfg.window, schedules[r].oldest + cfg.cap))]
    else schedules[r := Schedule(now + cfg.window, now)]
  }

  /** Position of the first pending row that has key `k`, if any. */
  function MatchIndex(pending: seq<Row>, k: Key): (m: Option<nat>)
    ensures m.Some? ==> m.value < |pending| && LineKey(pending[m.value].line) == k
    ensures m.None? ==> forall i :: 0 <= i < |pending| ==> LineKey(pending[i].line) != k
  {
    if pending == [] then None
    else if LineKey(pending[|pending| - 1].line) == k
            && MatchIndex(pending[..|pending| - 1], k).None? then Some(|pending| - 1)
    else MatchIndex(pending[..|pending| - 1], k)
  }

  /** The tables after `recordForDigest(tx, e, {now})` commits. */
  function Recorded(cfg: Config, t: Tables, e: Item, now: nat): Tables {
    var m := if Coalesces(e.eventType) then MatchIndex(t.pending, ItemKey(e)) else None;
    var schedules := Upsert(cfg, t.schedules, e.recipient, now);
    if m.Some? then
      var row := t.pending[m.value];
      t.(pending := t.pending[m.value := row.(line := Coalesced(cfg.titleFor, row.line, e))],
         schedules := schedules)
    else
      Tables(t.pending + [Row(t.nextId, FreshLine(e, now))], schedules, t.nextId + 1)
  }

  function RowOf(r: Recipient): Row -> bool {
    (row: Row) => row.line.recipient == r
  }

  function RowNotOf(r: Recipient): Row -> bool {
    (row: Row) => row.line.recipient != r
  }

  /** The tables after `drainItems` and `clearSchedule` for one claimed recipient. */
  function Drained(t: Tables, r: Recipient): Tables {
    t.(pending := Filter(t.pending, RowNotOf(r)), schedules := t.schedules - {r})
  }

  function DrainedAll(t: Tables, claims: seq<Recipient>): Tables {
    if claims == [] then t else Drained(DrainedAll(t, claims[..|claims| - 1]), claims[|claims| - 1])
  }

  function SumCounts(rows: seq<Row>): int {
    if rows == [] then 0 else SumCounts(rows[..|rows| - 1]) + CountOf(rows[|rows| - 1].line)
  }

  predicate DueAt(schedules: map<Recipient, Schedule>, r: Recipient, now: nat) {
    r in schedules && schedules[r].due <= now
  }

  /** What `claimDue` may return: `ORDER BY due_at ASC LIMIT batch`, ties in any order. */
  ghost predicate IsClaim(schedules: map<Recipient, Schedule>, now: nat, batch: nat, claims: seq<Recipient>) {
    && NoDup(claims)
    && |claims| <= batch
    && (forall i :: 0 <= i < |claims| ==> DueAt(schedules, claims[i], now))
    && (forall i, j :: 0 <= i < j < |claims| ==> schedules[claims[i]].due <= schedules[claims[j]].due)
    && (forall r :: DueAt(schedules, r, now) && r !in claims ==>
          |claims| == batch && forall i :: 0 <= i < |claims| ==> schedules[claims[i]].due <= schedules[r].due)
  }

  /** Different primary keys, and different coalescing keys when the events coalesce. */
  predicate Apart(a: Row, b: Row) {
    a.id != b.id && (Coalesces(a.line.eventType) ==> LineKey(a.line) != LineKey(b.line))
  }

  /** Primary keys are distinct and below `nextId`; a coalescing key has at most one row. */
  ghost predicate ValidTables(t: Tables) {
    && (forall row :: row in t.pending ==> row.id < t.nextId)
    && Pairwise(t.pending, Apart)
  }

  lemma RecordedKeepsValid(cfg: Config, t: Tables, e: Item, now: nat)
    requires ValidTables(t)
    ensures ValidTables(Recorded(cfg, t, e, now))
  {
  }

  lemma DrainedKeepsValid(t: Tables, r: Recipient)
    requires ValidTables(t)
    ensures ValidTables(Drained(t, r))
  {
    FilterPairwise(t.pending, RowNotOf(r), Apart);
  }
}
