/** Which events of the log share a pending row, said of the events themselves. */
module DigestGroups {
  import opened Wrappers
  import opened Seqs
  import opened Digest
  import opened DigestLog
  import opened DigestRuns
  import opened DigestTheorems
  import Text

  /** `metadata->>'phaseId'`: no key and a JSON null are alike, a number is its decimal text. */
  function PhaseText(m: Metadata): Option<string> {
    if "phaseId" !in m.fields then None
    else match m.fields["phaseId"]
      case JNull => None
      case JText(t) => Some(t)
      case JNum(n) => Some(Text.IntText(n))
  }

  /** What makes two events foldable: all that is told apart, and nothing else of their content. */
  predicate Alike(a: Item, b: Item) {
    && a.recipient == b.recipient && a.eventType == b.eventType && a.customer == b.customer
    && (a.eventType == ChecklistToggled ==> PhaseText(a.metadata) == PhaseText(b.metadata))
  }

  /** The pending line is one that the event may be folded into. */
  predicate Takes(l: Line, e: Item) {
    && l.recipient == e.recipient && l.eventType == e.eventType && l.customer == e.customer
    && (l.eventType == ChecklistToggled ==> PhaseText(l.metadata) == PhaseText(e.metadata))
  }

  lemma KeyIffTakes(l: Line, e: Item)
    ensures LineKey(l) == ItemKey(e) <==> Takes(l, e)
  {
    MarksOfType(l.metadata, l.eventType);
    MarksOfType(e.metadata, e.eventType);
  }

  /** `recordForDigest` inserts unless a coalescing event finds a line that takes it. */
  lemma InsertedIff(t: Tables, e: Item)
    ensures !Inserted(t, e) <==> !e.eventType.Other? && exists row :: row in t.pending && Takes(row.line, e)
  {
    var m := MatchIndex(t.pending, ItemKey(e));
    if m.Some? {
      KeyIffTakes(t.pending[m.value].line, e);
      assert t.pending[m.value] in t.pending;
    } else if row :| row in t.pending && Takes(row.line, e) {
      KeyIffTakes(row.line, e);
    }
  }

  /** Both events are reported by one pending row. */
  ghost predicate OneGroup(log: Log, a: Event, b: Event) {
    exists i :: 0 <= i < |Heads(log)| && a in Members(log, Heads(log)[i]) && b in Members(log, Heads(log)[i])
  }

  lemma MarksOfType(m: Metadata, eventType: EventType)
    ensures Marks(m, eventType) == if eventType == ChecklistToggled then [PhaseText(m)] else []
  {
    assert ["phaseId"][1..] == [];
    assert MarkOf(m, "phaseId") == PhaseText(m);
    assert MarksOf(m, ["phaseId"]) == [MarkOf(m, "phaseId")] + MarksOf(m, []);
  }

  lemma KeysEqualIff(a: Item, b: Item)
    ensures ItemKey(a) == ItemKey(b) <==> Alike(a, b)
  {
    MarksOfType(a.metadata, a.eventType);
    MarksOfType(b.metadata, b.eventType);
  }

  /**
   Two un-drained events of the five coalescing types share a row exactly when recipient, type and
   customer agree and, for checklist toggles alone, the phase agrees.
   */
  lemma OneGroupIff(log: Log, a: Event, b: Event)
    requires a in log && b in log && !a.item.eventType.Other?
    ensures OneGroup(log, a, b) <==> Alike(a.item, b.item)
  {
    KeysEqualIff(a.item, b.item);
    if Alike(a.item, b.item) {
      var i := KeyHead(log, a);
      SameKeySameType(Heads(log)[i], a);
      assert Sharing(ItemKey(a.item))(a) && Sharing(ItemKey(a.item))(b);
    }
    if i :| 0 <= i < |Heads(log)| && a in Members(log, Heads(log)[i]) && b in Members(log, Heads(log)[i]) {
      assert Heads(log)[i] in log;
      MembersNonEmpty(log, Heads(log)[i]);
    }
  }

  /** An event of any other type shares its row with nothing but itself. */
  lemma OtherIsAlone(log: Log, a: Event, b: Event)
    requires a in log && a.item.eventType.Other?
    ensures OneGroup(log, a, b) <==> a == b
  {
    PlainIsHead(log, a);
    var i :| 0 <= i < |Heads(log)| && Heads(log)[i] == a;
    assert a in Members(log, Heads(log)[i]);
    if j :| 0 <= j < |Heads(log)| && a in Members(log, Heads(log)[j]) && b in Members(log, Heads(log)[j]) {
      assert Heads(log)[j] in log;
      MembersNonEmpty(log, Heads(log)[j]);
      SameKeySameType(a, Heads(log)[j]);
    }
  }

  /** Row `i` is the fold of the group that event `e` is in. */
  ghost predicate Reports(cfg: Config, w: World, i: nat, e: Event) {
    && i < |w.tables.pending| == |Heads(w.log)|
    && e in Members(w.log, Heads(w.log)[i]) && Members(w.log, Heads(w.log)[i]) != []
    && w.tables.pending[i].line == LineOf(cfg.titleFor, Members(w.log, Heads(w.log)[i]))
  }

  lemma ReportedByRow(cfg: Config, w: World, e: Event) returns (i: nat)
    requires Reachable(cfg, w) && e in w.log
    ensures Reports(cfg, w, i, e)
  {
    PendingIsGroupedLog(cfg, w);
    EveryEventReported(cfg, w, e);
    i :| 0 <= i < |Heads(w.log)| && e in Members(w.log, Heads(w.log)[i]);
  }

  lemma RowIdsApart(t: Tables, i: nat, j: nat)
    requires ValidTables(t) && i < |t.pending| && j < |t.pending| && i != j
    ensures t.pending[i].id != t.pending[j].id
  {
    assert i < j ==> Apart(t.pending[i], t.pending[j]);
    assert j < i ==> Apart(t.pending[j], t.pending[i]);
  }

  /** Toggles of two phases are reported by two different pending rows, in every reachable state. */
  lemma PhasesLieApart(cfg: Config, w: World, a: Event, b: Event, p: string, q: string) returns (i: nat, j: nat)
    requires Reachable(cfg, w) && a in w.log && b in w.log && p != q
    requires a.item.eventType == b.item.eventType == ChecklistToggled
    requires "phaseId" in a.item.metadata.fields && a.item.metadata.fields["phaseId"] == JText(p)
    requires "phaseId" in b.item.metadata.fields && b.item.metadata.fields["phaseId"] == JText(q)
    ensures Reports(cfg, w, i, a) && Reports(cfg, w, j, b)
    ensures i != j && w.tables.pending[i].id != w.tables.pending[j].id
  {
    i := ReportedByRow(cfg, w, a);
    j := ReportedByRow(cfg, w, b);
    OneGroupIff(w.log, a, b);
    assert !OneGroup(w.log, a, b);
    ReachableInv(cfg, w);
    RowIdsApart(w.tables, i, j);
  }

  function IsOther(): Event -> bool {
    (e: Event) => e.item.eventType.Other?
  }

  /** Events of all other types open one row each, repeated or not. */
  lemma {:induction false} OthersOpenRows(log: Log)
    ensures Filter(Heads(log), IsOther()) == Filter(log, IsOther())
  {
    if log != [] {
      var n := |log| - 1;
      OthersOpenRows(log[..n]);
      FilterSnoc(Heads(log[..n]), log[n], IsOther());
    }
  }
}
