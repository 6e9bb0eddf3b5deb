/**
 The pending table seen as a view of the event log: which events are still un-drained,
 grouped by coalescing key. This view is defined from the log alone; DigestRuns shows that
 the tables follow it.
 */
module DigestLog {
  import opened Seqs
  import opened Digest
  import opened Wrappers
  import Text

  datatype Event = Event(item: Item, at: nat)

  type Log = seq<Event>

  function Sharing(k: Key): Event -> bool {
    (e: Event) => ItemKey(e.item) == k
  }

  function OfRecipient(r: Recipient): Event -> bool {
    (e: Event) => e.item.recipient == r
  }

  function NotOfRecipient(r: Recipient): Event -> bool {
    (e: Event) => e.item.recipient != r
  }

  /** The event opens a line of its own when it follows `before`. */
  predicate Opens(before: Log, e: Event) {
    Coalesces(e.item.eventType) ==> forall x :: x in before ==> ItemKey(x.item) != ItemKey(e.item)
  }

  /** The events that open a line, in order. */
  function Heads(log: Log): (heads: Log)
    ensures forall h :: h in heads ==> h in log
    ensures |heads| <= |log|
  {
    if log == [] then []
    else
      var n := |log| - 1;
      if Opens(log[..n], log[n]) then Heads(log[..n]) + [log[n]] else Heads(log[..n])
  }

  /** All events reported by the line that `h` opens. */
  function Members(log: Log, h: Event): Log {
    if Coalesces(h.item.eventType) then Filter(log, Sharing(ItemKey(h.item))) else [h]
  }

  /** One line for a non-empty group of events: the first is inserted, the others are folded in. */
  function LineOf(titleFor: TitleFor, group: Log): Line
    requires group != []
  {
    if |group| == 1 then FreshLine(group[0].item, group[0].at)
    else Coalesced(titleFor, LineOf(titleFor, group[..|group| - 1]), group[|group| - 1].item)
  }

  lemma MembersNonEmpty(log: Log, h: Event)
    requires h in log
    ensures Members(log, h) != []
    ensures Coalesces(h.item.eventType) ==>
              forall x :: x in Members(log, h) ==> ItemKey(x.item) == ItemKey(h.item)
  {
    assert Sharing(ItemKey(h.item))(h);
  }

  function LineFor(titleFor: TitleFor, log: Log, h: Event): Line
    requires h in log
  {
    MembersNonEmpty(log, h);
    LineOf(titleFor, Members(log, h))
  }

  function Lines(titleFor: TitleFor, log: Log, heads: Log): (lines: seq<Line>)
    requires forall h :: h in heads ==> h in log
    ensures |lines| == |heads|
  {
    if heads == [] then []
    else
      var n := |heads| - 1;
      assert heads[n] in heads;
      Lines(titleFor, log, heads[..n]) + [LineFor(titleFor, log, heads[n])]
  }

  lemma {:induction false} LinesAt(titleFor: TitleFor, log: Log, heads: Log, i: nat)
    requires i < |heads| && forall h :: h in heads ==> h in log
    ensures heads[i] in log && Lines(titleFor, log, heads)[i] == LineFor(titleFor, log, heads[i])
  {
    var n := |heads| - 1;
    assert heads[i] in heads && heads[n] in heads;
    if i < n {
      LinesAt(titleFor, log, heads[..n], i);
      assert heads[..n][i] == heads[i];
    }
  }

  /** The pending lines that an un-drained log calls for: one per head, in order of first event. */
  function View(titleFor: TitleFor, log: Log): (lines: seq<Line>)
    ensures |lines| == |Heads(log)|
  {
    Lines(titleFor, log, Heads(log))
  }

  lemma ViewAt(titleFor: TitleFor, log: Log, i: nat)
    requires i < |Heads(log)|
    ensures Heads(log)[i] in log && View(titleFor, log)[i] == LineFor(titleFor, log, Heads(log)[i])
  {
    LinesAt(titleFor, log, Heads(log), i);
  }

  // ----- What a line says about its group -----

  /** The count of a line is the size of its group, shifted by what the first event started it with. */
  lemma {:induction false} LineCount(titleFor: TitleFor, group: Log)
    requires group != []
    ensures CountOf(LineOf(titleFor, group)) == |group| - 1 + StartCount(group[0].item)
    ensures LineKey(LineOf(titleFor, group)) == ItemKey(group[0].item)
    ensures LineOf(titleFor, group).createdAt == group[0].at
    ensures LineOf(titleFor, group).recipient == group[0].item.recipient
  {
    if |group| > 1 {
      LineCount(titleFor, group[..|group| - 1]);
    }
  }

  /** What a line takes from the first event of its group: all but count, vars, locale and, once folded, title. */
  lemma {:induction false} LineKeepsFirst(titleFor: TitleFor, group: Log)
    requires group != []
    ensures var l, e := LineOf(titleFor, group), group[0].item;
            && l.recipient == e.recipient && l.customer == e.customer && l.bucket == e.bucket
            && l.eventType == e.eventType && l.detail == e.detail && l.linkPath == e.linkPath
            && l.metadata.fields == e.metadata.fields && l.createdAt == group[0].at
            && (|group| == 1 ==> l.title == e.title)
  {
    if |group| > 1 {
      LineKeepsFirst(titleFor, group[..|group| - 1]);
    }
  }

  /** Event `k` is the last of its group that satisfies `p`. */
  ghost predicate LastWith(group: Log, p: Event -> bool, k: nat) {
    k < |group| && p(group[k]) && forall j :: k < j < |group| ==> !p(group[j])
  }

  function HasVars(): Event -> bool {
    (e: Event) => e.item.vars.Some?
  }

  function HasLocale(): Event -> bool {
    (e: Event) => Truthy(e.item.locale)
  }

  /** A line carries the newest vars and the newest locale that the events of its group brought. */
  lemma {:induction false} LineTakesNewest(titleFor: TitleFor, group: Log, k: nat)
    requires group != []
    ensures LastWith(group, HasVars(), k) ==> LineOf(titleFor, group).metadata.vars == group[k].item.vars
    ensures LastWith(group, HasLocale(), k) ==> LineOf(titleFor, group).metadata.locale == group[k].item.locale
  {
    var n := |group| - 1;
    if n > 0 && k < n {
      LineTakesNewest(titleFor, group[..n], k);
      assert LastWith(group, HasVars(), k) ==> LastWith(group[..n], HasVars(), k) && !HasVars()(group[n]);
      assert LastWith(group, HasLocale(), k) ==> LastWith(group[..n], HasLocale(), k) && !HasLocale()(group[n]);
    }
  }

  /** A group whose events bring none has what the caller's metadata of the first event held. */
  lemma {:induction false} LineKeepsOwn(titleFor: TitleFor, group: Log)
    requires group != []
    ensures (forall j :: 0 <= j < |group| ==> !HasVars()(group[j])) ==>
              LineOf(titleFor, group).metadata.vars == group[0].item.metadata.vars
    ensures (forall j :: 0 <= j < |group| ==> !HasLocale()(group[j])) ==>
              LineOf(titleFor, group).metadata.locale == group[0].item.metadata.locale
  {
    if |group| > 1 {
      LineKeepsOwn(titleFor, group[..|group| - 1]);
    }
  }

  /** The title of a folded line: rendered when vars and locale are at hand, else the fixed plural of its type. */
  lemma TitleOfFold(titleFor: TitleFor, group: Log)
    requires |group| > 1 && StartCount(group[0].item) == 1
    ensures var n := |group| - 1;
            var l, before, e := LineOf(titleFor, group), LineOf(titleFor, group[..n]), group[n].item;
            var vars := if e.vars.Some? then e.vars else before.metadata.vars;
            var locale := if e.locale.Some? then e.locale else before.metadata.locale;
            && l.metadata.vars == vars
            && (if vars.Some? && locale.Some? && locale.value != ""
                then l.title == titleFor(e.eventType, locale.value, vars.value, |group|)
                else IsPlural(l.title, before.title, e.eventType, |group|))
  {
    var n := |group| - 1;
    LineCount(titleFor, group[..n]);
    TitleOfCoalesced(titleFor, LineOf(titleFor, group[..n]), group[n].item);
  }

  lemma TitleOfCoalesced(titleFor: TitleFor, before: Line, e: Item)
    ensures var l := Coalesced(titleFor, before, e);
            var vars := if e.vars.Some? then e.vars else before.metadata.vars;
            var locale := if e.locale.Some? then e.locale else before.metadata.locale;
            && l.metadata.vars == vars
            && (if vars.Some? && locale.Some? && locale.value != ""
                then l.title == titleFor(e.eventType, locale.value, vars.value, CountOf(before) + 1)
                else IsPlural(l.title, before.title, e.eventType, CountOf(before) + 1))
  {
  }

  /** `title` is the plural for `count` events that replaces the title `before`. */
  predicate IsPlural(title: string, before: string, eventType: EventType, count: int) {
    && (eventType == DocumentUploaded ==> title == Text.IntText(count) + " new documents")
    && (eventType == DocumentDownloaded ==> title == Text.IntText(count) + " document downloads")
    && (eventType == CredentialViewed ==> title == "DB Studio viewed " + Text.IntText(count) + " credentials")
    && (eventType == CredentialCreated ==> title == Text.IntText(count) + " new credentials")
    && (eventType == ChecklistToggled ==> title == before + " (+" + Text.IntText(count - 1) + " more)")
  }

  /** Once an event with vars and a locale has been folded in, the title is rendered for the whole group. */
  lemma FoldedTitle(titleFor: TitleFor, group: Log)
    requires |group| > 1 && StartCount(group[0].item) == 1
    requires var e := group[|group| - 1].item; e.vars.Some? && Truthy(e.locale)
    ensures var l, e := LineOf(titleFor, group), group[|group| - 1].item;
            l.title == titleFor(group[|group| - 1].item.eventType, e.locale.value, e.vars.value, |group|)
  {
    var n := |group| - 1;
    LineCount(titleFor, group[..n]);
    CoalescedTitle(titleFor, LineOf(titleFor, group[..n]), group[n].item);
  }

  lemma CoalescedTitle(titleFor: TitleFor, l: Line, e: Item)
    requires e.vars.Some? && Truthy(e.locale)
    ensures Coalesced(titleFor, l, e).title == titleFor(e.eventType, e.locale.value, e.vars.value, CountOf(l) + 1)
  {
  }

  /** The caller's metadata has no `count` of its own, or the one that a single event gets anyway. */
  predicate CountsOnce(e: Item) {
    e.metadata.count.None? || e.metadata.count == Some(1)
  }

  /** `metadata.count` equals the group size exactly when the first event brings no other `count`. */
  lemma CountIsGroupSize(titleFor: TitleFor, group: Log)
    requires group != []
    ensures CountOf(LineOf(titleFor, group)) == |group| <==> CountsOnce(group[0].item)
  {
    LineCount(titleFor, group);
  }

  lemma LineForKey(titleFor: TitleFor, log: Log, h: Event)
    requires h in log
    ensures LineKey(LineFor(titleFor, log, h)) == ItemKey(h.item)
    ensures LineFor(titleFor, log, h).recipient == h.item.recipient
    ensures LineFor(titleFor, log, h).eventType == h.item.eventType
  {
    MembersNonEmpty(log, h);
    LineCount(titleFor, Members(log, h));
    assert Members(log, h)[0] in Members(log, h);
    var l := LineFor(titleFor, log, h);
    assert LineKey(l).recipient == l.recipient && LineKey(l).eventType == l.eventType;
  }

  // ----- Heads -----

  lemma HeadsGrow(log: Log, i: nat)
    requires log != [] && i < |Heads(log[..|log| - 1])|
    ensures i < |Heads(log)| && Heads(log)[i] == Heads(log[..|log| - 1])[i]
  {
  }

  /** Every coalescing event has a head of its key. */
  lemma {:induction false} KeyHead(log: Log, e: Event) returns (i: nat)
    requires e in log && Coalesces(e.item.eventType)
    ensures i < |Heads(log)| && ItemKey(Heads(log)[i].item) == ItemKey(e.item)
  {
    var n := |log| - 1;
    if e in log[..n] {
      i := KeyHead(log[..n], e);
      HeadsGrow(log, i);
    } else if Opens(log[..n], e) {
      i := |Heads(log)| - 1;
    } else {
      var x :| x in log[..n] && ItemKey(x.item) == ItemKey(e.item);
      SameKeySameType(x, e);
      i := KeyHead(log[..n], x);
      HeadsGrow(log, i);
    }
  }

  predicate EventsApart(a: Event, b: Event) {
    Coalesces(a.item.eventType) ==> ItemKey(a.item) != ItemKey(b.item)
  }

  /** No two heads of coalescing events share a key. */
  lemma {:induction false} HeadsApart(log: Log)
    ensures Pairwise(Heads(log), EventsApart)
  {
    if log != [] {
      var n := |log| - 1;
      HeadsApart(log[..n]);
      forall i | 0 <= i < |Heads(log[..n])| && Opens(log[..n], log[n])
        ensures EventsApart(Heads(log[..n])[i], log[n])
      {
        var h := Heads(log[..n])[i];
        assert h in log[..n];
        assert ItemKey(h.item) == ItemKey(log[n].item) ==> h.item.eventType == log[n].item.eventType;
      }
    }
  }

  // ----- One more event -----

  lemma MembersSnoc(log: Log, e: Event, h: Event)
    ensures Members(log + [e], h) ==
            if Coalesces(h.item.eventType) && ItemKey(e.item) == ItemKey(h.item)
            then Members(log, h) + [e] else Members(log, h)
  {
    FilterSnoc(log, e, Sharing(ItemKey(h.item)));
  }

  lemma LineForSnoc(titleFor: TitleFor, log: Log, e: Event, h: Event)
    requires h in log
    ensures LineFor(titleFor, log + [e], h) ==
            if Coalesces(h.item.eventType) && ItemKey(e.item) == ItemKey(h.item)
            then Coalesced(titleFor, LineFor(titleFor, log, h), e.item) else LineFor(titleFor, log, h)
  {
    MembersSnoc(log, e, h);
    MembersNonEmpty(log, h);
    assert (Members(log, h) + [e])[..|Members(log, h)|] == Members(log, h);
  }

  lemma {:induction false} NoneSharing(log: Log, k: Key)
    requires forall x :: x in log ==> ItemKey(x.item) != k
    ensures Filter(log, Sharing(k)) == []
  {
    if log != [] {
      NoneSharing(log[..|log| - 1], k);
    }
  }

  /** The event that opens a line is so far the only one in it. */
  lemma OpenerIsAlone(log: Log, e: Event)
    requires Opens(log, e)
    ensures Members(log + [e], e) == [e]
  {
    MembersSnoc(log, e, e);
    if Coalesces(e.item.eventType) {
      NoneSharing(log, ItemKey(e.item));
    }
  }

  /** An event that opens a line leaves the other lines alone. */
  lemma LineForOpens(titleFor: TitleFor, log: Log, e: Event, h: Event)
    requires Opens(log, e) && h in log
    ensures LineFor(titleFor, log + [e], h) == LineFor(titleFor, log, h)
  {
    LineForSnoc(titleFor, log, e, h);
    SameKeySameType(e, h);
  }

  /** An event that opens a line appends it and changes no other. */
  lemma ViewSnocOpens(titleFor: TitleFor, log: Log, e: Event)
    requires Opens(log, e)
    ensures View(titleFor, log + [e]) == View(titleFor, log) + [FreshLine(e.item, e.at)]
  {
    assert (log + [e])[..|log|] == log;
    var heads := Heads(log);
    assert Heads(log + [e]) == heads + [e];
    forall h | h in heads ensures LineFor(titleFor, log + [e], h) == LineFor(titleFor, log, h) {
      LineForOpens(titleFor, log, e, h);
    }
    LinesAgree(titleFor, log + [e], log, heads);
    LinesSnoc(titleFor, log + [e], heads, e);
    OpenerIsAlone(log, e);
  }

  lemma LinesSnoc(titleFor: TitleFor, log: Log, heads: Log, h: Event)
    requires h in log && forall x :: x in heads ==> x in log
    ensures Lines(titleFor, log, heads + [h]) == Lines(titleFor, log, heads) + [LineFor(titleFor, log, h)]
  {
    assert (heads + [h])[..|heads|] == heads;
  }

  /** Where the heads have the same lines in two logs, the lists of lines are the same. */
  lemma {:induction false} LinesAgree(titleFor: TitleFor, log: Log, log': Log, heads: Log)
    requires forall h :: h in heads ==> h in log && h in log'
    requires forall h :: h in heads ==> LineFor(titleFor, log, h) == LineFor(titleFor, log', h)
    ensures Lines(titleFor, log, heads) == Lines(titleFor, log', heads)
  {
    if heads != [] {
      assert heads[|heads| - 1] in heads;
      LinesAgree(titleFor, log, log', heads[..|heads| - 1]);
    }
  }

  /** What one more event does to the line of head `j`, when `i` is the head of the event's key. */
  lemma LineForFolds(titleFor: TitleFor, log: Log, e: Event, i: nat, j: nat)
    requires i < |Heads(log)| && j < |Heads(log)|
    requires Coalesces(e.item.eventType) && ItemKey(Heads(log)[i].item) == ItemKey(e.item)
    ensures LineFor(titleFor, log + [e], Heads(log)[j]) ==
            if j == i then Coalesced(titleFor, LineFor(titleFor, log, Heads(log)[j]), e.item)
            else LineFor(titleFor, log, Heads(log)[j])
  {
    var heads := Heads(log);
    assert heads[j] in log;
    SameKeySameType(heads[i], e);
    SameKeySameType(heads[j], e);
    HeadsApart(log);
    assert i < j ==> EventsApart(heads[i], heads[j]);
    assert j < i ==> EventsApart(heads[j], heads[i]);
    LineForSnoc(titleFor, log, e, heads[j]);
  }

  lemma SameKeySameType(a: Event, b: Event)
    ensures ItemKey(a.item) == ItemKey(b.item) ==>
              a.item.eventType == b.item.eventType && a.item.recipient == b.item.recipient
  {
    assert ItemKey(a.item).eventType == a.item.eventType && ItemKey(a.item).recipient == a.item.recipient;
    assert ItemKey(b.item).eventType == b.item.eventType && ItemKey(b.item).recipient == b.item.recipient;
  }

  lemma HeadOfKey(log: Log, e: Event) returns (i: nat)
    requires !Opens(log, e)
    ensures i < |Heads(log)| && ItemKey(Heads(log)[i].item) == ItemKey(e.item)
    ensures Coalesces(e.item.eventType)
  {
    var x :| x in log && ItemKey(x.item) == ItemKey(e.item);
    SameKeySameType(x, e);
    i := KeyHead(log, x);
  }

  /** An event that does not open a line changes exactly the line of its key. */
  lemma ViewSnocFolds(titleFor: TitleFor, log: Log, e: Event) returns (i: nat)
    requires !Opens(log, e)
    ensures i < |Heads(log)| && LineKey(View(titleFor, log)[i]) == ItemKey(e.item)
    ensures View(titleFor, log + [e]) ==
            View(titleFor, log)[i := Coalesced(titleFor, View(titleFor, log)[i], e.item)]
  {
    assert (log + [e])[..|log|] == log;
    i := HeadOfKey(log, e);
    ViewAt(titleFor, log, i);
    LineForKey(titleFor, log, Heads(log)[i]);
    forall j | 0 <= j < |Heads(log)|
      ensures LineFor(titleFor, log + [e], Heads(log)[j]) ==
              if j == i then Coalesced(titleFor, LineFor(titleFor, log, Heads(log)[j]), e.item)
              else LineFor(titleFor, log, Heads(log)[j])
    {
      LineForFolds(titleFor, log, e, i, j);
    }
    LinesUpdated(titleFor, log, log + [e], Heads(log), i, Coalesced(titleFor, View(titleFor, log)[i], e.item));
  }

  lemma LinesUpdated(titleFor: TitleFor, log: Log, log': Log, heads: Log, i: nat, l: Line)
    requires i < |heads| && forall h :: h in heads ==> h in log && h in log'
    requires forall j :: 0 <= j < |heads| ==>
               LineFor(titleFor, log', heads[j]) == if j == i then l else LineFor(titleFor, log, heads[j])
    ensures Lines(titleFor, log', heads) == Lines(titleFor, log, heads)[i := l]
  {
    forall j | 0 <= j < |heads|
      ensures Lines(titleFor, log', heads)[j] == Lines(titleFor, log, heads)[i := l][j]
    {
      LinesAt(titleFor, log, heads, j);
      LinesAt(titleFor, log', heads, j);
    }
  }

  // ----- Draining one recipient -----

  /** Other recipients' events do not decide whether an event opens a line. */
  lemma OpensDrain(log: Log, e: Event, r: Recipient)
    requires e.item.recipient != r
    ensures Opens(Filter(log, NotOfRecipient(r)), e) <==> Opens(log, e)
  {
    forall x | x in log && ItemKey(x.item) == ItemKey(e.item) ensures x in Filter(log, NotOfRecipient(r)) {
      SameKeySameType(x, e);
      assert NotOfRecipient(r)(x);
    }
  }

  lemma {:induction false} HeadsDrain(log: Log, r: Recipient)
    ensures Heads(Filter(log, NotOfRecipient(r))) == Filter(Heads(log), NotOfRecipient(r))
  {
    if log != [] {
      var n := |log| - 1;
      var keep := NotOfRecipient(r);
      HeadsDrain(log[..n], r);
      var rest := Filter(log[..n], keep);
      if Opens(log[..n], log[n]) {
        FilterSnoc(Heads(log[..n]), log[n], keep);
      }
      if keep(log[n]) {
        assert (rest + [log[n]])[..|rest|] == rest;
        OpensDrain(log[..n], log[n], r);
      }
    }
  }

  lemma {:induction false} MembersDrain(log: Log, r: Recipient, h: Event)
    requires h.item.recipient != r
    ensures Members(Filter(log, NotOfRecipient(r)), h) == Members(log, h)
  {
    if log != [] && Coalesces(h.item.eventType) {
      var n := |log| - 1;
      MembersDrain(log[..n], r, h);
      assert Sharing(ItemKey(h.item))(log[n]) ==> ItemKey(log[n].item).recipient == h.item.recipient;
      FilterSnoc(Filter(log[..n], NotOfRecipient(r)), log[n], Sharing(ItemKey(h.item)));
    }
  }

  function LineNotOf(r: Recipient): Line -> bool {
    (l: Line) => l.recipient != r
  }

  lemma {:induction false} LinesFilter(titleFor: TitleFor, log: Log, heads: Log, r: Recipient)
    requires forall h :: h in heads ==> h in log
    ensures forall h :: h in Filter(heads, NotOfRecipient(r)) ==> h in log
    ensures Filter(Lines(titleFor, log, heads), LineNotOf(r)) ==
            Lines(titleFor, log, Filter(heads, NotOfRecipient(r)))
  {
    if heads != [] {
      var n := |heads| - 1;
      var kept := Filter(heads[..n], NotOfRecipient(r));
      var l := LineFor(titleFor, log, heads[n]);
      assert heads[n] in heads;
      LineForKey(titleFor, log, heads[n]);
      LinesFilter(titleFor, log, heads[..n], r);
      FilterSnoc(Lines(titleFor, log, heads[..n]), l, LineNotOf(r));
      if heads[n].item.recipient != r {
        assert (kept + [heads[n]])[..|kept|] == kept;
        assert Lines(titleFor, log, kept + [heads[n]]) == Lines(titleFor, log, kept) + [l];
      }
    }
  }

  lemma LineForDrain(titleFor: TitleFor, log: Log, r: Recipient, h: Event)
    requires h in log && h.item.recipient != r
    ensures h in Filter(log, NotOfRecipient(r))
    ensures LineFor(titleFor, Filter(log, NotOfRecipient(r)), h) == LineFor(titleFor, log, h)
  {
    assert NotOfRecipient(r)(h);
    MembersDrain(log, r, h);
  }

  /** Draining a recipient's events from the log drops exactly the recipient's lines. */
  lemma ViewDrain(titleFor: TitleFor, log: Log, r: Recipient)
    ensures View(titleFor, Filter(log, NotOfRecipient(r))) == Filter(View(titleFor, log), LineNotOf(r))
  {
    var rest := Filter(log, NotOfRecipient(r));
    var heads := Filter(Heads(log), NotOfRecipient(r));
    HeadsDrain(log, r);
    LinesFilter(titleFor, log, Heads(log), r);
    forall h | h in heads ensures h in rest && LineFor(titleFor, rest, h) == LineFor(titleFor, log, h) {
      assert NotOfRecipient(r)(h);
      LineForDrain(titleFor, log, r, h);
    }
    LinesAgree(titleFor, rest, log, heads);
  }
}
