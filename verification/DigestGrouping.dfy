/** How the worker lays out a drained recipient's items: `groupBuckets` and `groupItemsByCustomer`. */
module DigestGrouping {
  import opened Wrappers
  import opened Seqs
  import opened Digest

  datatype Buckets = Buckets(action: seq<Row>, fyi: seq<Row>)

  datatype Group = Group(name: string, action: seq<Row>, fyi: seq<Row>)

  function InBucket(b: Bucket): Row -> bool {
    (row: Row) => row.line.bucket == b
  }

  function GroupBuckets(items: seq<Row>): Buckets {
    Buckets(Filter(items, InBucket(ActionRequired)), Filter(items, InBucket(Fyi)))
  }

  /** The two buckets share out the items: each is in exactly one, in its old order. */
  lemma {:induction false} BucketsPartition(items: seq<Row>)
    ensures multiset(GroupBuckets(items).action) + multiset(GroupBuckets(items).fyi) == multiset(items)
    ensures forall row :: row in GroupBuckets(items).action ==> row.line.bucket == ActionRequired
    ensures forall row :: row in GroupBuckets(items).fyi ==> row.line.bucket == Fyi
  {
    if items != [] {
      BucketsPartition(items[..|items| - 1]);
      assert items == items[..|items| - 1] + [items[|items| - 1]];
    }
  }

  /** The heading of an item: the customer's name, or 'Other' when the lookup does not know it. */
  function Heading(names: map<nat, string>, row: Row): Option<string> {
    match row.line.customer
    case None => None
    case Some(c) => Some(if c in names then names[c] else "Other")
  }

  function Under(names: map<nat, string>, heading: Option<string>, b: Bucket): Row -> bool {
    (row: Row) => Heading(names, row) == heading && row.line.bucket == b
  }

  function GroupUnder(names: map<nat, string>, items: seq<Row>, name: string): Group {
    Group(name, Filter(items, Under(names, Some(name), ActionRequired)), Filter(items, Under(names, Some(name), Fyi)))
  }

  /** A total preorder on names, standing for `localeCompare`. */
  ghost predicate IsOrder(leq: (string, string) -> bool) {
    && (forall a, b :: leq(a, b) || leq(b, a))
    && (forall a, b, c :: leq(a, b) && leq(b, c) ==> leq(a, c))
  }

  ghost predicate SortedNames(groups: seq<Group>, leq: (string, string) -> bool) {
    forall i, j :: 0 <= i < j < |groups| ==> leq(groups[i].name, groups[j].name)
  }

  /** Insert after every group whose name is not greater, which keeps equal names in order. */
  function InsertGroup(groups: seq<Group>, g: Group, leq: (string, string) -> bool): (r: seq<Group>)
    ensures multiset(r) == multiset(groups) + multiset{g}
  {
    if groups == [] || leq(groups[|groups| - 1].name, g.name) then groups + [g]
    else
      var n := |groups| - 1;
      assert groups == groups[..n] + [groups[n]];
      InsertGroup(groups[..n], g, leq) + [groups[n]]
  }

  function SortGroups(groups: seq<Group>, leq: (string, string) -> bool): (r: seq<Group>)
    ensures multiset(r) == multiset(groups)
  {
    if groups == [] then []
    else
      var n := |groups| - 1;
      assert groups == groups[..n] + [groups[n]];
      InsertGroup(SortGroups(groups[..n], leq), groups[n], leq)
  }

  lemma SortedSnoc(groups: seq<Group>, g: Group, leq: (string, string) -> bool)
    requires SortedNames(groups, leq) && forall i :: 0 <= i < |groups| ==> leq(groups[i].name, g.name)
    ensures SortedNames(groups + [g], leq)
  {
  }

  /** A name that the last group's does not exceed is exceeded by none. */
  lemma LastIsTop(groups: seq<Group>, name: string, leq: (string, string) -> bool)
    requires IsOrder(leq) && SortedNames(groups, leq) && groups != [] && leq(groups[|groups| - 1].name, name)
    ensures forall i :: 0 <= i < |groups| ==> leq(groups[i].name, name)
  {
    forall i | 0 <= i < |groups| - 1 ensures leq(groups[i].name, name) {
      assert leq(groups[i].name, groups[|groups| - 1].name);
    }
  }

  lemma {:induction false} InsertedBelow(groups: seq<Group>, g: Group, name: string, leq: (string, string) -> bool)
    requires leq(g.name, name) && forall i :: 0 <= i < |groups| ==> leq(groups[i].name, name)
    ensures forall i :: 0 <= i < |InsertGroup(groups, g, leq)| ==> leq(InsertGroup(groups, g, leq)[i].name, name)
  {
    if groups != [] {
      InsertedBelow(groups[..|groups| - 1], g, name, leq);
    }
  }

  lemma {:induction false} InsertGroupSorted(groups: seq<Group>, g: Group, leq: (string, string) -> bool)
    requires IsOrder(leq) && SortedNames(groups, leq)
    ensures SortedNames(InsertGroup(groups, g, leq), leq)
  {
    if groups == [] {
    } else if leq(groups[|groups| - 1].name, g.name) {
      LastIsTop(groups, g.name, leq);
      SortedSnoc(groups, g, leq);
    } else {
      var n := |groups| - 1;
      InsertGroupSorted(groups[..n], g, leq);
      assert leq(g.name, groups[n].name);
      InsertedBelow(groups[..n], g, groups[n].name, leq);
      SortedSnoc(InsertGroup(groups[..n], g, leq), groups[n], leq);
    }
  }

  lemma {:induction false} SortGroupsSorted(groups: seq<Group>, leq: (string, string) -> bool)
    requires IsOrder(leq)
    ensures SortedNames(SortGroups(groups, leq), leq)
  {
    if groups != [] {
      SortGroupsSorted(groups[..|groups| - 1], leq);
      InsertGroupSorted(SortGroups(groups[..|groups| - 1], leq), groups[|groups| - 1], leq);
    }
  }

  ghost predicate DistinctNames(groups: seq<Group>) {
    forall i, j :: 0 <= i < j < |groups| ==> groups[i].name != groups[j].name
  }

  /** Some item goes under the heading `name`. */
  ghost predicate Present(names: map<nat, string>, items: seq<Row>, name: string) {
    exists row :: row in items && Heading(names, row) == Some(name)
  }

  ghost predicate HasName(groups: seq<Group>, name: string) {
    exists i :: 0 <= i < |groups| && groups[i].name == name
  }

  /** The groups are those of the items' headings, one per heading, each with all its items in order. */
  ghost predicate GroupsOf(names: map<nat, string>, items: seq<Row>, groups: seq<Group>) {
    && DistinctNames(groups)
    && (forall g :: g in groups ==> g == GroupUnder(names, items, g.name))
    && (forall name :: Present(names, items, name) <==> HasName(groups, name))
  }

  function Pushed(g: Group, row: Row): Group {
    if row.line.bucket == ActionRequired then g.(action := g.action + [row]) else g.(fyi := g.fyi + [row])
  }

  /** Push the row onto the group called `name`, which is added first if the map has none. */
  method PushUnder(groups: seq<Group>, name: string, row: Row) returns (after: seq<Group>, k: nat)
    ensures k <= |groups| && |after| == (if k < |groups| then |groups| else k + 1)
    ensures if k < |groups| then groups[k].name == name && after[k] == Pushed(groups[k], row)
            else !HasName(groups, name) && after[k] == Pushed(Group(name, [], []), row)
    ensures forall i :: 0 <= i < |groups| && i != k ==> after[i] == groups[i]
  {
    var j := 0;
    while j < |groups| && groups[j].name != name
      invariant j <= |groups|
      invariant forall i :: 0 <= i < j ==> groups[i].name != name
    {
      j := j + 1;
    }
    k := j;
    after := if j == |groups| then groups + [Group(name, [], [])] else groups;
    after := after[j := Pushed(after[j], row)];
  }

  lemma GroupUnderSnoc(names: map<nat, string>, items: seq<Row>, row: Row, name: string)
    ensures var g := GroupUnder(names, items, name);
            GroupUnder(names, items + [row], name) ==
            if Heading(names, row) == Some(name) then Pushed(g, row) else g
  {
    FilterSnoc(items, row, Under(names, Some(name), ActionRequired));
    FilterSnoc(items, row, Under(names, Some(name), Fyi));
  }

  lemma PresentSnoc(names: map<nat, string>, items: seq<Row>, row: Row, name: string)
    ensures Present(names, items + [row], name) <==> Present(names, items, name) || Heading(names, row) == Some(name)
  {
    assert row in items + [row];
    if x :| x in items && Heading(names, x) == Some(name) {
      assert x in items + [row];
    }
  }

  /** The groups after an item whose heading is the one of group `k`, or a new one when `k` is past the end. */
  lemma GroupsSnoc(names: map<nat, string>, items: seq<Row>, groups: seq<Group>, row: Row, k: nat, after: seq<Group>)
    requires GroupsOf(names, items, groups)
    requires Heading(names, row).Some? && k <= |groups|
    requires k < |groups| ==> groups[k].name == Heading(names, row).value
    requires k == |groups| ==> !HasName(groups, Heading(names, row).value)
    requires |after| == (if k < |groups| then |groups| else k + 1)
    requires after[k] == GroupUnder(names, items + [row], Heading(names, row).value)
    requires forall i :: 0 <= i < |groups| && i != k ==> after[i] == groups[i]
    ensures GroupsOf(names, items + [row], after)
  {
    forall g | g in after ensures g == GroupUnder(names, items + [row], g.name) {
      var i :| 0 <= i < |after| && after[i] == g;
      if i != k {
        assert groups[i] in groups;
        GroupUnderSnoc(names, items, row, g.name);
      }
    }
    forall name ensures Present(names, items + [row], name) <==> HasName(after, name) {
      PresentSnoc(names, items, row, name);
      if i :| 0 <= i < |groups| && groups[i].name == name {
        assert after[i].name == name;
      }
      if i :| 0 <= i < |after| && after[i].name == name {
        assert i == k || groups[i].name == name;
      }
    }
  }

  /** The items of no customer, by bucket. */
  function SystemOf(names: map<nat, string>, items: seq<Row>): Buckets {
    Buckets(Filter(items, Under(names, None, ActionRequired)), Filter(items, Under(names, None, Fyi)))
  }

  function PushedSystem(b: Buckets, row: Row): Buckets {
    if row.line.bucket == ActionRequired then b.(action := b.action + [row]) else b.(fyi := b.fyi + [row])
  }

  lemma SystemSnoc(names: map<nat, string>, items: seq<Row>, row: Row)
    ensures var b := SystemOf(names, items);
            SystemOf(names, items + [row]) == if Heading(names, row).None? then PushedSystem(b, row) else b
  {
    FilterSnoc(items, row, Under(names, None, ActionRequired));
    FilterSnoc(items, row, Under(names, None, Fyi));
  }

  /** The unsorted map and the system buckets after the first items. */
  ghost predicate Collected(names: map<nat, string>, items: seq<Row>, groups: seq<Group>, system: Buckets) {
    GroupsOf(names, items, groups) && system == SystemOf(names, items)
  }

  /** The loop body: one item goes to its customer's group or to the system buckets. */
  method PlaceItem(names: map<nat, string>, ghost items: seq<Row>, row: Row, groups: seq<Group>, system: Buckets)
    returns (groups': seq<Group>, system': Buckets)
    requires Collected(names, items, groups, system)
    ensures Collected(names, items + [row], groups', system')
  {
    groups', system' := groups, system;
    SystemSnoc(names, items, row);
    if Heading(names, row).Some? {
      var k;
      groups', k := PushUnder(groups, Heading(names, row).value, row);
      PushedIsNext(names, items, groups, row, k, groups');
    } else {
      HeadlessKeepsGroups(names, items, groups, row);
      system' := PushedSystem(system, row);
    }
  }

  method CollectGroups(items: seq<Row>, names: map<nat, string>) returns (groups: seq<Group>, system: Buckets)
    ensures Collected(names, items, groups, system)
  {
    groups, system := [], Buckets([], []);
    for n := 0 to |items|
      invariant Collected(names, items[..n], groups, system)
    {
      assert items[..n + 1] == items[..n] + [items[n]];
      groups, system := PlaceItem(names, items[..n], items[n], groups, system);
    }
    assert items[..|items|] == items;
  }

  method GroupItemsByCustomer(items: seq<Row>, names: map<nat, string>, leq: (string, string) -> bool)
    returns (byCustomer: seq<Group>, system: Buckets)
    requires IsOrder(leq)
    ensures GroupsOf(names, items, byCustomer) && SortedNames(byCustomer, leq)
    ensures system == SystemOf(names, items)
  {
    var groups;
    groups, system := CollectGroups(items, names);
    byCustomer := SortGroups(groups, leq);
    SortGroupsSorted(groups, leq);
    SameGroups(names, items, groups, byCustomer);
  }

  /** An item is shown once: under its heading's group and no other, or among the system items. */
  lemma ItemPlacedOnce(names: map<nat, string>, items: seq<Row>, groups: seq<Group>, row: Row)
    requires GroupsOf(names, items, groups) && row in items
    ensures var system, c := SystemOf(names, items), row.line.customer;
            row in system.action + system.fyi <==> c.None?
    ensures var c := row.line.customer;
            && (forall i :: 0 <= i < |groups| ==>
                  (row in groups[i].action + groups[i].fyi <==>
                   c.Some? && groups[i].name == if c.value in names then names[c.value] else "Other"))
            && (c.Some? ==> exists i :: 0 <= i < |groups| && row in groups[i].action + groups[i].fyi)
  {
    var heading, b := Heading(names, row), row.line.bucket;
    assert Under(names, heading, b)(row);
    forall i | 0 <= i < |groups|
      ensures row in groups[i].action + groups[i].fyi <==> heading == Some(groups[i].name)
    {
      InGroupIff(names, items, groups, i, row);
    }
    if heading.Some? {
      assert Present(names, items, heading.value);
      assert HasName(groups, heading.value);
      var i :| 0 <= i < |groups| && groups[i].name == heading.value;
      assert row in groups[i].action + groups[i].fyi;
    }
  }

  lemma InGroupIff(names: map<nat, string>, items: seq<Row>, groups: seq<Group>, i: nat, row: Row)
    requires GroupsOf(names, items, groups) && row in items && i < |groups|
    ensures row in groups[i].action + groups[i].fyi <==> Heading(names, row) == Some(groups[i].name)
  {
    assert groups[i] in groups;
    assert Under(names, Heading(names, row), row.line.bucket)(row);
  }

  /** Within a group, and among the system items, each item is in the list of its own bucket. */
  lemma ItemInItsBucket(names: map<nat, string>, items: seq<Row>, groups: seq<Group>, i: nat, row: Row)
    requires GroupsOf(names, items, groups) && i < |groups|
    ensures row in groups[i].action ==> row.line.bucket == ActionRequired
    ensures row in groups[i].fyi ==> row.line.bucket == Fyi
    ensures row in SystemOf(names, items).action ==> row.line.bucket == ActionRequired
    ensures row in SystemOf(names, items).fyi ==> row.line.bucket == Fyi
  {
    assert groups[i] in groups;
    assert groups[i] == GroupUnder(names, items, groups[i].name);
  }

  lemma {:induction false} NothingKept(items: seq<Row>, keep: Row -> bool)
    requires forall row :: row in items ==> !keep(row)
    ensures Filter(items, keep) == []
  {
    if items != [] {
      NothingKept(items[..|items| - 1], keep);
    }
  }

  lemma NoneUnder(names: map<nat, string>, items: seq<Row>, groups: seq<Group>, name: string)
    requires GroupsOf(names, items, groups) && !HasName(groups, name)
    ensures GroupUnder(names, items, name) == Group(name, [], [])
  {
    assert !Present(names, items, name);
    NothingKept(items, Under(names, Some(name), ActionRequired));
    NothingKept(items, Under(names, Some(name), Fyi));
  }

  lemma PushedIsNext(names: map<nat, string>, items: seq<Row>, groups: seq<Group>, row: Row, k: nat, after: seq<Group>)
    requires GroupsOf(names, items, groups) && Heading(names, row).Some? && k <= |groups|
    requires |after| == (if k < |groups| then |groups| else k + 1)
    requires var name := Heading(names, row).value;
             if k < |groups| then groups[k].name == name && after[k] == Pushed(groups[k], row)
             else !HasName(groups, name) && after[k] == Pushed(Group(name, [], []), row)
    requires forall i :: 0 <= i < |groups| && i != k ==> after[i] == groups[i]
    ensures GroupsOf(names, items + [row], after)
  {
    var name := Heading(names, row).value;
    GroupUnderSnoc(names, items, row, name);
    if k < |groups| {
      assert groups[k] in groups;
    } else {
      NoneUnder(names, items, groups, name);
    }
    GroupsSnoc(names, items, groups, row, k, after);
  }

  lemma HeadlessKeepsGroups(names: map<nat, string>, items: seq<Row>, groups: seq<Group>, row: Row)
    requires GroupsOf(names, items, groups) && Heading(names, row).None?
    ensures GroupsOf(names, items + [row], groups)
  {
    forall g | g in groups ensures g == GroupUnder(names, items + [row], g.name) {
      GroupUnderSnoc(names, items, row, g.name);
    }
    forall name ensures Present(names, items + [row], name) <==> Present(names, items, name) {
      PresentSnoc(names, items, row, name);
    }
  }

  /** Sorting permutes the groups, so they stay the groups of the items. */
  lemma SameGroups(names: map<nat, string>, items: seq<Row>, groups: seq<Group>, sorted: seq<Group>)
    requires GroupsOf(names, items, groups) && multiset(sorted) == multiset(groups)
    ensures GroupsOf(names, items, sorted)
  {
    forall g | g in sorted ensures g in groups {
      assert g in multiset(sorted);
    }
    forall name ensures HasName(groups, name) <==> HasName(sorted, name) {
      if k :| 0 <= k < |groups| && groups[k].name == name {
        assert groups[k] in multiset(sorted);
        var i :| 0 <= i < |sorted| && sorted[i] == groups[k];
      }
      if k :| 0 <= k < |sorted| && sorted[k].name == name {
        assert sorted[k] in groups;
      }
    }
    forall i, j | 0 <= i < j < |sorted|
      ensures sorted[i].name != sorted[j].name
    {
      if sorted[i].name == sorted[j].name {
        assert sorted[i] in groups && sorted[j] in groups;
        assert sorted[i] == sorted[j];
        Twice(sorted, i, j);
        assert multiset(groups)[sorted[i]] >= 2;
        Occurs(groups, sorted[i]);
      }
    }
  }

  lemma Twice(s: seq<Group>, i: nat, j: nat)
    requires i < j < |s| && s[i] == s[j]
    ensures multiset(s)[s[i]] >= 2
  {
    assert s == s[..i] + [s[i]] + s[i + 1..j] + [s[j]] + s[j + 1..];
  }

  lemma {:induction false} Occurs(s: seq<Group>, g: Group)
    requires DistinctNames(s)
    ensures multiset(s)[g] <= 1
  {
    if s != [] {
      var n := |s| - 1;
      Occurs(s[..n], g);
      assert s == s[..n] + [s[n]];
      assert forall x :: x in s[..n] ==> x.name != s[n].name;
    }
  }
}
