/** Project phases: creation, the two reorder operations, status changes and deletion over one `display_order`. */
module Phases {
  import opened Wrappers
  import opened Seqs
  import Text

  datatype Status = NotStarted | InProgress | Blocked | Done

  /** A `project_phases` row without its primary key; `name` is the label. */
  datatype Phase = Phase(project: nat, name: string, order: int, status: Status,
                         startedAt: Option<nat>, completedAt: Option<nat>)

  type Rows = map<nat, Phase>

  datatype Error =
    | PhaseNotFound
    | LabelConflict
    | LabelInvalid
    | StatusInvalid
    | DirectionInvalid
    | ReorderEdge
    | OrderOutOfRange
    | CrossCustomer

  const STATUS_GAP: int := 100

  /** Within a project both the label and the order are keys. */
  predicate Apart(a: Phase, b: Phase) {
    a.project == b.project ==> a.name != b.name && a.order != b.order
  }

  ghost predicate Valid(rows: Rows) {
    forall a, b :: a in rows && b in rows && a != b ==> Apart(rows[a], rows[b])
  }

  // ----- The sorted list of a project -----

  predicate In(rows: Rows, project: nat, id: nat) {
    id in rows && rows[id].project == project
  }

  predicate Precedes(rows: Rows, a: nat, b: nat) {
    a in rows && b in rows && rows[a].order < rows[b].order
  }

  /** `s` lists exactly the phases of the project, by strictly increasing order. */
  ghost predicate Lists(rows: Rows, project: nat, s: seq<nat>) {
    && (forall id :: id in s <==> In(rows, project, id))
    && (forall i, j :: 0 <= i < j < |s| ==> Precedes(rows, s[i], s[j]))
  }

  /** Two lists of the same phases, both by increasing order, are equal. */
  lemma {:induction false} RankedUnique(rows: Rows, s: seq<nat>, t: seq<nat>)
    requires forall id :: id in s <==> id in t
    requires forall i, j :: 0 <= i < j < |s| ==> Precedes(rows, s[i], s[j])
    requires forall i, j :: 0 <= i < j < |t| ==> Precedes(rows, t[i], t[j])
    ensures s == t
  {
    if s == [] {
      assert NoDup(t) && Elements(t) == {};
      NoDupSize(t);
    } else {
      assert s[|s| - 1] in t;
      var m, n := |s| - 1, |t| - 1;
      assert t[n] in s;
      assert s[m] == t[n];
      assert forall id :: id in s[..m] <==> id in s && id != s[m];
      assert forall id :: id in t[..n] <==> id in t && id != t[n];
      RankedUnique(rows, s[..m], t[..n]);
    }
  }

  /** There is at most one such list. */
  lemma ListsUnique(rows: Rows, project: nat, s: seq<nat>, t: seq<nat>)
    requires Lists(rows, project, s) && Lists(rows, project, t)
    ensures s == t
  {
    RankedUnique(rows, s, t);
  }

  lemma {:induction false} ListExists(rows: Rows, project: nat, ids: set<nat>) returns (s: seq<nat>)
    requires Valid(rows) && forall id :: id in ids ==> In(rows, project, id)
    ensures forall id :: id in s <==> id in ids
    ensures forall i, j :: 0 <= i < j < |s| ==> Precedes(rows, s[i], s[j])
    decreases |ids|
  {
    if ids == {} {
      s := [];
    } else {
      var first := LeastExists(ids, (id: nat) => if id in rows then rows[id].order else 0);
      var rest := ListExists(rows, project, ids - {first});
      s := [first] + rest;
      forall id | id in rest ensures Precedes(rows, first, id) {
        assert Apart(rows[first], rows[id]);
      }
    }
  }

  lemma ListingExists(rows: Rows, project: nat)
    requires Valid(rows)
    ensures exists s :: Lists(rows, project, s)
  {
    var ids := set id | id in rows && In(rows, project, id);
    var s := ListExists(rows, project, ids);
    assert forall i :: 0 <= i < |s| ==> s[i] in s;
    assert Lists(rows, project, s);
  }

  /** `SELECT id ... WHERE project_id ORDER BY display_order` */
  ghost function Listing(rows: Rows, project: nat): (s: seq<nat>)
    requires Valid(rows)
    ensures Lists(rows, project, s)
  {
    ListingExists(rows, project);
    var s :| Lists(rows, project, s);
    s
  }

  /** Position of the phase in a list, or the length if it is not there. */
  function IndexOf(s: seq<nat>, id: nat): (k: nat)
    ensures k <= |s|
    ensures k < |s| ==> s[k] == id
    ensures k < |s| <==> id in s
    ensures forall i :: 0 <= i < k ==> s[i] != id
  {
    if s == [] || s[0] == id then 0 else 1 + IndexOf(s[1..], id)
  }

  // ----- What each operation does to the rows -----

  /** `UPDATE ... SET display_order = order WHERE id` */
  function SetOrder(rows: Rows, id: nat, order: int): Rows
    requires id in rows
  {
    rows[id := rows[id].(order := order)]
  }

  /** `COALESCE(MAX(display_order), 0)` over the project. */
  ghost predicate IsMaxOrder(rows: Rows, project: nat, max: int) {
    && (forall id :: In(rows, project, id) ==> rows[id].order <= max)
    && (if exists id :: In(rows, project, id)
        then exists id :: In(rows, project, id) && rows[id].order == max else max == 0)
  }

  predicate LabelTaken(rows: Rows, project: nat, name: string) {
    exists id :: id in rows && rows[id].project == project && rows[id].name == name
  }

  /** `a` and `b` exchange their orders. */
  function Exchanged(rows: Rows, a: nat, b: nat): Rows
    requires a in rows && b in rows
  {
    SetOrder(SetOrder(rows, a, rows[b].order), b, rows[a].order)
  }

  /** `reorder` of a phase that exists: exchange with its neighbour above or below. */
  ghost function Reordered(rows: Rows, id: nat, up: bool): Result<Rows, Error>
    requires Valid(rows) && id in rows
  {
    var all := Listing(rows, rows[id].project);
    var swap := IndexOf(all, id) + if up then -1 else 1;
    if swap < 0 || swap >= |all| then Err(ReorderEdge)
    else
      assert all[swap] in all;
      Ok(Exchanged(rows, id, all[swap]))
  }

  /** `filter(x => x !== id)`, then `splice(target, 0, id)`. */
  function MovedTo(s: seq<nat>, id: nat, target: nat): seq<nat>
    requires target <= |Filter(s, Other(id))|
  {
    Spliced(Filter(s, Other(id)), id, target)
  }

  function Other(id: nat): nat -> bool {
    (x: nat) => x != id
  }

  /** Every phase of `s` gets its position as order. */
  function Renumbered(rows: Rows, s: seq<nat>): (r: Rows)
    ensures r.Keys == rows.Keys
  {
    map id | id in rows :: if IndexOf(s, id) < |s| then rows[id].(order := IndexOf(s, id)) else rows[id]
  }

  /** The dates and status after `changeStatus` to a different status. */
  function Changed(p: Phase, status: Status, now: nat): Phase {
    match status
    case InProgress =>
      p.(status := status, startedAt := if p.startedAt.None? then Some(now) else p.startedAt, completedAt := None)
    case Done => p.(status := status, completedAt := if p.completedAt.None? then Some(now) else p.completedAt)
    case NotStarted => p.(status := status, startedAt := None, completedAt := None)
    case Blocked => p.(status := status, completedAt := None)
  }

  // ----- reorder -----

  /** The list after neighbours `k` and `k + 1` change places. */
  function SwappedAt(s: seq<nat>, k: nat): (r: seq<nat>)
    requires k + 1 < |s|
    ensures |r| == |s|
  {
    s[k := s[k + 1]][k + 1 := s[k]]
  }

  lemma ExchangedKeepsValid(rows: Rows, a: nat, b: nat)
    requires Valid(rows) && a in rows && b in rows && a != b && rows[a].project == rows[b].project
    ensures Valid(Exchanged(rows, a, b))
  {
    var after := Exchanged(rows, a, b);
    forall x, y | x in after && y in after && x != y ensures Apart(after[x], after[y]) {
      assert Apart(rows[x], rows[y]);
      assert x != a ==> Apart(rows[x], rows[a]);
      assert x != b ==> Apart(rows[x], rows[b]);
      assert y != a ==> Apart(rows[y], rows[a]);
      assert y != b ==> Apart(rows[y], rows[b]);
    }
  }

  lemma SwappedMembers(s: seq<nat>, k: nat, id: nat)
    requires k + 1 < |s|
    ensures id in SwappedAt(s, k) <==> id in s
  {
    var t := SwappedAt(s, k);
    if i :| 0 <= i < |s| && s[i] == id {
      assert t[if i == k then k + 1 else if i == k + 1 then k else i] == id;
    }
    if i :| 0 <= i < |t| && t[i] == id {
      assert s[if i == k then k + 1 else if i == k + 1 then k else i] == id;
    }
  }

  /** Rows of other projects are listed as before when none of them changed. */
  lemma OthersListedAlike(rows: Rows, after: Rows, project: nat, q: nat, t: seq<nat>)
    requires after.Keys == rows.Keys && q != project
    requires forall id :: id in rows ==> after[id].project == rows[id].project
    requires forall id :: id in rows && rows[id].project != project ==> after[id] == rows[id]
    ensures Lists(after, q, t) <==> Lists(rows, q, t)
  {
    if Lists(rows, q, t) || Lists(after, q, t) {
      assert forall id :: In(after, q, id) <==> In(rows, q, id);
      assert forall i :: 0 <= i < |t| ==> t[i] in t;
      forall i, j | 0 <= i < j < |t| ensures Precedes(after, t[i], t[j]) <==> Precedes(rows, t[i], t[j]) {
        assert In(rows, q, t[i]) && In(rows, q, t[j]);
      }
    }
  }

  lemma ExchangeLists(rows: Rows, project: nat, s: seq<nat>, k: nat)
    requires Lists(rows, project, s) && k + 1 < |s|
    ensures s[k] in rows && s[k + 1] in rows && s[k] != s[k + 1]
    ensures rows[s[k]].project == rows[s[k + 1]].project == project
    ensures Lists(Exchanged(rows, s[k], s[k + 1]), project, SwappedAt(s, k))
  {
    assert s[k] in s && s[k + 1] in s;
    assert Precedes(rows, s[k], s[k + 1]);
    var after, t := Exchanged(rows, s[k], s[k + 1]), SwappedAt(s, k);
    forall id ensures id in t <==> In(after, project, id) {
      SwappedMembers(s, k, id);
    }
    forall i | 0 <= i < |t| ensures t[i] in after && s[i] in rows && after[t[i]].order == rows[s[i]].order {
      assert t[i] in t && s[i] in s;
      assert i < k ==> Precedes(rows, s[i], s[k]) && Precedes(rows, s[i], s[k + 1]);
      assert i > k + 1 ==> Precedes(rows, s[k], s[i]) && Precedes(rows, s[k + 1], s[i]);
    }
    forall i, j | 0 <= i < j < |t| ensures Precedes(after, t[i], t[j]) {
      assert Precedes(rows, s[i], s[j]);
    }
  }

  /** Exchanging two neighbours of the listing swaps exactly those two places and nothing in other projects. */
  lemma ExchangeSwaps(rows: Rows, project: nat, s: seq<nat>, k: nat)
    requires Valid(rows) && Lists(rows, project, s) && k + 1 < |s|
    ensures s[k] in rows && s[k + 1] in rows
    ensures var after := Exchanged(rows, s[k], s[k + 1]);
            && Valid(after) && after == Exchanged(rows, s[k + 1], s[k])
            && Lists(after, project, SwappedAt(s, k))
            && forall q, t :: q != project ==> (Lists(after, q, t) <==> Lists(rows, q, t))
  {
    ExchangeLists(rows, project, s, k);
    ExchangedKeepsValid(rows, s[k], s[k + 1]);
    var after := Exchanged(rows, s[k], s[k + 1]);
    forall q, t | q != project ensures Lists(after, q, t) <==> Lists(rows, q, t) {
      OthersListedAlike(rows, after, project, q, t);
    }
  }

  /** The same about the listings themselves. */
  lemma ExchangeRelists(rows: Rows, p: nat, k: nat)
    requires Valid(rows) && k + 1 < |Listing(rows, p)|
    ensures var s := Listing(rows, p);
            && s[k] in rows && s[k + 1] in rows
            && var after := Exchanged(rows, s[k], s[k + 1]);
            && Valid(after) && after == Exchanged(rows, s[k + 1], s[k])
            && Listing(after, p) == SwappedAt(s, k)
            && forall q :: q != p ==> Listing(after, q) == Listing(rows, q)
  {
    var s := Listing(rows, p);
    ExchangeSwaps(rows, p, s, k);
    var after := Exchanged(rows, s[k], s[k + 1]);
    ListsUnique(after, p, Listing(after, p), SwappedAt(s, k));
    forall q | q != p ensures Listing(after, q) == Listing(rows, q) {
      ListsUnique(rows, q, Listing(after, q), Listing(rows, q));
    }
  }

  lemma ReorderedIsExchange(rows: Rows, id: nat, up: bool, s: seq<nat>, k: nat)
    requires Valid(rows) && id in rows && s == Listing(rows, rows[id].project) && k == IndexOf(s, id)
    requires k < |s| && if up then k > 0 else k + 1 < |s|
    ensures var j := if up then k - 1 else k;
            && s[j] in rows && s[j + 1] in rows && s[k] == id
            && Reordered(rows, id, up) ==
               Ok(if up then Exchanged(rows, s[j + 1], s[j]) else Exchanged(rows, s[j], s[j + 1]))
  {
    assert s[k - if up then 1 else 0] in s && s[k + if up then 0 else 1] in s;
  }

  /**
   `reorder` moves the phase one place: it fails only at the edge, and otherwise the listing is
   the old one with two neighbours swapped and other projects are listed as before.
   */
  lemma ReorderSwapsNeighbours(rows: Rows, id: nat, up: bool)
    requires Valid(rows) && id in rows
    ensures var p := rows[id].project;
            var s := Listing(rows, p);
            var k := IndexOf(s, id);
            var r := Reordered(rows, id, up);
            && k < |s|
            && (r.Err? <==> if up then k == 0 else k + 1 == |s|)
            && (r.Ok? ==> Valid(r.value))
            && (r.Ok? ==> Listing(r.value, p) == SwappedAt(s, if up then k - 1 else k))
            && (r.Ok? ==> forall q :: q != p ==> Listing(r.value, q) == Listing(rows, q))
  {
    var p := rows[id].project;
    var s := Listing(rows, p);
    var k := IndexOf(s, id);
    assert In(rows, p, id);
    if if up then k > 0 else k + 1 < |s| {
      ExchangeRelists(rows, p, if up then k - 1 else k);
      ReorderedIsExchange(rows, id, up, s, k);
    }
  }

  /** Moving a phase up and then down again leaves every row as it was. */
  lemma UpThenDown(rows: Rows, id: nat)
    requires Valid(rows) && id in rows && Reordered(rows, id, true).Ok?
    ensures var after := Reordered(rows, id, true).value;
            Valid(after) && id in after && Reordered(after, id, false) == Ok(rows)
  {
    var p := rows[id].project;
    var s := Listing(rows, p);
    var k := IndexOf(s, id);
    assert In(rows, p, id);
    ExchangeSwaps(rows, p, s, k - 1);
    ReorderSwapsNeighbours(rows, id, true);
    var above := s[k - 1];
    var after := Exchanged(rows, id, above);
    var t := SwappedAt(s, k - 1);
    assert Listing(after, p) == t && t[k - 1] == id && t[k] == above;
    var j := IndexOf(t, id);
    assert j == k - 1;
    assert Exchanged(after, id, above) == rows;
  }

  // ----- setPhaseOrder -----

  lemma {:induction false} OthersOf(s: seq<nat>, k: nat)
    requires NoDup(s) && k < |s|
    ensures Filter(s, Other(s[k])) == s[..k] + s[k + 1..]
  {
    var id := s[k];
    assert s == s[..k] + [id] + s[k + 1..];
    FilterConcat(s[..k] + [id], s[k + 1..], Other(id));
    FilterSnoc(s[..k], id, Other(id));
    forall x | x in s[..k] ensures Other(id)(x) {
      var i :| 0 <= i < k && s[i] == x;
    }
    forall x | x in s[k + 1..] ensures Other(id)(x) {
      var i :| k < i < |s| && s[i] == x;
    }
    FilterAll(s[..k], Other(id));
    FilterAll(s[k + 1..], Other(id));
  }

  /** Putting `id` back among the others. */
  function Spliced(without: seq<nat>, id: nat, target: nat): (r: seq<nat>)
    requires target <= |without|
    ensures |r| == |without| + 1 && r[target] == id
    ensures forall i :: 0 <= i < target ==> r[i] == without[i]
    ensures forall i :: target < i < |r| ==> r[i] == without[i - 1]
  {
    without[..target] + [id] + without[target..]
  }

  lemma SplicedDistinct(without: seq<nat>, id: nat, target: nat)
    requires NoDup(without) && id !in without && target <= |without|
    ensures NoDup(Spliced(without, id, target))
  {
    var r := Spliced(without, id, target);
    forall i, j | 0 <= i < j < |r| ensures r[i] != r[j] {
      assert i != target ==> r[i] == without[if i < target then i else i - 1];
      assert j != target ==> r[j] == without[if j < target then j else j - 1];
    }
  }

  lemma SplicedMembers(without: seq<nat>, id: nat, target: nat, x: nat)
    requires target <= |without|
    ensures x in Spliced(without, id, target) <==> x in without || x == id
  {
    var r := Spliced(without, id, target);
    if k :| 0 <= k < |without| && without[k] == x {
      assert r[if k < target then k else k + 1] == x;
    }
    assert r[target] in r;
  }

  lemma SplicedOthers(without: seq<nat>, id: nat, target: nat)
    requires target <= |without| && NoDup(Spliced(without, id, target))
    ensures Filter(Spliced(without, id, target), Other(id)) == without
  {
    var r := Spliced(without, id, target);
    OthersOf(r, target);
    assert r[..target] + r[target + 1..] == without;
  }

  lemma SplicedShape(without: seq<nat>, id: nat, target: nat)
    requires NoDup(without) && id !in without && target <= |without|
    ensures var r := Spliced(without, id, target);
            && NoDup(r) && Filter(r, Other(id)) == without
            && forall x :: x in r <==> x in without || x == id
  {
    var r := Spliced(without, id, target);
    SplicedDistinct(without, id, target);
    SplicedOthers(without, id, target);
    forall x: nat ensures x in r <==> x in without || x == id {
      SplicedMembers(without, id, target, x);
    }
  }

  lemma OthersDistinct(s: seq<nat>, id: nat)
    requires NoDup(s)
    ensures NoDup(Filter(s, Other(id)))
    ensures forall x :: x in Filter(s, Other(id)) <==> x in s && x != id
  {
    var differ := (a: nat, b: nat) => a != b;
    FilterPairwise(s, Other(id), differ);
    var without := Filter(s, Other(id));
    assert forall i, j :: 0 <= i < j < |without| ==> differ(without[i], without[j]);
    assert forall x :: Other(id)(x) <==> x != id;
  }

  /** The moved list: the phase at its target, the others in their old relative order, nothing lost. */
  lemma MovedShape(s: seq<nat>, id: nat, target: nat)
    requires NoDup(s) && id in s && target < |s|
    ensures |Filter(s, Other(id))| == |s| - 1
    ensures var r := MovedTo(s, id, target);
            && |r| == |s| && r[target] == id && NoDup(r)
            && Filter(r, Other(id)) == Filter(s, Other(id))
            && forall x :: x in r <==> x in s
  {
    var k :| 0 <= k < |s| && s[k] == id;
    OthersOf(s, k);
    var without := Filter(s, Other(id));
    OthersDistinct(s, id);
    SplicedShape(without, id, target);
  }

  lemma IndexOfPlace(s: seq<nat>, i: nat)
    requires NoDup(s) && i < |s|
    ensures IndexOf(s, s[i]) == i
  {
    var k := IndexOf(s, s[i]);
    assert s[i] in s;
  }

  /** Numbering a project's phases by their places in `s` lists them as `s`. */
  lemma RenumberedLists(rows: Rows, project: nat, s: seq<nat>)
    requires NoDup(s) && forall id :: id in s <==> In(rows, project, id)
    ensures var after := Renumbered(rows, s);
            && Lists(after, project, s)
            && (forall i :: 0 <= i < |s| ==> s[i] in after && after[s[i]].order == i)
  {
    var after := Renumbered(rows, s);
    forall i | 0 <= i < |s| ensures In(after, project, s[i]) && after[s[i]].order == i {
      assert s[i] in s;
      IndexOfPlace(s, i);
    }
    forall i, j | 0 <= i < j < |s| ensures Precedes(after, s[i], s[j]) {
    }
  }

  lemma RenumberedKeepsValid(rows: Rows, project: nat, s: seq<nat>)
    requires Valid(rows) && NoDup(s) && forall id :: id in s <==> In(rows, project, id)
    ensures Valid(Renumbered(rows, s))
    ensures forall q, t :: q != project ==> (Lists(Renumbered(rows, s), q, t) <==> Lists(rows, q, t))
  {
    var after := Renumbered(rows, s);
    forall a, b | a in after && b in after && a != b ensures Apart(after[a], after[b]) {
      assert Apart(rows[a], rows[b]);
      assert rows[a].project == project ==> a in s && IndexOf(s, a) < |s| && s[IndexOf(s, a)] == a;
      assert rows[b].project == project ==> b in s && IndexOf(s, b) < |s| && s[IndexOf(s, b)] == b;
    }
    forall q, t | q != project ensures Lists(after, q, t) <==> Lists(rows, q, t) {
      OthersListedAlike(rows, after, project, q, t);
    }
  }

  /**
   `setPhaseOrder`: the listing becomes the moved list, numbered 0, 1, 2, ...; other projects are
   listed as before.
   */
  lemma SetOrderMoves(rows: Rows, id: nat, target: nat)
    requires Valid(rows) && id in rows && target < |Listing(rows, rows[id].project)|
    ensures var p := rows[id].project;
            var s := Listing(rows, p);
            && id in s && NoDup(s) && target <= |Filter(s, Other(id))|
            && var moved := MovedTo(s, id, target);
            var after := Renumbered(rows, moved);
            && Valid(after) && Listing(after, p) == moved
            && moved[target] == id && Filter(moved, Other(id)) == Filter(s, Other(id))
            && (forall i :: 0 <= i < |moved| ==> moved[i] in after && after[moved[i]].order == i)
            && (forall q :: q != p ==> Listing(after, q) == Listing(rows, q))
  {
    var p := rows[id].project;
    var s := Listing(rows, p);
    assert In(rows, p, id) && NoDup(s);
    MovedShape(s, id, target);
    var moved := MovedTo(s, id, target);
    RenumberedLists(rows, p, moved);
    RenumberedKeepsValid(rows, p, moved);
    var after := Renumbered(rows, moved);
    ListsUnique(after, p, Listing(after, p), moved);
    forall q | q != p ensures Listing(after, q) == Listing(rows, q) {
      ListsUnique(rows, q, Listing(after, q), Listing(rows, q));
    }
  }

  // ----- Runs -----

  datatype Tables = Tables(rows: Rows, nextId: nat)

  /** The committed effect of one successful service call. */
  datatype Step =
    | Create(project: nat, name: string, max: int)
    | Rename(id: nat, name: string)
    | Reorder(id: nat, up: bool)
    | SetPhaseOrder(id: nat, target: nat)
    | ChangeStatus(id: nat, status: Status, now: nat)
    | SetDates(id: nat, startedAt: Option<nat>, completedAt: Option<nat>)
    | Delete(id: nat)

  ghost predicate ValidTables(t: Tables) {
    Valid(t.rows) && forall id :: id in t.rows ==> id < t.nextId
  }

  ghost predicate Next(t: Tables, step: Step, t': Tables)
    requires ValidTables(t)
  {
    match step
    case Create(project, name, max) =>
      && name != "" && !LabelTaken(t.rows, project, name) && IsMaxOrder(t.rows, project, max)
      && t' == Tables(t.rows[t.nextId := Phase(project, name, max + STATUS_GAP, NotStarted, None, None)], t.nextId + 1)
    case Rename(id, name) =>
      && id in t.rows && name != ""
      && (forall x :: In(t.rows, t.rows[id].project, x) && t.rows[x].name == name ==> x == id)
      && t' == t.(rows := t.rows[id := t.rows[id].(name := name)])
    case Reorder(id, up) =>
      && id in t.rows && Reordered(t.rows, id, up).Ok?
      && t' == t.(rows := Reordered(t.rows, id, up).value)
    case SetPhaseOrder(id, target) =>
      && id in t.rows && target < |Listing(t.rows, t.rows[id].project)|
      && target <= |Filter(Listing(t.rows, t.rows[id].project), Other(id))|
      && t' == t.(rows := Renumbered(t.rows, MovedTo(Listing(t.rows, t.rows[id].project), id, target)))
    case ChangeStatus(id, status, now) =>
      && id in t.rows && t.rows[id].status != status
      && t' == t.(rows := t.rows[id := Changed(t.rows[id], status, now)])
    case SetDates(id, startedAt, completedAt) =>
      && id in t.rows
      && t' == t.(rows := t.rows[id := t.rows[id].(startedAt := startedAt, completedAt := completedAt)])
    case Delete(id) =>
      && id in t.rows
      && t' == t.(rows := t.rows - {id})
  }

  /** Every operation keeps labels and orders distinct within each project. */
  lemma StepKeepsValid(t: Tables, step: Step, t': Tables)
    requires ValidTables(t) && Next(t, step, t')
    ensures ValidTables(t')
  {
    match step
    case Create(project, name, max) =>
      forall a, b | a in t'.rows && b in t'.rows && a != b ensures Apart(t'.rows[a], t'.rows[b]) {
        assert a != t.nextId && b != t.nextId ==> Apart(t.rows[a], t.rows[b]);
        assert In(t.rows, project, a) ==> t.rows[a].order <= max;
        assert In(t.rows, project, b) ==> t.rows[b].order <= max;
      }
    case Rename(id, name) =>
      forall a, b | a in t'.rows && b in t'.rows && a != b ensures Apart(t'.rows[a], t'.rows[b]) {
        assert Apart(t.rows[a], t.rows[b]);
        assert In(t.rows, t.rows[id].project, a) && t.rows[a].name == name ==> a == id;
        assert In(t.rows, t.rows[id].project, b) && t.rows[b].name == name ==> b == id;
      }
    case Reorder(id, up) => ReorderSwapsNeighbours(t.rows, id, up);
    case SetPhaseOrder(id, target) => SetOrderMoves(t.rows, id, target);
    case _ =>
      forall a, b | a in t'.rows && b in t'.rows && a != b ensures Apart(t'.rows[a], t'.rows[b]) {
        assert Apart(t.rows[a], t.rows[b]);
      }
  }

  /** A run: `trace[i + 1]` is a successor of `trace[i]`, from the empty table. */
  ghost predicate Run(trace: seq<Tables>, steps: seq<Step>) {
    && |trace| == |steps| + 1 && trace[0] == Tables(map[], 0)
    && forall i :: 0 <= i < |steps| ==> ValidTables(trace[i]) ==> Next(trace[i], steps[i], trace[i + 1])
  }

  lemma {:induction false} OrdersStayDistinct(trace: seq<Tables>, steps: seq<Step>, i: nat)
    requires Run(trace, steps) && i < |trace|
    ensures ValidTables(trace[i])
  {
    if i > 0 {
      OrdersStayDistinct(trace, steps, i - 1);
      assert Next(trace[i - 1], steps[i - 1], trace[i - 1 + 1]);
      StepKeepsValid(trace[i - 1], steps[i - 1], trace[i]);
    }
  }

  // ----- Status and dates -----

  /** What status changes alone make of the dates. */
  predicate DatesMatch(p: Phase) {
    && (p.completedAt.Some? <==> p.status == Done)
    && (p.status == NotStarted ==> p.startedAt.None?)
    && (p.status == InProgress ==> p.startedAt.Some?)
  }

  /** Without manual overrides a phase is dated as its status says, in every reachable state. */
  lemma {:induction false} DatesFollowStatus(trace: seq<Tables>, steps: seq<Step>, i: nat, id: nat)
    requires Run(trace, steps) && i < |trace| && forall k :: 0 <= k < |steps| ==> !steps[k].SetDates?
    requires id in trace[i].rows
    ensures DatesMatch(trace[i].rows[id])
  {
    var t, step := trace[i - 1], steps[i - 1];
    OrdersStayDistinct(trace, steps, i - 1);
    assert Next(t, step, trace[i - 1 + 1]);
    if id in t.rows {
      DatesFollowStatus(trace, steps, i - 1, id);
      if !step.ChangeStatus? {
        OrderOnly(t, step, trace[i], id);
      }
    }
  }

  /** Without overrides every date is the time of a change to its status, and a later one cannot have unset it. */
  lemma {:induction false} DatesAreOfSteps(trace: seq<Tables>, steps: seq<Step>, i: nat, id: nat)
    requires Run(trace, steps) && i < |trace| && forall k :: 0 <= k < |steps| ==> !steps[k].SetDates?
    requires id in trace[i].rows
    ensures trace[i].rows[id].startedAt.Some? ==>
              exists k :: 0 <= k < i && steps[k] == ChangeStatus(id, InProgress, trace[i].rows[id].startedAt.value)
    ensures trace[i].rows[id].completedAt.Some? ==>
              exists k :: 0 <= k < i && steps[k] == ChangeStatus(id, Done, trace[i].rows[id].completedAt.value)
  {
    var t, step := trace[i - 1], steps[i - 1];
    OrdersStayDistinct(trace, steps, i - 1);
    assert Next(t, step, trace[i - 1 + 1]);
    if id in t.rows {
      DatesAreOfSteps(trace, steps, i - 1, id);
      if !step.ChangeStatus? {
        OrderOnly(t, step, trace[i], id);
      }
    }
  }

  /** A created phase comes last in its project, 100 past the last order, not started and without dates. */
  lemma CreateAppends(t: Tables, project: nat, name: string, max: int, t': Tables)
    requires ValidTables(t) && Next(t, Create(project, name, max), t')
    ensures ValidTables(t') && t'.nextId == t.nextId + 1 && t'.rows.Keys == t.rows.Keys + {t.nextId}
    ensures Listing(t'.rows, project) == Listing(t.rows, project) + [t.nextId]
    ensures var s := Listing(t.rows, project);
            && t'.rows[t.nextId] == Phase(project, name, max + 100, NotStarted, None, None)
            && (s == [] ==> max == 0)
            && (s != [] ==> s[|s| - 1] in t.rows && max == t.rows[s[|s| - 1]].order)
    ensures forall id :: id in t.rows ==> t'.rows[id] == t.rows[id]
  {
    StepKeepsValid(t, Create(project, name, max), t');
    var s := Listing(t.rows, project);
    MaxIsLast(t.rows, project, s, max);
    AppendedLists(t.rows, project, s, t.nextId, t'.rows);
    ListsUnique(t'.rows, project, Listing(t'.rows, project), s + [t.nextId]);
  }

  /** A reorder step moves the phase past its neighbour on the side asked for. */
  lemma ReorderStep(t: Tables, id: nat, up: bool, t': Tables)
    requires ValidTables(t) && Next(t, Reorder(id, up), t')
    ensures id in t.rows && ValidTables(t') && t'.nextId == t.nextId
    ensures var p := t.rows[id].project;
            var s, k := Listing(t.rows, p), IndexOf(Listing(t.rows, p), id);
            && (if up then 0 < k < |s| else k + 1 < |s|)
            && Listing(t'.rows, p) == SwappedAt(s, if up then k - 1 else k)
            && forall q :: q != p ==> Listing(t'.rows, q) == Listing(t.rows, q)
  {
    StepKeepsValid(t, Reorder(id, up), t');
    ReorderSwapsNeighbours(t.rows, id, up);
  }

  /** A step of `setPhaseOrder` puts the phase at its target, the others in their old order around it. */
  lemma SetPhaseOrderStep(t: Tables, id: nat, target: nat, t': Tables)
    requires ValidTables(t) && Next(t, SetPhaseOrder(id, target), t')
    ensures id in t.rows && ValidTables(t') && t'.nextId == t.nextId && t'.rows.Keys == t.rows.Keys
    ensures var p := t.rows[id].project;
            var s, r := Listing(t.rows, p), Listing(t'.rows, p);
            && target < |s| == |r| && r[target] == id && Filter(r, Other(id)) == Filter(s, Other(id))
            && (forall i :: 0 <= i < |r| ==> r[i] in t'.rows && t'.rows[r[i]].order == i)
            && forall q :: q != p ==> Listing(t'.rows, q) == Listing(t.rows, q)
    ensures forall x :: x in t.rows ==> t'.rows[x] == t.rows[x].(order := t'.rows[x].order)
  {
    StepKeepsValid(t, SetPhaseOrder(id, target), t');
    SetOrderMoves(t.rows, id, target);
    MovedShape(Listing(t.rows, t.rows[id].project), id, target);
  }

  lemma MaxIsLast(rows: Rows, project: nat, s: seq<nat>, max: int)
    requires Lists(rows, project, s) && IsMaxOrder(rows, project, max)
    ensures s == [] ==> max == 0
    ensures s != [] ==> s[|s| - 1] in rows && max == rows[s[|s| - 1]].order
  {
    if s == [] {
      assert forall id :: In(rows, project, id) ==> id in s;
    } else {
      var last := s[|s| - 1];
      assert last in s && In(rows, project, last);
      var top :| In(rows, project, top) && rows[top].order == max;
      assert top in s;
      var k :| 0 <= k < |s| && s[k] == top;
      assert k < |s| - 1 ==> Precedes(rows, s[k], last);
    }
  }

  lemma AppendedLists(rows: Rows, project: nat, s: seq<nat>, id: nat, after: Rows)
    requires Lists(rows, project, s) && id !in rows && after.Keys == rows.Keys + {id}
    requires forall x :: x in rows ==> after[x] == rows[x]
    requires after[id].project == project
    requires forall x :: In(rows, project, x) ==> rows[x].order < after[id].order
    ensures Lists(after, project, s + [id])
  {
    forall i | 0 <= i < |s| ensures In(rows, project, s[i]) {
      assert s[i] in s;
    }
  }

  /** Of a phase that stays, only status changes and overrides touch status or dates. */
  lemma OrderOnly(t: Tables, step: Step, t': Tables, id: nat)
    requires ValidTables(t) && Next(t, step, t') && id in t.rows && id in t'.rows
    requires !step.ChangeStatus? && !step.SetDates?
    ensures var p, q := t.rows[id], t'.rows[id];
            && q.project == p.project && q.status == p.status
            && q.startedAt == p.startedAt && q.completedAt == p.completedAt
            && (!step.Rename? ==> q.name == p.name)
  {
    if step.Reorder? {
      ReorderSwapsNeighbours(t.rows, step.id, step.up);
    }
  }

  /** A set start date survives every status change but one to not started; a completion date only one to done. */
  lemma OverrideSurvivesIff(p: Phase, status: Status, now: nat)
    requires p.status != status
    ensures p.startedAt.Some? ==> (Changed(p, status, now).startedAt == p.startedAt <==> status != NotStarted)
    ensures p.completedAt.Some? ==> (Changed(p, status, now).completedAt == p.completedAt <==> status == Done)
  {
  }

  /** `s` lists some phases of the project in order and `left` holds the others, all later. */
  ghost predicate Sorting(rows: Rows, project: nat, s: seq<nat>, left: set<nat>) {
    && (forall id :: id in s || id in left <==> In(rows, project, id))
    && (forall i, j :: 0 <= i < j < |s| ==> Precedes(rows, s[i], s[j]))
    && (forall a, b :: a in s && b in left ==> Precedes(rows, a, b))
  }

  lemma SortingStep(rows: Rows, project: nat, s: seq<nat>, left: set<nat>, id: nat)
    requires Valid(rows) && Sorting(rows, project, s, left) && id in left
    requires forall x :: x in left ==> x in rows && id in rows && rows[id].order <= rows[x].order
    ensures Sorting(rows, project, s + [id], left - {id})
  {
    LeastPrecedes(rows, project, left, id);
    forall i | 0 <= i < |s| ensures Precedes(rows, s[i], id) {
      assert s[i] in s;
    }
  }

  /** The phase of least order in a set comes before all others of the set. */
  lemma LeastPrecedes(rows: Rows, project: nat, ids: set<nat>, first: nat)
    requires Valid(rows) && first in ids && forall id :: id in ids ==> In(rows, project, id)
    requires forall id :: id in ids ==> id in rows && first in rows && rows[first].order <= rows[id].order
    ensures forall id :: id in ids && id != first ==> Precedes(rows, first, id)
  {
    forall id | id in ids && id != first ensures Precedes(rows, first, id) {
      assert Apart(rows[first], rows[id]);
    }
  }

  /** Rows that carry their places in `s` as orders, and are otherwise as before, are the renumbered ones. */
  lemma RenumberedByPlace(before: Rows, s: seq<nat>, after: Rows)
    requires after.Keys == before.Keys
    requires forall j :: 0 <= j < |s| ==> s[j] in before && after[s[j]] == before[s[j]].(order := j)
    requires forall x :: x in after && x !in s ==> after[x] == before[x]
    ensures after == Renumbered(before, s)
  {
    forall x | x in after ensures after[x] == Renumbered(before, s)[x] {
      var k := IndexOf(s, x);
      assert k < |s| ==> s[k] == x;
    }
  }

  // ----- The service -----

  class PhaseService {
    var rows: Rows
    var nextId: nat
    /** `projects.customer_id`. */
    const owner: map<nat, nat>

    ghost function State(): Tables
      reads this
    {
      Tables(rows, nextId)
    }

    ghost predicate Invariant()
      reads this
    {
      ValidTables(State())
    }

    constructor (owner: map<nat, nat>)
      ensures Invariant() && rows == map[] && nextId == 0 && this.owner == owner
    {
      rows, nextId := map[], 0;
      this.owner := owner;
    }

    method FindMaxDisplayOrder(project: nat) returns (max: int)
      ensures IsMaxOrder(rows, project, max)
    {
      max := 0;
      var found := false;
      var left: set<nat> := set id | id in rows && In(rows, project, id);
      while left != {}
        invariant forall id :: id in left ==> In(rows, project, id)
        invariant forall id :: In(rows, project, id) && id !in left ==> found && rows[id].order <= max
        invariant found ==> exists id :: In(rows, project, id) && rows[id].order == max
        invariant !found ==> max == 0
        decreases |left|
      {
        var id :| id in left;
        left := left - {id};
        if !found || max < rows[id].order {
          max := rows[id].order;
        }
        found := true;
      }
    }

    method ListPhasesByProject(project: nat) returns (s: seq<nat>)
      requires Invariant()
      ensures s == Listing(rows, project)
    {
      s := [];
      var left: set<nat> := set id | id in rows && In(rows, project, id);
      while left != {}
        invariant Sorting(rows, project, s, left)
        decreases |left|
      {
        ghost var table := rows;
        ghost var least := LeastExists(left, (x: nat) => if x in table then table[x].order else 0);
        assert forall x :: x in left ==> rows[least].order <= rows[x].order;
        var id :| id in left && forall x :: x in left ==> rows[id].order <= rows[x].order;
        SortingStep(rows, project, s, left, id);
        s := s + [id];
        left := left - {id};
      }
      ListsUnique(rows, project, s, Listing(rows, project));
    }

    method Create(project: nat, name: string) returns (r: Result<nat, Error>)
      requires Invariant()
      modifies `rows, `nextId
      ensures Invariant()
      ensures r.Err? ==> State() == old(State())
      ensures r.Err? <==> Text.Trim(name) == "" || LabelTaken(old(rows), project, Text.Trim(name))
      ensures r.Err? ==> r.error == if Text.Trim(name) == "" then LabelInvalid else LabelConflict
      ensures r.Ok? ==> r.value == old(nextId)
      ensures r.Ok? ==> exists max :: Next(old(State()), Step.Create(project, Text.Trim(name), max), State())
    {
      var trimmed := Text.Trim(name);
      if trimmed == "" {
        return Err(LabelInvalid);
      }
      if LabelTaken(rows, project, trimmed) {
        return Err(LabelConflict);
      }
      var max := FindMaxDisplayOrder(project);
      ghost var before := State();
      rows := rows[nextId := Phase(project, trimmed, max + STATUS_GAP, NotStarted, None, None)];
      nextId := nextId + 1;
      assert Next(before, Step.Create(project, trimmed, max), State());
      StepKeepsValid(before, Step.Create(project, trimmed, max), State());
      r := Ok(nextId - 1);
    }

    method Rename(id: nat, name: string) returns (r: Result<(), Error>)
      requires Invariant()
      modifies `rows
      ensures Invariant()
      ensures r.Err? ==> State() == old(State())
      ensures r.Ok? ==> Next(old(State()), Step.Rename(id, Text.Trim(name)), State())
      ensures r.Ok? ==> id in old(rows) && rows == old(rows)[id := old(rows)[id].(name := Text.Trim(name))]
      ensures r.Err? ==>
        (if Text.Trim(name) == "" then r.error == LabelInvalid
         else if id !in rows then r.error == PhaseNotFound
         else r.error == LabelConflict
              && exists x :: In(rows, rows[id].project, x) && rows[x].name == Text.Trim(name) && x != id)
    {
      var trimmed := Text.Trim(name);
      if trimmed == "" {
        return Err(LabelInvalid);
      }
      if id !in rows {
        return Err(PhaseNotFound);
      }
      var p := rows[id];
      if exists x :: x in rows && In(rows, p.project, x) && rows[x].name == trimmed && x != id {
        return Err(LabelConflict);
      }
      ghost var before := State();
      rows := rows[id := p.(name := trimmed)];
      StepKeepsValid(before, Step.Rename(id, trimmed), State());
      r := Ok(());
    }

    method Reorder(id: nat, direction: string) returns (r: Result<(), Error>)
      requires Invariant()
      modifies `rows
      ensures Invariant()
      ensures r.Err? ==> State() == old(State())
      ensures direction != "up" && direction != "down" ==> r == Err(DirectionInvalid)
      ensures direction == "up" || direction == "down" ==>
        if id !in old(rows) then r == Err(PhaseNotFound)
        else match Reordered(old(rows), id, direction == "up")
          case Err(e) => r == Err(e)
          case Ok(after) => r.Ok? && rows == after
    {
      if direction != "up" && direction != "down" {
        return Err(DirectionInvalid);
      }
      if id !in rows {
        return Err(PhaseNotFound);
      }
      var p := rows[id];
      var all := ListPhasesByProject(p.project);
      var index := IndexOf(all, id);
      var swap: int := if direction == "up" then index as int - 1 else index + 1;
      ghost var before := State();
      ReorderSwapsNeighbours(rows, id, direction == "up");
      if swap < 0 || swap >= |all| {
        return Err(ReorderEdge);
      }
      assert all[swap] in all;
      var neighbour := all[swap];
      var order := rows[neighbour].order;
      rows := SetOrder(rows, id, order);
      rows := SetOrder(rows, neighbour, p.order);
      r := Ok(());
    }

    method SetPhaseOrder(id: nat, customer: nat, target: int) returns (r: Result<(), Error>)
      requires Invariant()
      modifies `rows
      ensures Invariant()
      ensures r.Err? ==> State() == old(State())
      ensures r.Ok? ==> target >= 0 && Next(old(State()), Step.SetPhaseOrder(id, target), State())
      ensures r.Err? ==>
        r.error == if target < 0 then OrderOutOfRange
                   else if id !in rows then PhaseNotFound
                   else if rows[id].project !in owner || owner[rows[id].project] != customer then CrossCustomer
                   else OrderOutOfRange
      ensures id in old(rows) && r == Err(OrderOutOfRange) && target >= 0 ==>
        target >= |Listing(old(rows), old(rows)[id].project)|
    {
      if target < 0 {
        return Err(OrderOutOfRange);
      }
      if id !in rows {
        return Err(PhaseNotFound);
      }
      var project := rows[id].project;
      if project !in owner || owner[project] != customer {
        return Err(CrossCustomer);
      }
      var ids := ListPhasesByProject(project);
      if target >= |ids| {
        return Err(OrderOutOfRange);
      }
      SetOrderMoves(rows, id, target);
      var without := Filter(ids, Other(id));
      without := without[..target] + [id] + without[target..];
      assert without == MovedTo(ids, id, target);
      ghost var before := State();
      MovedShape(ids, id, target);
      Renumber(project, without);
      StepKeepsValid(before, Step.SetPhaseOrder(id, target), State());
      r := Ok(());
    }

    /** The loop of UPDATEs that gives every listed phase its place as order. */
    method Renumber(ghost project: nat, s: seq<nat>)
      requires NoDup(s) && forall id :: id in s <==> In(rows, project, id)
      modifies `rows
      ensures rows == Renumbered(old(rows), s)
    {
      ghost var before := rows;
      for i := 0 to |s|
        invariant rows.Keys == before.Keys
        invariant forall j :: 0 <= j < i ==> s[j] in before && rows[s[j]] == before[s[j]].(order := j)
        invariant forall x :: x in rows && x !in s[..i] ==> rows[x] == before[x]
      {
        assert s[i] in s && In(before, project, s[i]);
        assert s[i] !in s[..i];
        rows := SetOrder(rows, s[i], i);
        assert s[..i + 1] == s[..i] + [s[i]];
      }
      assert s[..|s|] == s;
      RenumberedByPlace(before, s, rows);
    }

    method ChangeStatus(id: nat, newStatus: Option<Status>, now: nat) returns (r: Result<(), Error>)
      requires Invariant()
      modifies `rows
      ensures Invariant()
      ensures r == if newStatus.None? then Err(StatusInvalid)
                   else if id !in old(rows) then Err(PhaseNotFound) else Ok(())
      ensures State() == if r.Ok? && old(rows)[id].status != newStatus.value
                         then old(State()).(rows := old(rows)[id := Changed(old(rows)[id], newStatus.value, now)])
                         else old(State())
    {
      if newStatus.None? {
        return Err(StatusInvalid);
      }
      if id !in rows {
        return Err(PhaseNotFound);
      }
      var p := rows[id];
      if p.status == newStatus.value {
        return Ok(());
      }
      var startedAt, completedAt := p.startedAt, p.completedAt;
      match newStatus.value {
        case InProgress =>
          if startedAt.None? {
            startedAt := Some(now);
          }
          completedAt := None;
        case Done =>
          if completedAt.None? {
            completedAt := Some(now);
          }
        case NotStarted =>
          startedAt, completedAt := None, None;
        case Blocked =>
          completedAt := None;
      }
      ghost var before := State();
      rows := rows[id := p.(status := newStatus.value, startedAt := startedAt, completedAt := completedAt)];
      StepKeepsValid(before, Step.ChangeStatus(id, newStatus.value, now), State());
      r := Ok(());
    }

    method SetPhaseDates(id: nat, customer: nat, startedAt: Option<nat>, completedAt: Option<nat>)
      returns (r: Result<(), Error>)
      requires Invariant()
      modifies `rows
      ensures Invariant()
      ensures r.Err? ==> State() == old(State())
      ensures r.Ok? ==> Next(old(State()), Step.SetDates(id, startedAt, completedAt), State())
      ensures r.Ok? ==>
                rows == old(rows)[id := old(rows)[id].(startedAt := startedAt, completedAt := completedAt)]
      ensures r == if id !in old(rows) then Err(PhaseNotFound)
                   else if old(rows)[id].project !in owner || owner[old(rows)[id].project] != customer then
                     Err(CrossCustomer)
                   else Ok(())
    {
      if id !in rows {
        return Err(PhaseNotFound);
      }
      var p := rows[id];
      if p.project !in owner || owner[p.project] != customer {
        return Err(CrossCustomer);
      }
      ghost var before := State();
      rows := rows[id := p.(startedAt := startedAt, completedAt := completedAt)];
      StepKeepsValid(before, Step.SetDates(id, startedAt, completedAt), State());
      r := Ok(());
    }

    method Delete(id: nat) returns (r: Result<(), Error>)
      requires Invariant()
      modifies `rows
      ensures Invariant()
      ensures rows == old(rows) - {id} && nextId == old(nextId)
      ensures r.Ok? ==> Next(old(State()), Step.Delete(id), State())
      ensures r == if id in old(rows) then Ok(()) else Err(PhaseNotFound)
    {
      if id !in rows {
        return Err(PhaseNotFound);
      }
      ghost var before := State();
      rows := rows - {id};
      StepKeepsValid(before, Step.Delete(id), State());
      r := Ok(());
    }
  }
}
