/**
 The document store: uploads, the byte quota and version chains. A document is never changed or
 removed once its row is committed, so the table is the sequence of rows in commit order.
 */
module Documents {
  import opened Wrappers

  const MAX_FILE_BYTES: nat := 50 * 1024 * 1024
  const MAX_CUSTOMER_BYTES: nat := 5 * 1024 * 1024 * 1024

  datatype Category = NdaDraft | NdaSigned | NdaAudit | Invoice | Generic | Other(name: string)

  datatype CustomerStatus = Active | Suspended | Archived

  datatype Document = Document(
    id: nat, customer: nat, parent: Option<nat>, category: Category, size: nat, uploadedAt: nat)

  datatype UploadError =
    | ParentNotFound
    | ParentOfOtherCustomer
    | InvalidCategory
    | CustomerNotFound
    | CustomerNotActive
    | Truncated
    | FileTooLarge
    | UnknownType
    | MimeMismatch
    | OverQuota

  /** What is known of a file once it has been streamed to disk. */
  datatype File = File(size: nat, truncated: bool, sniffed: Option<string>)

  datatype Upload = Upload(
    customer: nat, parent: Option<nat>, category: Category, declared: Option<string>, file: File)

  type Customers = map<nat, CustomerStatus>

  // ----- The forest of versions -----

  /** The row with this id. */
  function IndexOf(docs: seq<Document>, id: nat): (r: Option<nat>)
    ensures r.Some? ==> r.value < |docs| && docs[r.value].id == id
    ensures r.None? ==> forall i :: 0 <= i < |docs| ==> docs[i].id != id
  {
    if docs == [] then None
    else if docs[|docs| - 1].id == id then Some(|docs| - 1)
    else IndexOf(docs[..|docs| - 1], id)
  }

  ghost predicate Child(docs: seq<Document>, p: nat, c: nat) {
    p < |docs| && c < |docs| && docs[c].parent == Some(docs[p].id)
  }

  /** `d` may follow a version in `docs`: its id is new, its parent is there and agrees with it. */
  ghost predicate Fits(docs: seq<Document>, d: Document) {
    && !d.category.Other?
    && IndexOf(docs, d.id).None?
    && (d.parent.Some? ==>
          var p := IndexOf(docs, d.parent.value);
          p.Some? && docs[p.value].customer == d.customer && docs[p.value].category == d.category)
  }

  /** Every document came after its parent, for the same customer and in the same category. */
  ghost predicate Forest(docs: seq<Document>) {
    forall i :: 0 <= i < |docs| ==> Fits(docs[..i], docs[i])
  }

  lemma ForestGrows(docs: seq<Document>, d: Document)
    requires Forest(docs) && Fits(docs, d)
    ensures Forest(docs + [d])
  {
    forall i | 0 <= i < |docs + [d]| ensures Fits((docs + [d])[..i], (docs + [d])[i]) {
      assert (docs + [d])[..i] == docs[..i];
      assert docs[..|docs|] == docs;
    }
  }

  lemma LaterIdNew(docs: seq<Document>, i: nat, j: nat)
    requires Forest(docs) && i < j < |docs|
    ensures docs[i].id != docs[j].id
  {
    assert Fits(docs[..j], docs[j]);
    assert docs[..j][i] == docs[i];
  }

  lemma IdsUnique(docs: seq<Document>, i: nat, j: nat)
    requires Forest(docs) && i < |docs| && j < |docs| && docs[i].id == docs[j].id
    ensures i == j
  {
    if i < j {
      LaterIdNew(docs, i, j);
    } else if j < i {
      LaterIdNew(docs, j, i);
    }
  }

  lemma IndexOfUnique(docs: seq<Document>, i: nat)
    requires Forest(docs) && i < |docs|
    ensures IndexOf(docs, docs[i].id) == Some(i)
  {
    IdsUnique(docs, i, IndexOf(docs, docs[i].id).value);
  }

  /** The parent of a document. */
  lemma ParentBefore(docs: seq<Document>, c: nat) returns (p: nat)
    requires Forest(docs) && c < |docs| && docs[c].parent.Some?
    ensures p < c && Child(docs, p, c) && IndexOf(docs, docs[c].parent.value) == Some(p)
    ensures docs[p].customer == docs[c].customer && docs[p].category == docs[c].category
  {
    assert Fits(docs[..c], docs[c]);
    p := IndexOf(docs[..c], docs[c].parent.value).value;
    assert docs[..c][p] == docs[p];
    IndexOfUnique(docs, p);
  }

  lemma ChildAfter(docs: seq<Document>, p: nat, c: nat)
    requires Forest(docs) && Child(docs, p, c)
    ensures p < c && IndexOf(docs, docs[c].parent.value) == Some(p)
    ensures docs[p].customer == docs[c].customer && docs[p].category == docs[c].category
  {
    var q := ParentBefore(docs, c);
    IdsUnique(docs, p, q);
  }

  /** The first version that `i` descends from. */
  ghost function Root(docs: seq<Document>, i: nat): (r: nat)
    requires Forest(docs) && i < |docs|
    ensures r <= i && docs[r].parent.None?
    decreases i
  {
    if docs[i].parent.None? then i
    else
      var p := IndexOf(docs, docs[i].parent.value);
      assert p.Some? && p.value < i by { var q := ParentBefore(docs, i); }
      Root(docs, p.value)
  }

  // ----- Version chains -----

  /** `c` is what `ORDER BY uploaded_at ASC LIMIT 1` may return among the children of `p`. */
  ghost predicate Earliest(docs: seq<Document>, p: nat, c: nat) {
    Child(docs, p, c) && forall d: nat :: Child(docs, p, d) ==> docs[c].uploadedAt <= docs[d].uploadedAt
  }

  ghost predicate Leaf(docs: seq<Document>, p: nat) {
    forall c: nat :: !Child(docs, p, c)
  }

  /** From a first version down, each next element an earliest child. */
  ghost predicate Path(docs: seq<Document>, path: seq<nat>) {
    && path != []
    && (forall k :: 0 <= k < |path| ==> path[k] < |docs|)
    && docs[path[0]].parent.None?
    && forall k :: 0 < k < |path| ==> Earliest(docs, path[k - 1], path[k])
  }

  /** A path that cannot go on. */
  ghost predicate Chain(docs: seq<Document>, path: seq<nat>) {
    Path(docs, path) && Leaf(docs, path[|path| - 1])
  }

  ghost predicate RowsOf(docs: seq<Document>, rows: seq<nat>, chain: seq<Document>) {
    |rows| == |chain| && forall k :: 0 <= k < |rows| ==> rows[k] < |docs| && chain[k] == docs[rows[k]]
  }

  lemma PathSnoc(docs: seq<Document>, path: seq<nat>, c: nat)
    requires Path(docs, path) && Earliest(docs, path[|path| - 1], c)
    ensures Path(docs, path + [c])
  {
  }

  /** Versions along a path come later and later, for one customer and in one category. */
  lemma {:induction false} PathUniform(docs: seq<Document>, path: seq<nat>, i: nat, j: nat)
    requires Forest(docs) && Path(docs, path) && i <= j < |path|
    ensures path[i] <= path[j] && (i < j ==> path[i] < path[j])
    ensures docs[path[i]].customer == docs[path[j]].customer
    ensures docs[path[i]].category == docs[path[j]].category
    decreases j
  {
    if i < j {
      PathUniform(docs, path, i, j - 1);
      assert Earliest(docs, path[j - 1], path[j]);
      ChildAfter(docs, path[j - 1], path[j]);
    }
  }

  lemma {:induction false} PathRoots(docs: seq<Document>, path: seq<nat>, k: nat)
    requires Forest(docs) && Path(docs, path) && k < |path|
    ensures Root(docs, path[k]) == path[0]
  {
    if k > 0 {
      PathRoots(docs, path, k - 1);
      assert Earliest(docs, path[k - 1], path[k]);
      ChildAfter(docs, path[k - 1], path[k]);
    }
  }

  /** Two documents are alternatives for one place in a chain. */
  ghost predicate Siblings(docs: seq<Document>, c: nat, d: nat) {
    c < |docs| && d < |docs| && c != d && docs[c].parent.Some? && docs[c].parent == docs[d].parent
  }

  /** No other version of the same parent was uploaded before `c` or together with it. */
  ghost predicate First(docs: seq<Document>, c: nat) {
    c < |docs| && forall d: nat :: Siblings(docs, c, d) ==> docs[c].uploadedAt < docs[d].uploadedAt
  }

  /** `First` for a document and all it descends from. */
  ghost predicate FirstLine(docs: seq<Document>, c: nat)
    requires Forest(docs) && c < |docs|
    decreases c
  {
    docs[c].parent.Some? ==>
      First(docs, c) &&
      var p := IndexOf(docs, docs[c].parent.value);
      assert p.Some? && p.value < c by { var q := ParentBefore(docs, c); }
      FirstLine(docs, p.value)
  }

  ghost predicate AlwaysListed(docs: seq<Document>, c: nat)
    requires Forest(docs) && c < |docs|
  {
    forall path :: Chain(docs, path) && path[0] == Root(docs, c) ==> c in path
  }

  /** A document whose line is first is in every chain from its first version. */
  lemma {:induction false} FirstLineListed(docs: seq<Document>, c: nat, path: seq<nat>)
    requires Forest(docs) && c < |docs| && FirstLine(docs, c)
    requires Chain(docs, path) && path[0] == Root(docs, c)
    ensures c in path
    decreases c
  {
    if docs[c].parent.Some? {
      var p := ParentBefore(docs, c);
      FirstLineListed(docs, p, path);
      var k :| 0 <= k < |path| && path[k] == p;
      assert k < |path| - 1;
      var next := path[k + 1];
      assert Earliest(docs, path[k], next);
      assert next != c ==> Siblings(docs, c, next);
    }
  }

  /** Every path can be followed down to a leaf. */
  lemma {:induction false} Completes(docs: seq<Document>, path: seq<nat>) returns (chain: seq<nat>)
    requires Forest(docs) && Path(docs, path)
    ensures Chain(docs, chain) && path <= chain
    decreases |docs| - path[|path| - 1]
  {
    var last := path[|path| - 1];
    if Leaf(docs, last) {
      chain := path;
    } else {
      var c := EarliestExists(docs, last);
      ChildAfter(docs, last, c);
      PathSnoc(docs, path, c);
      chain := Completes(docs, path + [c]);
    }
  }

  lemma EarliestExists(docs: seq<Document>, p: nat) returns (c: nat)
    requires !Leaf(docs, p)
    ensures Earliest(docs, p, c)
  {
    c :| Child(docs, p, c);
    var i := 0;
    while i < |docs|
      invariant i <= |docs| && Child(docs, p, c)
      invariant forall d: nat :: Child(docs, p, d) && d < i ==> docs[c].uploadedAt <= docs[d].uploadedAt
    {
      if Child(docs, p, i) && docs[i].uploadedAt < docs[c].uploadedAt {
        c := i;
      }
      i := i + 1;
    }
  }

  lemma {:induction false} SomeChain(docs: seq<Document>, root: nat) returns (chain: seq<nat>)
    requires Forest(docs) && root < |docs| && docs[root].parent.None?
    ensures Chain(docs, chain) && chain[0] == root
  {
    chain := Completes(docs, [root]);
  }

  lemma Diverges(docs: seq<Document>, path: seq<nat>, k: nat, b: nat)
    requires Path(docs, path) && k < |path| && Earliest(docs, path[k], b)
    ensures Path(docs, path[..k + 1] + [b])
  {
    var q := path[..k + 1] + [b];
    forall i | 0 < i < |q| ensures Earliest(docs, q[i - 1], q[i]) {
      assert q[i - 1] == path[i - 1];
      assert i <= k ==> q[i] == path[i];
    }
  }

  /** A document with a sibling that is not later is missing from some chain. */
  lemma {:induction false} Overtaken(docs: seq<Document>, p: nat, c: nat, chain: seq<nat>) returns (other: seq<nat>)
    requires Forest(docs) && Child(docs, p, c) && !First(docs, c)
    requires Chain(docs, chain) && p in chain
    ensures Chain(docs, other) && other[0] == chain[0] && c !in other
  {
    var k :| 0 <= k < |chain| && chain[k] == p;
    var b := Rival(docs, p, c);
    Diverges(docs, chain, k, b);
    other := Completes(docs, chain[..k + 1] + [b]);
    assert other[0] == chain[0] && other[k] == p && other[k + 1] == b;
    if c in other {
      var j :| 0 <= j < |other| && other[j] == c;
      OnePlace(docs, other, k, j);
    }
  }

  /** In a path a child stands right after its parent. */
  lemma OnePlace(docs: seq<Document>, path: seq<nat>, k: nat, j: nat)
    requires Forest(docs) && Path(docs, path) && k < |path| && j < |path|
    requires Child(docs, path[k], path[j])
    ensures j == k + 1
  {
    ChildAfter(docs, path[k], path[j]);
    if j > 0 {
      assert Earliest(docs, path[j - 1], path[j]);
      ChildAfter(docs, path[j - 1], path[j]);
      if k < j - 1 {
        PathUniform(docs, path, k, j - 1);
      } else if j - 1 < k {
        PathUniform(docs, path, j - 1, k);
      }
    }
  }

  /** An earliest child other than `c`. */
  lemma Rival(docs: seq<Document>, p: nat, c: nat) returns (b: nat)
    requires Forest(docs) && Child(docs, p, c) && !First(docs, c)
    ensures Earliest(docs, p, b) && b != c
  {
    b := EarliestExists(docs, p);
    if b == c {
      b :| Siblings(docs, c, b) && docs[b].uploadedAt <= docs[c].uploadedAt;
      assert Child(docs, p, b);
    }
  }

  lemma {:induction false} LeftOut(docs: seq<Document>, c: nat) returns (path: seq<nat>)
    requires Forest(docs) && c < |docs| && !FirstLine(docs, c)
    ensures Chain(docs, path) && path[0] == Root(docs, c) && c !in path
    decreases c
  {
    var p := ParentBefore(docs, c);
    if FirstLine(docs, p) {
      var chain := SomeChain(docs, Root(docs, p));
      FirstLineListed(docs, p, chain);
      path := Overtaken(docs, p, c, chain);
    } else {
      path := LeftOut(docs, p);
      if c in path {
        var j :| 0 <= j < |path| && path[j] == c;
        assert j > 0;
        assert Earliest(docs, path[j - 1], path[j]);
        ChildAfter(docs, path[j - 1], c);
      }
    }
  }

  /**
   With versions that fork, a document is certain to be in its own version chain exactly when it and
   all it descends from were uploaded before any sibling.
   */
  lemma ListedIffFirstLine(docs: seq<Document>, c: nat)
    requires Forest(docs) && c < |docs|
    ensures AlwaysListed(docs, c) <==> FirstLine(docs, c)
  {
    if FirstLine(docs, c) {
      forall path | Chain(docs, path) && path[0] == Root(docs, c) ensures c in path {
        FirstLineListed(docs, c, path);
      }
    } else {
      var path := LeftOut(docs, c);
    }
  }

  /** A document and all it descends from are earliest children, perhaps together with others. */
  ghost predicate EarliestLine(docs: seq<Document>, c: nat)
    requires Forest(docs) && c < |docs|
    decreases c
  {
    docs[c].parent.Some? ==>
      var p := IndexOf(docs, docs[c].parent.value);
      assert p.Some? && p.value < c by { var q := ParentBefore(docs, c); }
      Earliest(docs, p.value, c) && EarliestLine(docs, p.value)
  }

  ghost predicate SometimesListed(docs: seq<Document>, c: nat)
    requires Forest(docs) && c < |docs|
  {
    exists path :: Chain(docs, path) && path[0] == Root(docs, c) && c in path
  }

  lemma {:induction false} ListedIsEarliest(docs: seq<Document>, path: seq<nat>, k: nat)
    requires Forest(docs) && Path(docs, path) && k < |path|
    ensures EarliestLine(docs, path[k])
  {
    if k == 0 {
      LineStarts(docs, path[0]);
    } else {
      var p, c := path[k - 1], path[k];
      ListedIsEarliest(docs, path, k - 1);
      assert Earliest(docs, p, c);
      LineGrows(docs, p, c);
    }
  }

  lemma LineStarts(docs: seq<Document>, c: nat)
    requires Forest(docs) && c < |docs| && docs[c].parent.None?
    ensures EarliestLine(docs, c)
  {
  }

  lemma LineGrows(docs: seq<Document>, p: nat, c: nat)
    requires Forest(docs) && p < |docs| && c < |docs| && EarliestLine(docs, p) && Earliest(docs, p, c)
    ensures EarliestLine(docs, c)
  {
    ChildAfter(docs, p, c);
  }

  lemma {:induction false} LinePath(docs: seq<Document>, c: nat) returns (path: seq<nat>)
    requires Forest(docs) && c < |docs| && EarliestLine(docs, c)
    ensures Path(docs, path) && path[0] == Root(docs, c) && path[|path| - 1] == c
    decreases c
  {
    if docs[c].parent.None? {
      path := [c];
    } else {
      var p := ParentBefore(docs, c);
      path := LinePath(docs, p);
      PathSnoc(docs, path, c);
      path := path + [c];
    }
  }

  /**
   A document can be in its own version chain at all exactly when no sibling of it, or of a document it
   descends from, was uploaded before; otherwise no choice among simultaneous uploads lists it.
   */
  lemma ListedIffEarliestLine(docs: seq<Document>, c: nat)
    requires Forest(docs) && c < |docs|
    ensures SometimesListed(docs, c) <==> EarliestLine(docs, c)
  {
    if EarliestLine(docs, c) {
      var path := LinePath(docs, c);
      var chain := Completes(docs, path);
      assert chain[0] == path[0] && chain[|path| - 1] == c;
    }
    if path :| Chain(docs, path) && path[0] == Root(docs, c) && c in path {
      var k :| 0 <= k < |path| && path[k] == c;
      ListedIsEarliest(docs, path, k);
    }
  }

  /** Two versions of one document: no chain from the first version holds the later one. */
  lemma ForkedVersionMissing(first: Document, second: Document, third: Document)
    requires Forest([first, second, third]) && first.parent.None?
    requires second.parent == third.parent == Some(first.id) && second.uploadedAt < third.uploadedAt
    ensures !SometimesListed([first, second, third], 2)
  {
    var docs := [first, second, third];
    ListedIffEarliestLine(docs, 2);
    IndexOfUnique(docs, 0);
    assert Child(docs, 0, 1);
  }

  /** Such a store is what three uploads leave. */
  lemma ForkedStoreExists()
    ensures var first := Document(0, 0, None, Generic, 1, 0);
            Forest([first, first.(id := 1, parent := Some(0), uploadedAt := 1),
                    first.(id := 2, parent := Some(0), uploadedAt := 2)])
  {
    var first := Document(0, 0, None, Generic, 1, 0);
    var second := first.(id := 1, parent := Some(0), uploadedAt := 1);
    var third := first.(id := 2, parent := Some(0), uploadedAt := 2);
    assert IndexOf([first], 0) == Some(0);
    assert [first, second][..1] == [first];
    ForestGrows([], first);
    assert [] + [first] == [first];
    ForestGrows([first], second);
    assert [first] + [second] == [first, second];
    ForestGrows([first, second], third);
    assert [first, second] + [third] == [first, second, third];
  }

  /** No document has two children. */
  ghost predicate Linear(docs: seq<Document>) {
    forall c: nat, d: nat :: !Siblings(docs, c, d)
  }

  lemma {:induction false} LinearIsFirst(docs: seq<Document>, c: nat)
    requires Forest(docs) && Linear(docs) && c < |docs|
    ensures FirstLine(docs, c)
    decreases c
  {
    if docs[c].parent.Some? {
      var p := ParentBefore(docs, c);
      LinearIsFirst(docs, p);
    }
  }

  lemma {:induction false} SameSteps(docs: seq<Document>, a: seq<nat>, b: seq<nat>, k: nat)
    requires Linear(docs) && Path(docs, a) && Path(docs, b) && a[0] == b[0]
    requires k <= |a| && k <= |b|
    ensures a[..k] == b[..k]
  {
    if k > 1 {
      SameSteps(docs, a, b, k - 1);
      assert a[k - 2] == a[..k - 1][k - 2] == b[..k - 1][k - 2] == b[k - 2];
      assert Earliest(docs, a[k - 2], a[k - 1]) && Earliest(docs, b[k - 2], b[k - 1]);
      assert !Siblings(docs, a[k - 1], b[k - 1]);
      assert a[..k] == a[..k - 1] + [a[k - 1]] && b[..k] == b[..k - 1] + [b[k - 1]];
    }
  }

  lemma Continues(docs: seq<Document>, path: seq<nat>, n: nat)
    requires Path(docs, path) && 0 < n < |path|
    ensures !Leaf(docs, path[n - 1])
  {
    assert Earliest(docs, path[n - 1], path[n]);
  }

  lemma ChainNotLonger(docs: seq<Document>, a: seq<nat>, b: seq<nat>)
    requires Linear(docs) && Chain(docs, a) && Chain(docs, b) && a[0] == b[0]
    ensures |b| <= |a|
  {
    if |a| < |b| {
      var n := |a|;
      SameSteps(docs, a, b, n);
      assert a[n - 1] == a[..n][n - 1] == b[..n][n - 1] == b[n - 1];
      Continues(docs, b, n);
    }
  }

  /** Without forks a document is in its chain, and every member of the chain has the same chain. */
  lemma LinearChains(docs: seq<Document>, c: nat, path: seq<nat>)
    requires Forest(docs) && Linear(docs) && c < |docs|
    requires Chain(docs, path) && path[0] == Root(docs, c)
    ensures c in path
    ensures forall d: nat, other: seq<nat> ::
              d in path && Chain(docs, other) && other[0] == Root(docs, d) ==> other == path
  {
    LinearIsFirst(docs, c);
    FirstLineListed(docs, c, path);
    forall d: nat, other: seq<nat> | d in path && Chain(docs, other) && other[0] == Root(docs, d)
      ensures other == path
    {
      var k :| 0 <= k < |path| && path[k] == d;
      PathRoots(docs, path, k);
      ChainNotLonger(docs, path, other);
      ChainNotLonger(docs, other, path);
      SameSteps(docs, path, other, |path|);
      assert path[..|path|] == path && other[..|path|] == other;
    }
  }

  // ----- The quota -----

  /** `SELECT COALESCE(SUM(size_bytes), 0)` for one customer. */
  function StorageBytes(docs: seq<Document>, customer: nat): nat {
    if docs == [] then 0
    else
      var d := docs[|docs| - 1];
      StorageBytes(docs[..|docs| - 1], customer) + (if d.customer == customer then d.size else 0)
  }

  lemma StorageSnoc(docs: seq<Document>, d: Document, customer: nat)
    ensures StorageBytes(docs + [d], customer) ==
            StorageBytes(docs, customer) + (if d.customer == customer then d.size else 0)
  {
    assert (docs + [d])[..|docs|] == docs;
  }

  /** What a store keeps: a forest of versions, and no customer over quota. */
  ghost predicate ValidStore(docs: seq<Document>) {
    Forest(docs) && forall c :: StorageBytes(docs, c) <= MAX_CUSTOMER_BYTES
  }

  lemma InsertKeepsStore(docs: seq<Document>, d: Document)
    requires ValidStore(docs) && Fits(docs, d)
    requires StorageBytes(docs, d.customer) + d.size <= MAX_CUSTOMER_BYTES
    ensures ValidStore(docs + [d])
  {
    ForestGrows(docs, d);
    forall c ensures StorageBytes(docs + [d], c) <= MAX_CUSTOMER_BYTES {
      StorageSnoc(docs, d, c);
    }
  }

  // ----- Uploads -----

  /** The category a new version gets. */
  function ResolvedCategory(docs: seq<Document>, u: Upload): Result<Category, UploadError> {
    if u.parent.None? then Ok(u.category)
    else
      match IndexOf(docs, u.parent.value)
      case None => Err(ParentNotFound)
      case Some(p) => if docs[p].customer != u.customer then Err(ParentOfOtherCustomer) else Ok(docs[p].category)
  }

  function CustomerError(customers: Customers, customer: nat): Option<UploadError> {
    if customer !in customers then Some(CustomerNotFound)
    else if !customers[customer].Active? then Some(CustomerNotActive)
    else None
  }

  /** The checks between the end of the stream and the transaction. */
  function FileError(file: File, declared: Option<string>): Option<UploadError> {
    if file.truncated then Some(Truncated)
    else if file.size > MAX_FILE_BYTES then Some(FileTooLarge)
    else if file.sniffed.None? then Some(UnknownType)
    else if declared.Some? && declared.value != "" && declared != file.sniffed then Some(MimeMismatch)
    else None
  }

  /** The parent asked for is there and belongs to the customer. */
  ghost predicate OwnParent(docs: seq<Document>, u: Upload)
    requires u.parent.Some?
  {
    exists p :: 0 <= p < |docs| && docs[p].id == u.parent.value && docs[p].customer == u.customer
  }

  /** What an upload must meet to be stored. */
  ghost predicate Acceptable(docs: seq<Document>, customers: Customers, u: Upload) {
    && (u.parent.Some? ==> OwnParent(docs, u))
    && (u.parent.None? ==> !u.category.Other?)
    && u.customer in customers && customers[u.customer].Active?
    && !u.file.truncated && u.file.size <= MAX_FILE_BYTES && u.file.sniffed.Some?
    && (u.declared.None? || u.declared.value == "" || u.declared == u.file.sniffed)
    && StorageBytes(docs, u.customer) + u.file.size <= MAX_CUSTOMER_BYTES
  }

  /** The reason an error gives is true of the upload. */
  ghost predicate Explains(e: UploadError, docs: seq<Document>, customers: Customers, u: Upload) {
    match e
    case ParentNotFound => u.parent.Some? && forall i :: 0 <= i < |docs| ==> docs[i].id != u.parent.value
    case ParentOfOtherCustomer =>
      u.parent.Some? && exists i :: 0 <= i < |docs| && docs[i].id == u.parent.value && docs[i].customer != u.customer
    case InvalidCategory => u.parent.None? && u.category.Other?
    case CustomerNotFound => u.customer !in customers
    case CustomerNotActive => u.customer in customers && !customers[u.customer].Active?
    case Truncated => u.file.truncated
    case FileTooLarge => u.file.size > MAX_FILE_BYTES
    case UnknownType => u.file.sniffed.None?
    case MimeMismatch =>
      u.file.sniffed.Some? && u.declared.Some? && u.declared.value != "" && u.declared != u.file.sniffed
    case OverQuota => StorageBytes(docs, u.customer) + u.file.size > MAX_CUSTOMER_BYTES
  }

  /** The order in which the reasons are looked for. */
  function Rank(e: UploadError): nat {
    match e
    case ParentNotFound => 0
    case ParentOfOtherCustomer => 1
    case InvalidCategory => 2
    case CustomerNotFound => 3
    case CustomerNotActive => 4
    case Truncated => 5
    case FileTooLarge => 6
    case UnknownType => 7
    case MimeMismatch => 8
    case OverQuota => 9
  }

  /** The first reason there is against the upload. */
  ghost predicate FirstReason(e: UploadError, docs: seq<Document>, customers: Customers, u: Upload) {
    Explains(e, docs, customers, u) && forall d :: Explains(d, docs, customers, u) ==> Rank(e) <= Rank(d)
  }

  class DocumentStore {
    var docs: seq<Document>
    var customers: Customers

    constructor ()
      ensures docs == [] && customers == map[] && ValidStore(docs)
    {
      docs, customers := [], map[];
    }

    method CustomerStorageBytes(customer: nat) returns (total: nat)
      ensures total == StorageBytes(docs, customer)
    {
      total := 0;
      for i := 0 to |docs|
        invariant total == StorageBytes(docs[..i], customer)
      {
        assert docs[..i + 1][..i] == docs[..i];
        if docs[i].customer == customer {
          total := total + docs[i].size;
        }
      }
      assert docs[..|docs|] == docs;
    }

    /**
     `uploadForCustomer`: it succeeds exactly on acceptable uploads, adds one row then and nothing
     otherwise. A new version takes the category of its parent, whatever the caller asked for.
     */
    method UploadForCustomer(u: Upload, id: nat, now: nat) returns (r: Result<nat, UploadError>)
      requires ValidStore(docs) && IndexOf(docs, id).None?
      modifies this`docs
      ensures ValidStore(docs)
      ensures r.Ok? <==> Acceptable(old(docs), customers, u)
      ensures r.Err? ==> docs == old(docs) && FirstReason(r.error, docs, customers, u)
      ensures r.Ok? ==> r.value == id && exists d: Document ::
                  && docs == old(docs) + [d] && Fits(old(docs), d)
                  && d.id == id && d.customer == u.customer && d.parent == u.parent
                  && d.size == u.file.size && d.uploadedAt == now
                  && (u.parent.None? ==> d.category == u.category)
    {
      var checked := PreCheck(u);
      if checked.Err? { return Err(checked.error); }
      r := InsertUnderLock(Document(id, u.customer, u.parent, checked.value, u.file.size, now));
    }

    /** Everything before the transaction; the category is that of the parent, if one is given. */
    method PreCheck(u: Upload) returns (r: Result<Category, UploadError>)
      requires Forest(docs)
      ensures r.Ok? <==> Acceptable(docs, customers, u)
      ensures r.Err? ==> FirstReason(r.error, docs, customers, u)
      ensures r.Ok? ==> ResolvedCategory(docs, u) == r && !r.value.Other?
    {
      var resolved := ResolvedCategory(docs, u);
      ParentFound(docs, u);
      ParentReasons(docs, customers, u);
      if resolved.Err? { return Err(resolved.error); }
      if resolved.value.Other? { return Err(InvalidCategory); }
      var early := CustomerError(customers, u.customer);
      if early.Some? { return Err(early.value); }
      var unfit := FileError(u.file, u.declared);
      if unfit.Some? { return Err(unfit.value); }
      var currentBytes := CustomerStorageBytes(u.customer);
      if currentBytes + u.file.size > MAX_CUSTOMER_BYTES { return Err(OverQuota); }
      return Ok(resolved.value);
    }

    /** The transaction of an upload: customer and quota are checked under the row lock. */
    method InsertUnderLock(d: Document) returns (r: Result<nat, UploadError>)
      requires ValidStore(docs) && Fits(docs, d)
      modifies this`docs
      ensures ValidStore(docs)
      ensures r.Ok? <==> CustomerError(customers, d.customer).None?
                         && StorageBytes(old(docs), d.customer) + d.size <= MAX_CUSTOMER_BYTES
      ensures r.Ok? ==> r.value == d.id && docs == old(docs) + [d]
      ensures r.Err? ==> docs == old(docs)
      ensures r == Err(CustomerNotFound) <==> d.customer !in customers
      ensures r == Err(CustomerNotActive) <==> d.customer in customers && !customers[d.customer].Active?
      ensures r.Err? ==> r.error in {CustomerNotFound, CustomerNotActive, OverQuota}
    {
      var refused := CustomerError(customers, d.customer);
      if refused.Some? { return Err(refused.value); }
      var lockedBytes := CustomerStorageBytes(d.customer);
      if lockedBytes + d.size > MAX_CUSTOMER_BYTES { return Err(OverQuota); }
      InsertKeepsStore(docs, d);
      docs := docs + [d];
      return Ok(d.id);
    }

    /** Any one of the earliest children of `p`, if it has children. */
    method EarliestChild(p: nat) returns (c: Option<nat>)
      requires p < |docs|
      ensures c.None? <==> Leaf(docs, p)
      ensures c.Some? ==> Earliest(docs, p, c.value)
    {
      c := None;
      for i := 0 to |docs|
        invariant c.None? ==> forall d: nat :: Child(docs, p, d) ==> d >= i
        invariant c.Some? ==> Child(docs, p, c.value)
        invariant c.Some? ==> forall d: nat :: Child(docs, p, d) && d < i ==>
                                docs[c.value].uploadedAt <= docs[d].uploadedAt
      {
        if docs[i].parent == Some(docs[p].id) && (c.None? || docs[i].uploadedAt < docs[c.value].uploadedAt) {
          assert Child(docs, p, i);
          c := Some(i);
        }
      }
      assert forall d: nat :: Child(docs, p, d) ==> d < |docs|;
    }

    /**
     `listVersionChain`: nothing for an unknown document, otherwise the documents of a chain from the
     first version of the one asked for, all for its customer and in its category.
     */
    method ListVersionChain(id: nat) returns (chain: seq<Document>)
      requires Forest(docs)
      ensures chain == [] <==> IndexOf(docs, id).None?
      ensures chain != [] ==> exists rows: seq<nat> ::
                RowsOf(docs, rows, chain) && Chain(docs, rows) && rows[0] == Root(docs, IndexOf(docs, id).value)
    {
      var found := IndexOf(docs, id);
      if found.None? { return []; }
      var cur := found.value;
      while docs[cur].parent.Some?
        invariant 0 <= cur < |docs| && Root(docs, cur) == Root(docs, found.value)
        decreases cur
      {
        var parent := IndexOf(docs, docs[cur].parent.value);
        ghost var p := ParentBefore(docs, cur);
        if parent.None? { break; }
        cur := parent.value;
      }
      chain := [docs[cur]];
      ghost var rows: seq<nat> := [cur];
      while true
        invariant RowsOf(docs, rows, chain) && Path(docs, rows)
        invariant rows[0] == Root(docs, found.value) && cur == rows[|rows| - 1]
        decreases |docs| - cur
      {
        var next := EarliestChild(cur);
        if next.None? { break; }
        ChildAfter(docs, cur, next.value);
        PathSnoc(docs, rows, next.value);
        cur := next.value;
        chain := chain + [docs[cur]];
        rows := rows + [cur];
      }
    }
  }

  /** What is found out about the parent comes before all other reasons. */
  lemma ParentReasons(docs: seq<Document>, customers: Customers, u: Upload)
    requires Forest(docs)
    ensures var r := ResolvedCategory(docs, u);
            if r.Err? then FirstReason(r.error, docs, customers, u)
            else if r.value.Other? then FirstReason(InvalidCategory, docs, customers, u)
            else forall d :: Explains(d, docs, customers, u) ==> Rank(d) > 2
  {
    ParentFound(docs, u);
    if u.parent.Some? {
      var found := IndexOf(docs, u.parent.value);
      forall i | 0 <= i < |docs| && docs[i].id == u.parent.value ensures found == Some(i) {
        IdsUnique(docs, i, found.value);
      }
    }
  }

  lemma ParentFound(docs: seq<Document>, u: Upload)
    requires Forest(docs)
    ensures ResolvedCategory(docs, u).Ok? <==>
            (u.parent.Some? ==> OwnParent(docs, u))
    ensures u.parent.Some? && ResolvedCategory(docs, u).Ok? ==> !ResolvedCategory(docs, u).value.Other?
  {
    if u.parent.Some? {
      var found := IndexOf(docs, u.parent.value);
      if found.Some? {
        assert Fits(docs[..found.value], docs[found.value]);
        forall p | 0 <= p < |docs| && docs[p].id == u.parent.value ensures p == found.value {
          IdsUnique(docs, p, found.value);
        }
      }
    }
  }
}
