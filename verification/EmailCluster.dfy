/** Typo clustering of e-mail addresses: the linear one-edit test and the choice of a representative. */
module EmailCluster {
  import opened Wrappers
  import opened Numbers
  import opened RateLimit

  /** The Levenshtein distance, by recursion on the first characters. */
  function Distance(x: string, y: string): (d: nat)
    ensures d == 0 <==> x == y
    ensures |x| <= |y| + d && |y| <= |x| + d
    decreases |x| + |y|
  {
    if x == "" then |y|
    else if y == "" then |x|
    else if x[0] == y[0] then
      assert x == [x[0]] + x[1..] && y == [y[0]] + y[1..];
      Distance(x[1..], y[1..])
    else 1 + Min(Distance(x[1..], y), Min(Distance(x, y[1..]), Distance(x[1..], y[1..])))
  }

  lemma {:induction false} DistanceSymmetric(x: string, y: string)
    ensures Distance(x, y) == Distance(y, x)
    decreases |x| + |y|
  {
    if x != "" && y != "" {
      DistanceSymmetric(x[1..], y[1..]);
      DistanceSymmetric(x[1..], y);
      DistanceSymmetric(x, y[1..]);
    }
  }

  /** Position `i` can be substituted, deleted from `x` or inserted into it to give `y`. */
  predicate EditAt(x: string, y: string, i: nat) {
    && i <= |x| && i <= |y| && x[..i] == y[..i]
    && ((i < |x| && i < |y| && x[i + 1..] == y[i + 1..])
        || (i < |x| && x[i + 1..] == y[i..])
        || (i < |y| && x[i..] == y[i + 1..]))
  }

  /** An edit behind a common first character is an edit of the rests. */
  lemma EditBehindHead(x: string, y: string, i: nat)
    requires x != "" && y != "" && x[0] == y[0] && EditAt(x, y, i)
    ensures x[1..] == y[1..] || EditAt(x[1..], y[1..], if i > 0 then i - 1 else 0)
  {
    if i > 0 {
      assert x[1..][..i - 1] == x[..i][1..] && y[1..][..i - 1] == y[..i][1..];
    }
  }

  lemma {:induction false} EditMeansClose(x: string, y: string, i: nat)
    requires EditAt(x, y, i)
    ensures Distance(x, y) <= 1
    decreases |x| + |y|
  {
    if x != "" && y != "" {
      assert i > 0 ==> x[..i][0] == x[0] && y[..i][0] == y[0];
      if x[0] == y[0] {
        EditBehindHead(x, y, i);
        if x[1..] != y[1..] {
          EditMeansClose(x[1..], y[1..], if i > 0 then i - 1 else 0);
        }
      }
    }
  }

  lemma {:induction false} CloseMeansEdit(x: string, y: string) returns (i: nat)
    requires x != y && Distance(x, y) <= 1
    ensures EditAt(x, y, i)
  {
    i := 0;
    if x != "" && y != "" && x[0] == y[0] {
      HeadsOff(x, y);
      i := CloseMeansEdit(x[1..], y[1..]);
      EditAhead(x, y, i);
      i := i + 1;
    } else {
      EditAtHead(x, y);
    }
  }

  lemma HeadsOff(x: string, y: string)
    requires x != "" && y != "" && x[0] == y[0]
    ensures Distance(x[1..], y[1..]) == Distance(x, y) && (x != y ==> x[1..] != y[1..])
  {
    assert x == [x[0]] + x[1..] && y == [y[0]] + y[1..];
  }

  lemma EditAhead(x: string, y: string, k: nat)
    requires x != "" && y != "" && x[0] == y[0] && EditAt(x[1..], y[1..], k)
    ensures EditAt(x, y, k + 1)
  {
    assert x[..k + 1] == [x[0]] + x[1..][..k] && y[..k + 1] == [y[0]] + y[1..][..k];
  }

  lemma EditAtHead(x: string, y: string)
    requires x != y && Distance(x, y) <= 1 && (x == "" || y == "" || x[0] != y[0])
    ensures EditAt(x, y, 0)
  {
    assert x[..0] == y[..0] && x[0..] == x && y[0..] == y;
  }

  /** A distance of at most 1 is what the name says: equal, or one single-character edit apart. */
  lemma AtMostOneEdit(x: string, y: string)
    ensures Distance(x, y) <= 1 <==> x == y || exists i: nat :: EditAt(x, y, i)
  {
    if x != y && Distance(x, y) <= 1 {
      var i := CloseMeansEdit(x, y);
    }
    if i: nat :| EditAt(x, y, i) {
      EditMeansClose(x, y, i);
    }
  }

  /** At a first difference, strings of one length are one edit apart iff the rests agree. */
  lemma SubstituteHere(x: string, y: string)
    requires x != "" && |x| == |y| && x[0] != y[0]
    ensures Distance(x, y) <= 1 <==> x[1..] == y[1..]
  {
    assert x[1..] != y && x != y[1..];
  }

  /** At a first difference, a string one longer is one edit away iff dropping its character helps. */
  lemma SkipHere(shorter: string, longer: string)
    requires shorter != "" && |longer| == |shorter| + 1 && shorter[0] != longer[0]
    ensures Distance(shorter, longer) <= 1 <==> shorter == longer[1..]
  {
  }

  /** After `i` positions with `diffs` differences, what the rests decide. */
  ghost predicate Compared(x: string, y: string, i: nat, diffs: nat) {
    && i <= |x| == |y| && diffs <= 1
    && (diffs == 0 ==> x[..i] == y[..i] && Distance(x, y) == Distance(x[i..], y[i..]))
    && (diffs == 1 ==> (Distance(x, y) <= 1 <==> x[i..] == y[i..]))
  }

  lemma ComparesNext(x: string, y: string, i: nat, diffs: nat)
    requires Compared(x, y, i, diffs) && i < |x|
    ensures x[i] == y[i] ==> Compared(x, y, i + 1, diffs)
    ensures x[i] != y[i] ==> if diffs == 0 then Compared(x, y, i + 1, 1) else Distance(x, y) > 1
  {
    assert x[i..] == [x[i]] + x[i + 1..] && y[i..] == [y[i]] + y[i + 1..];
    assert x[i..][0] == x[i] && y[i..][0] == y[i];
    if x[i] != y[i] {
      SubstituteHere(x[i..], y[i..]);
    } else {
      assert x[..i + 1] == x[..i] + [x[i]] && y[..i + 1] == y[..i] + [y[i]];
    }
  }

  /** The equal-length loop: exactly one position differs. */
  method OneSubstitution(x: string, y: string) returns (within: bool)
    requires |x| == |y| && x != y
    ensures within <==> Distance(x, y) <= 1
  {
    var diffs := 0;
    for i := 0 to |x|
      invariant Compared(x, y, i, diffs)
    {
      ComparesNext(x, y, i, diffs);
      if x[i] != y[i] {
        diffs := diffs + 1;
        if diffs > 1 {
          return false;
        }
      }
    }
    within := diffs == 1;
    assert x[..|x|] == x && y[..|y|] == y;
  }

  /** The two pointers, and what the rests behind them decide. */
  ghost predicate Aligned(shorter: string, longer: string, i: nat, j: nat, skipped: bool) {
    && i <= |shorter| && j <= |longer| == |shorter| + 1 && j == i + (if skipped then 1 else 0)
    && (!skipped ==> Distance(shorter, longer) == Distance(shorter[i..], longer[j..]))
    && (skipped ==> (Distance(shorter, longer) <= 1 <==> shorter[i..] == longer[j..]))
  }

  lemma AlignsNext(shorter: string, longer: string, i: nat, j: nat, skipped: bool)
    requires Aligned(shorter, longer, i, j, skipped) && i < |shorter| && j < |longer|
    ensures shorter[i] == longer[j] ==> Aligned(shorter, longer, i + 1, j + 1, skipped)
    ensures shorter[i] != longer[j] ==>
              if skipped then Distance(shorter, longer) > 1 else Aligned(shorter, longer, i, j + 1, true)
  {
    var a, b := shorter[i..], longer[j..];
    assert a == [shorter[i]] + shorter[i + 1..] && b == [longer[j]] + longer[j + 1..];
    assert a[1..] == shorter[i + 1..] && b[1..] == longer[j + 1..];
    if shorter[i] != longer[j] && !skipped {
      SkipHere(a, b);
    }
  }

  /** The two-pointer loop over strings whose lengths differ by one. */
  method OneInsertion(shorter: string, longer: string) returns (within: bool)
    requires |longer| == |shorter| + 1
    ensures within <==> Distance(shorter, longer) <= 1
  {
    var i, j, skipped := 0, 0, false;
    while i < |shorter| && j < |longer|
      invariant Aligned(shorter, longer, i, j, skipped)
    {
      AlignsNext(shorter, longer, i, j, skipped);
      if shorter[i] == longer[j] {
        i, j := i + 1, j + 1;
      } else if skipped {
        return false;
      } else {
        skipped := true;
        j := j + 1;
      }
    }
    within := true;
  }

  /** `withinOneEdit(a, b)`; `lower` stands for `toLowerCase`. */
  method WithinOneEdit(lower: string -> string, a: string, b: string) returns (within: bool)
    ensures within <==> Distance(lower(a), lower(b)) <= 1
  {
    var x, y := lower(a), lower(b);
    if x == y {
      return true;
    }
    if |x| > |y| + 1 || |y| > |x| + 1 {
      return false;
    }
    if |x| == |y| {
      within := OneSubstitution(x, y);
    } else if |x| > |y| {
      DistanceSymmetric(x, y);
      within := OneInsertion(y, x);
    } else {
      within := OneInsertion(x, y);
    }
  }

  // ----- The cluster representative -----

  /** JavaScript string order: by UTF-16 code units, a proper prefix first. */
  predicate Less(a: string, b: string) {
    b != "" && (a == "" || a[0] < b[0] || (a[0] == b[0] && Less(a[1..], b[1..])))
  }

  lemma {:induction false} LessTotal(a: string, b: string)
    ensures Less(a, b) || Less(b, a) || a == b
    ensures !(Less(a, b) && Less(b, a)) && !Less(a, a)
  {
    if a != "" && b != "" {
      LessTotal(a[1..], b[1..]);
      assert a == [a[0]] + a[1..] && b == [b[0]] + b[1..];
    }
    if a != "" {
      LessTotal(a[1..], a[1..]);
    }
  }

  lemma {:induction false} LessTransitive(a: string, b: string, c: string)
    requires Less(a, b) && Less(b, c)
    ensures Less(a, c)
  {
    if a != "" && b != "" && c != "" {
      if a[0] == b[0] == c[0] {
        LessTransitive(a[1..], b[1..], c[1..]);
      }
    }
  }

  lemma StillNotLess(a: string, smaller: string, b: string)
    requires !Less(a, b) && Less(smaller, b)
    ensures !Less(a, smaller)
  {
    if Less(a, smaller) {
      LessTransitive(a, smaller, b);
    }
  }

  const EMAIL_PREFIX := "reset:email:"
  const CLUSTER_PREFIX := "reset:cluster:"

  datatype Kind = ByEmail | ByCluster

  datatype Candidate = Candidate(kind: Kind, key: string)

  function PrefixOf(kind: Kind): string {
    if kind == ByEmail then EMAIL_PREFIX else CLUSTER_PREFIX
  }

  /** `key.slice(prefix.length)` */
  function Address(c: Candidate): string {
    if |PrefixOf(c.kind)| <= |c.key| then c.key[|PrefixOf(c.kind)|..] else ""
  }

  /** The buckets that the query looks at: recent per-address ones, and clusters not yet forgotten. */
  ghost predicate Recent(buckets: map<string, Bucket>, now: nat, window: nat, lockout: nat, c: Candidate) {
    && c.key in buckets
    && PrefixOf(c.kind) <= c.key
    && (if c.kind == ByEmail then buckets[c.key].resetAt > now - window
        else Locked(Some(buckets[c.key]), now) || buckets[c.key].resetAt > now - (window + lockout))
  }

  /** The addresses that may represent `email`. */
  ghost predicate Neighbour(lower: string -> string, rows: seq<Candidate>, email: string, address: string) {
    exists i :: 0 <= i < |rows| && Address(rows[i]) == address && Distance(lower(email), lower(address)) <= 1
  }

  /** `rep` is the least of the (lower-cased) address itself and its neighbours in `rows`. */
  ghost predicate IsRepresentative(lower: string -> string, rows: seq<Candidate>, email: string, rep: string) {
    && (rep == email || Neighbour(lower, rows, email, rep))
    && !Less(email, rep)
    && forall i :: 0 <= i < |rows| && Neighbour(lower, rows, email, Address(rows[i])) ==> !Less(Address(rows[i]), rep)
  }

  /** `rep` is the least of the address itself and its neighbours among the first `n` rows. */
  ghost predicate LeastOf(lower: string -> string, rows: seq<Candidate>, n: nat, key: string, rep: string) {
    && n <= |rows|
    && (rep == key || Neighbour(lower, rows, key, rep))
    && !Less(key, rep)
    && forall i :: 0 <= i < n && Distance(lower(key), lower(Address(rows[i]))) <= 1 ==> !Less(Address(rows[i]), rep)
  }

  lemma LeastStays(lower: string -> string, rows: seq<Candidate>, n: nat, key: string, rep: string)
    requires LeastOf(lower, rows, n, key, rep) && n < |rows|
    requires Distance(lower(key), lower(Address(rows[n]))) > 1 || !Less(Address(rows[n]), rep)
    ensures LeastOf(lower, rows, n + 1, key, rep)
  {
  }

  lemma LeastMoves(lower: string -> string, rows: seq<Candidate>, n: nat, key: string, rep: string)
    requires LeastOf(lower, rows, n, key, rep) && n < |rows|
    requires Distance(lower(key), lower(Address(rows[n]))) <= 1 && Less(Address(rows[n]), rep)
    ensures LeastOf(lower, rows, n + 1, key, Address(rows[n]))
  {
    var address := Address(rows[n]);
    forall i | 0 <= i < n && Distance(lower(key), lower(Address(rows[i]))) <= 1
      ensures !Less(Address(rows[i]), address)
    {
      StillNotLess(Address(rows[i]), address, rep);
    }
    StillNotLess(key, address, rep);
    LessTotal(address, address);
  }

  lemma LeastIsRepresentative(lower: string -> string, rows: seq<Candidate>, key: string, rep: string)
    requires LeastOf(lower, rows, |rows|, key, rep)
    ensures IsRepresentative(lower, rows, key, rep)
  {
    forall i | 0 <= i < |rows| && Neighbour(lower, rows, key, Address(rows[i]))
      ensures !Less(Address(rows[i]), rep)
    {
    }
  }

  /** The loop of `clusterKeyForResetEmail` over the rows that its query returned, in any order. */
  method Representative(lower: string -> string, rows: seq<Candidate>, email: string) returns (rep: string)
    ensures IsRepresentative(lower, rows, lower(email), rep)
  {
    var key := lower(email);
    rep := key;
    LessTotal(key, key);
    for n := 0 to |rows|
      invariant LeastOf(lower, rows, n, key, rep)
    {
      var address := Address(rows[n]);
      if address == key {
        LeastStays(lower, rows, n, key, rep);
        continue;
      }
      var within := WithinOneEdit(lower, key, address);
      if within && Less(address, rep) {
        LeastMoves(lower, rows, n, key, rep);
        rep := address;
      } else {
        LeastStays(lower, rows, n, key, rep);
      }
    }
    LeastIsRepresentative(lower, rows, key, rep);
  }

  /** The representative does not depend on the order in which the database returns the rows. */
  lemma RepresentativeUnique(lower: string -> string, rows: seq<Candidate>, other: seq<Candidate>, email: string,
                             a: string, b: string)
    requires forall c :: c in rows <==> c in other
    requires IsRepresentative(lower, rows, email, a) && IsRepresentative(lower, other, email, b)
    ensures a == b
  {
    SameNeighbours(lower, rows, other, email, a);
    SameNeighbours(lower, other, rows, email, b);
    LessTotal(a, b);
    if a != email {
      var i :| 0 <= i < |other| && Address(other[i]) == a && Distance(lower(email), lower(a)) <= 1;
    }
    if b != email {
      var i :| 0 <= i < |rows| && Address(rows[i]) == b && Distance(lower(email), lower(b)) <= 1;
    }
  }

  lemma SameNeighbours(lower: string -> string, rows: seq<Candidate>, other: seq<Candidate>, email: string, a: string)
    requires forall c :: c in rows <==> c in other
    ensures Neighbour(lower, rows, email, a) ==> Neighbour(lower, other, email, a)
  {
    if i :| 0 <= i < |rows| && Address(rows[i]) == a && Distance(lower(email), lower(a)) <= 1 {
      assert rows[i] in other;
      var k :| 0 <= k < |other| && other[k] == rows[i];
    }
  }

  /** Nothing that may represent `email` is smaller than `address`. */
  ghost predicate NoneSmaller(lower: string -> string, rows: seq<Candidate>, email: string, address: string) {
    && !Less(email, address)
    && forall i :: 0 <= i < |rows| && Neighbour(lower, rows, email, Address(rows[i])) ==>
                     !Less(Address(rows[i]), address)
  }

  /** The address in a bucket's key, for both kinds of bucket. */
  lemma AddressOfKey(s: string)
    ensures Address(Candidate(ByEmail, "reset:email:" + s)) == s
    ensures Address(Candidate(ByCluster, "reset:cluster:" + s)) == s
  {
    assert ("reset:email:" + s)[|"reset:email:"|..] == s;
    assert ("reset:cluster:" + s)[|"reset:cluster:"|..] == s;
  }

  lemma KeyOfAddress(c: Candidate)
    requires PrefixOf(c.kind) <= c.key
    ensures c.key == (if c.kind == ByEmail then "reset:email:" else "reset:cluster:") + Address(c)
  {
  }

  /** A neighbour among the rows is the representative exactly when nothing eligible is smaller. */
  lemma NeighbourIsFound(lower: string -> string, rows: seq<Candidate>, email: string, rep: string, c: Candidate)
    requires IsRepresentative(lower, rows, email, rep)
    requires c in rows && Distance(lower(email), lower(Address(c))) <= 1
    ensures rep == Address(c) || Less(rep, Address(c))
    ensures rep == Address(c) <==> NoneSmaller(lower, rows, email, Address(c))
  {
    var i :| 0 <= i < |rows| && rows[i] == c;
    assert Neighbour(lower, rows, email, Address(rows[i]));
    LessTotal(rep, Address(c));
    if NoneSmaller(lower, rows, email, Address(c)) && rep != email {
      var k :| 0 <= k < |rows| && Address(rows[k]) == rep && Distance(lower(email), lower(rep)) <= 1;
      assert Neighbour(lower, rows, email, Address(rows[k]));
    }
  }

  /** An address that failed within the window takes the addresses one edit away with it. */
  lemma RecentAddressIsFound(lower: string -> string, buckets: map<string, Bucket>, now: nat, window: nat, lockout: nat,
                             rows: seq<Candidate>, email: string, rep: string, s: string)
    requires forall c :: Recent(buckets, now, window, lockout, c) ==> c in rows
    requires IsRepresentative(lower, rows, email, rep)
    requires "reset:email:" + s in buckets && buckets["reset:email:" + s].resetAt > now - window
    requires Distance(lower(email), lower(s)) <= 1
    ensures rep == s || Less(rep, s)
    ensures rep == s <==> NoneSmaller(lower, rows, email, s)
  {
    AddressOfKey(s);
    var c := Candidate(ByEmail, "reset:email:" + s);
    assert Recent(buckets, now, window, lockout, c);
    NeighbourIsFound(lower, rows, email, rep, c);
  }

  /** So does a cluster that is locked or was failed against within window and lockout. */
  lemma RecentClusterIsFound(lower: string -> string, buckets: map<string, Bucket>, now: nat, window: nat, lockout: nat,
                             rows: seq<Candidate>, email: string, rep: string, s: string)
    requires forall c :: Recent(buckets, now, window, lockout, c) ==> c in rows
    requires IsRepresentative(lower, rows, email, rep)
    requires "reset:cluster:" + s in buckets
    requires var b := buckets["reset:cluster:" + s];
             (b.lockedUntil.Some? && b.lockedUntil.value > now) || b.resetAt > now - (window + lockout)
    requires Distance(lower(email), lower(s)) <= 1
    ensures rep == s || Less(rep, s)
    ensures rep == s <==> NoneSmaller(lower, rows, email, s)
  {
    AddressOfKey(s);
    var c := Candidate(ByCluster, "reset:cluster:" + s);
    assert Recent(buckets, now, window, lockout, c);
    NeighbourIsFound(lower, rows, email, rep, c);
  }

  /** An address that another one represents it by has a live bucket of one of the two kinds. */
  lemma RepresentativeHasBucket(lower: string -> string, buckets: map<string, Bucket>, now: nat, window: nat,
                                lockout: nat, rows: seq<Candidate>, email: string, rep: string)
    requires forall c :: c in rows ==> Recent(buckets, now, window, lockout, c)
    requires IsRepresentative(lower, rows, email, rep) && rep != email
    ensures Less(rep, email) && Distance(lower(email), lower(rep)) <= 1
    ensures (var k := "reset:email:" + rep; k in buckets && buckets[k].resetAt > now - window)
            || var k := "reset:cluster:" + rep;
               k in buckets && (buckets[k].resetAt > now - (window + lockout)
                                || (buckets[k].lockedUntil.Some? && buckets[k].lockedUntil.value > now))
  {
    LessTotal(rep, email);
    var i :| 0 <= i < |rows| && Address(rows[i]) == rep && Distance(lower(email), lower(rep)) <= 1;
    assert Recent(buckets, now, window, lockout, rows[i]);
    KeyOfAddress(rows[i]);
  }

  /**
   While a cluster bucket is locked, an address one edit from its representative maps to that bucket
   exactly when neither it nor a neighbour is smaller, and to a smaller address otherwise.
   */
  lemma LockedClusterIsFound(lower: string -> string, buckets: map<string, Bucket>, now: nat, window: nat, lockout: nat,
                             rows: seq<Candidate>, email: string, rep: string, locked: string)
    requires forall c :: Recent(buckets, now, window, lockout, c) ==> c in rows
    requires IsRepresentative(lower, rows, email, rep)
    requires CLUSTER_PREFIX + locked in buckets && Locked(Some(buckets[CLUSTER_PREFIX + locked]), now)
    requires Distance(lower(email), lower(locked)) <= 1
    ensures rep == locked || Less(rep, locked)
    ensures rep == locked <==> NoneSmaller(lower, rows, email, locked)
  {
    RecentClusterIsFound(lower, buckets, now, window, lockout, rows, email, rep, locked);
  }

  /** A smaller address one edit from a lone locked cluster stands for itself, in a bucket that is not locked. */
  lemma SmallerTypoEvades(lower: string -> string, b: Bucket, email: string, locked: string)
    requires Less(email, locked) && Distance(lower(email), lower(locked)) <= 1
    ensures IsRepresentative(lower, [Candidate(ByCluster, CLUSTER_PREFIX + locked)], email, email)
    ensures CLUSTER_PREFIX + email !in map[CLUSTER_PREFIX + locked := b]
  {
    var rows := [Candidate(ByCluster, CLUSTER_PREFIX + locked)];
    assert Address(rows[0]) == locked;
    LessTotal(email, locked);
    LessTotal(email, email);
    assert (CLUSTER_PREFIX + email)[|CLUSTER_PREFIX|..] == email;
    assert (CLUSTER_PREFIX + locked)[|CLUSTER_PREFIX|..] == locked;
  }

  /** With `bo@x.eu` locked, `ao@x.eu` is such an address. */
  lemma EvadingInput()
    ensures Less("ao@x.eu", "bo@x.eu") && Distance("ao@x.eu", "bo@x.eu") <= 1
  {
    assert "ao@x.eu"[1..] == "o@x.eu" == "bo@x.eu"[1..];
    EditMeansClose("ao@x.eu", "bo@x.eu", 0);
  }
}
