/**
 Changing the address of an admin or a customer user: request, verify, revert, beside the two other
 writers of the column, account creation and the admin's edit of a customer user. The services are the
 same protocol over two account tables, so the table is a parameter. A token stands for its hash.
 */
module EmailChange {
  import opened Wrappers

  const HOUR_MS: nat := 3_600_000
  const VERIFY_TTL_MS: nat := 24 * HOUR_MS
  const REVERT_TTL_MS: nat := 7 * 24 * HOUR_MS

  /** The columns are CITEXT: the database compares `folded`, JavaScript's `===` compares `text`. */
  datatype Email = Email(folded: string, text: string)

  type Token = nat

  datatype Kind = Admin | CustomerUser

  datatype User = User(kind: Kind, id: nat)

  /** A row of `email_change_requests`. */
  datatype Change = Change(
    user: User, oldEmail: Email, newEmail: Email, createdAt: nat,
    verifyToken: Option<Token>, verifyExpires: nat, verifiedAt: Option<nat>,
    revertToken: Option<Token>, revertExpires: Option<nat>, revertedAt: Option<nat>,
    cancelledAt: Option<nat>)

  datatype Session = Session(user: User, revokedAt: Option<nat>)

  /** The tables, and every token handed out so far. */
  datatype State = State(
    accounts: map<User, Email>, changes: map<nat, Change>, sessions: map<nat, Session>, minted: set<Token>)

  datatype Step =
    | Request(user: User, next: Email, id: nat, token: Token, now: nat)
    | Verify(user: User, id: nat, token: Token, issued: Token, now: nat)
    | Revert(user: User, id: nat, token: Token, now: nat)
    | Join(user: User, email: Email)
    | AdminEdit(user: User, email: Email)
    | Login(session: nat, user: User)

  /** Neither verified nor cancelled: what the partial unique index ranges over. */
  predicate Open(c: Change) {
    c.verifiedAt.None? && c.cancelledAt.None?
  }

  predicate Same(a: Email, b: Email) {
    a.folded == b.folded
  }

  predicate Taken(accounts: map<User, Email>, kind: Kind, email: Email) {
    exists v :: v in accounts && v.kind == kind && Same(accounts[v], email)
  }

  predicate TakenByOther(accounts: map<User, Email>, u: User, email: Email) {
    exists v :: v in accounts && v.kind == u.kind && v != u && Same(accounts[v], email)
  }

  /** A request looks at its own table: the customer service with the account itself, the admin service without. */
  predicate TakenInTable(accounts: map<User, Email>, u: User, email: Email) {
    if u.kind.CustomerUser? then Taken(accounts, CustomerUser, email) else TakenByOther(accounts, u, email)
  }

  function OtherKind(kind: Kind): Kind {
    if kind.Admin? then CustomerUser else Admin
  }

  /** Cancels the open request of `u`, with its tokens. */
  function Cancelled(changes: map<nat, Change>, u: User, now: nat): map<nat, Change> {
    map id | id in changes ::
      if changes[id].user == u && Open(changes[id])
      then changes[id].(cancelledAt := Some(now), verifyToken := None, revertToken := None)
      else changes[id]
  }

  function Revoked(sessions: map<nat, Session>, u: User, now: nat): map<nat, Session> {
    map id | id in sessions ::
      if sessions[id].user == u && sessions[id].revokedAt.None? then sessions[id].(revokedAt := Some(now))
      else sessions[id]
  }

  function NewChange(u: User, held: Email, next: Email, token: Token, now: nat): Change {
    Change(u, held, next, now, Some(token), now + VERIFY_TTL_MS, None, None, None, None, None)
  }

  /**
   The calls that succeed and change something, each one transaction. Creation, the admin's edit and
   the revert rely on the UNIQUE constraint of their own table and never look at the other one.
   */
  predicate Enabled(s: State, step: Step) {
    match step
    case Request(u, next, id, token, now) =>
      && u in s.accounts && s.accounts[u].text != next.text
      && !TakenInTable(s.accounts, u, next) && !Taken(s.accounts, OtherKind(u.kind), next)
      && id !in s.changes && token !in s.minted
    case Verify(u, id, token, issued, now) =>
      && id in s.changes && s.changes[id].verifyToken == Some(token) && s.changes[id].user == u
      && Open(s.changes[id]) && now < s.changes[id].verifyExpires
      && u in s.accounts && !TakenByOther(s.accounts, u, s.changes[id].newEmail)
      && !Taken(s.accounts, OtherKind(u.kind), s.changes[id].newEmail)
      && issued !in s.minted
    case Revert(u, id, token, now) =>
      && id in s.changes && s.changes[id].revertToken == Some(token) && s.changes[id].user == u
      && s.changes[id].revertedAt.None?
      && s.changes[id].revertExpires.Some? && now < s.changes[id].revertExpires.value
      && (u.kind.CustomerUser? ==> u in s.accounts)
      && (u in s.accounts ==> !TakenByOther(s.accounts, u, s.changes[id].oldEmail))
    case Join(u, email) => u !in s.accounts && !Taken(s.accounts, u.kind, email)
    case AdminEdit(u, email) =>
      u.kind.CustomerUser? && u in s.accounts && !Same(s.accounts[u], email) && !TakenByOther(s.accounts, u, email)
    case Login(session, u) => session !in s.sessions && u in s.accounts
  }

  function After(s: State, step: Step): State
    requires Enabled(s, step)
  {
    match step
    case Request(u, next, id, token, now) =>
      s.(changes := Cancelled(s.changes, u, now)[id := NewChange(u, s.accounts[u], next, token, now)],
         minted := s.minted + {token})
    case Verify(u, id, token, issued, now) =>
      var c := s.changes[id];
      s.(accounts := s.accounts[u := c.newEmail],
         changes := s.changes[id := c.(verifiedAt := Some(now), verifyToken := None, revertToken := Some(issued),
                                       revertExpires := Some(now + REVERT_TTL_MS))],
         minted := s.minted + {issued})
    case Revert(u, id, token, now) =>
      s.(accounts := if u in s.accounts then s.accounts[u := s.changes[id].oldEmail] else s.accounts,
         changes := s.changes[id := s.changes[id].(revertedAt := Some(now), revertToken := None)],
         sessions := Revoked(s.sessions, u, now))
    case Join(u, email) => s.(accounts := s.accounts[u := email])
    case AdminEdit(u, email) => s.(accounts := s.accounts[u := email])
    case Login(session, u) => s.(sessions := s.sessions[session := Session(u, None)])
  }

  ghost predicate Legal(s: State, steps: seq<Step>)
    decreases |steps|
  {
    steps == [] || (Enabled(s, steps[0]) && Legal(After(s, steps[0]), steps[1..]))
  }

  ghost function Run(s: State, steps: seq<Step>): State
    requires Legal(s, steps)
    decreases |steps|
  {
    if steps == [] then s else Run(After(s, steps[0]), steps[1..])
  }

  // ----- What every run keeps -----

  /** The life of one request: its stage and its tokens agree, and its deadlines were met. */
  ghost predicate ChangeOk(c: Change, minted: set<Token>) {
    && (c.verifyToken.Some? <==> Open(c))
    && (c.revertToken.Some? ==> c.verifiedAt.Some? && c.revertedAt.None?)
    && (c.verifyToken.Some? ==> c.verifyToken.value in minted)
    && (c.revertToken.Some? ==> c.revertToken.value in minted)
    && c.verifyExpires == c.createdAt + VERIFY_TTL_MS
    && (c.verifiedAt.Some? ==>
          && c.cancelledAt.None? && c.verifiedAt.value < c.createdAt + VERIFY_TTL_MS
          && c.revertExpires == Some(c.verifiedAt.value + REVERT_TTL_MS))
    && (c.revertedAt.Some? ==> c.verifiedAt.Some? && c.revertedAt.value < c.verifiedAt.value + REVERT_TTL_MS)
  }

  ghost predicate Holds(c: Change, t: Token) {
    c.verifyToken == Some(t) || c.revertToken == Some(t)
  }

  predicate Rivals(c: Change, d: Change) {
    Open(c) && Open(d) && c.user == d.user
  }

  ghost predicate OneOpen(changes: map<nat, Change>) {
    forall a, b :: a in changes && b in changes && Rivals(changes[a], changes[b]) ==> a == b
  }

  ghost predicate TokensApart(changes: map<nat, Change>) {
    forall a, b, t :: a in changes && b in changes && Holds(changes[a], t) && Holds(changes[b], t) ==> a == b
  }

  ghost predicate UniquePerTable(accounts: map<User, Email>) {
    forall u, v :: u in accounts && v in accounts && u.kind == v.kind && Same(accounts[u], accounts[v]) ==> u == v
  }

  ghost predicate Inv(s: State) {
    && (forall id :: id in s.changes ==> ChangeOk(s.changes[id], s.minted))
    && OneOpen(s.changes) && TokensApart(s.changes) && UniquePerTable(s.accounts)
  }

  lemma RequestKeepsTokens(s: State, step: Step)
    requires Inv(s) && step.Request? && Enabled(s, step)
    ensures TokensApart(After(s, step).changes)
  {
    var t := After(s, step);
    forall a, k | a in t.changes && Holds(t.changes[a], k) && a != step.id
      ensures a in s.changes && Holds(s.changes[a], k) && k in s.minted
    {
      assert ChangeOk(s.changes[a], s.minted);
    }
  }

  lemma RequestKeepsOneOpen(s: State, step: Step)
    requires OneOpen(s.changes) && step.Request? && Enabled(s, step)
    ensures OneOpen(After(s, step).changes)
  {
    var t := After(s, step);
    forall a | a in t.changes && Open(t.changes[a]) && a != step.id
      ensures a in s.changes && t.changes[a] == s.changes[a] && s.changes[a].user != step.user
    {
    }
  }

  lemma RequestKeepsInv(s: State, step: Step)
    requires Inv(s) && step.Request? && Enabled(s, step)
    ensures Inv(After(s, step))
  {
    RequestKeepsTokens(s, step);
    RequestKeepsOneOpen(s, step);
    var t := After(s, step);
    forall id | id in t.changes ensures ChangeOk(t.changes[id], t.minted) {
      assert id != step.id ==> ChangeOk(s.changes[id], s.minted);
    }
  }

  lemma VerifyKeepsTokens(s: State, step: Step)
    requires Inv(s) && step.Verify? && Enabled(s, step)
    ensures TokensApart(After(s, step).changes)
  {
    var t := After(s, step);
    forall a, k | a in t.changes && Holds(t.changes[a], k) && a != step.id
      ensures a in s.changes && Holds(s.changes[a], k) && k in s.minted
    {
      assert ChangeOk(s.changes[a], s.minted);
    }
  }

  lemma VerifyKeepsInv(s: State, step: Step)
    requires Inv(s) && step.Verify? && Enabled(s, step)
    ensures Inv(After(s, step))
  {
    VerifyKeepsTokens(s, step);
    var t := After(s, step);
    forall id | id in t.changes ensures ChangeOk(t.changes[id], t.minted) {
      assert ChangeOk(s.changes[id], s.minted);
    }
  }

  lemma RevertKeepsInv(s: State, step: Step)
    requires Inv(s) && step.Revert? && Enabled(s, step)
    ensures Inv(After(s, step))
  {
    var t := After(s, step);
    forall a, k | a in t.changes && Holds(t.changes[a], k) ensures a in s.changes && Holds(s.changes[a], k) {
    }
  }

  lemma StepKeepsInv(s: State, step: Step)
    requires Inv(s) && Enabled(s, step)
    ensures Inv(After(s, step))
  {
    match step
    case Request(_, _, _, _, _) => RequestKeepsInv(s, step);
    case Verify(_, _, _, _, _) => VerifyKeepsInv(s, step);
    case Revert(_, _, _, _) => RevertKeepsInv(s, step);
    case _ =>
  }

  /**
   In every reachable state an account has at most one open request, and every request met its
   deadlines: verified within a day of the request, reverted within a week of the verification.
   */
  lemma {:induction false} RunKeepsInv(s: State, steps: seq<Step>)
    requires Inv(s) && Legal(s, steps)
    ensures Inv(Run(s, steps))
    decreases |steps|
  {
    if steps != [] {
      StepKeepsInv(s, steps[0]);
      RunKeepsInv(After(s, steps[0]), steps[1..]);
    }
  }

  // ----- Tokens work once -----

  ghost predicate Uses(step: Step, t: Token) {
    (step.Verify? || step.Revert?) && step.token == t
  }

  /** Handed out once and held by no request. */
  ghost predicate Spent(s: State, t: Token) {
    t in s.minted && forall id :: id in s.changes ==> !Holds(s.changes[id], t)
  }

  lemma UseSpends(s: State, step: Step, t: Token)
    requires Inv(s) && Enabled(s, step) && Uses(step, t)
    ensures Spent(After(s, step), t)
  {
    var c := s.changes[step.id];
    assert ChangeOk(c, s.minted) && Holds(c, t);
    forall id | id in s.changes && id != step.id ensures !Holds(s.changes[id], t) {
      assert !(Holds(c, t) && Holds(s.changes[id], t));
    }
  }

  lemma {:induction false} SpentStays(s: State, steps: seq<Step>, t: Token)
    requires Legal(s, steps) && Spent(s, t)
    ensures Spent(Run(s, steps), t) && forall i :: 0 <= i < |steps| ==> !Uses(steps[i], t)
    decreases |steps|
  {
    if steps != [] {
      SpentStep(s, steps[0], t);
      SpentStays(After(s, steps[0]), steps[1..], t);
      assert forall i :: 0 < i < |steps| ==> steps[i] == steps[1..][i - 1];
    }
  }

  lemma SpentStep(s: State, step: Step, t: Token)
    requires Enabled(s, step) && Spent(s, t)
    ensures Spent(After(s, step), t) && !Uses(step, t)
  {
    if step.Verify? || step.Revert? {
      assert Holds(s.changes[step.id], step.token);
    }
  }

  /** In any run, a verify or revert token succeeds at most once. */
  lemma {:induction false} TokenWorksOnce(s: State, steps: seq<Step>, t: Token, i: nat, j: nat)
    requires Inv(s) && Legal(s, steps) && i < j < |steps|
    requires Uses(steps[i], t)
    ensures !Uses(steps[j], t)
    decreases |steps|
  {
    if i == 0 {
      UseSpends(s, steps[0], t);
      SpentStays(After(s, steps[0]), steps[1..], t);
      assert steps[j] == steps[1..][j - 1];
    } else {
      StepKeepsInv(s, steps[0]);
      TokenWorksOnce(After(s, steps[0]), steps[1..], t, i - 1, j - 1);
    }
  }

  // ----- Verify, then revert -----

  /** What a request says and whose it is never changes; a closed request stays closed. */
  lemma {:induction false} RequestStays(s: State, steps: seq<Step>, id: nat)
    requires Legal(s, steps) && id in s.changes
    ensures id in Run(s, steps).changes
    ensures var c, d := s.changes[id], Run(s, steps).changes[id];
            d.user == c.user && d.oldEmail == c.oldEmail && d.newEmail == c.newEmail && (Open(d) ==> Open(c))
    ensures var c, d := s.changes[id], Run(s, steps).changes[id];
            && d.createdAt == c.createdAt && d.verifyExpires == c.verifyExpires
            && (d.verifyToken.Some? ==> d.verifyToken == c.verifyToken)
            && (c.verifiedAt.Some? ==> d.verifiedAt.Some? && d.revertExpires == c.revertExpires
                                       && (d.revertToken.Some? ==> d.revertToken == c.revertToken))
    ensures forall u :: u in s.accounts ==> u in Run(s, steps).accounts
    decreases |steps|
  {
    if steps != [] {
      RequestStays(After(s, steps[0]), steps[1..], id);
    }
  }

  /** A request is verified with its own token, within a day, and brings its address to its account alone. */
  lemma RequestThenVerify(s: State, request: Step, before: seq<Step>, verify: Step)
    requires Inv(s) && request.Request? && verify.Verify? && verify.id == request.id
    requires Enabled(s, request) && Legal(After(s, request), before)
    requires Enabled(Run(After(s, request), before), verify)
    ensures verify.user == request.user && verify.token == request.token && verify.now < request.now + 86_400_000
    ensures var v := Run(After(s, request), before);
            && After(v, verify).accounts == v.accounts[request.user := request.next]
            && var c := After(v, verify).changes[request.id];
               c.verifiedAt == Some(verify.now) && c.verifyToken.None? && c.revertToken == Some(verify.issued)
  {
    RequestStays(After(s, request), before, request.id);
  }

  /** A change is reverted with the token its verification issued, within a week, for its account alone. */
  lemma VerifyThenRevert(s: State, verify: Step, between: seq<Step>, revert: Step)
    requires verify.Verify? && revert.Revert? && verify.id == revert.id
    requires Enabled(s, verify) && Legal(After(s, verify), between)
    requires Enabled(Run(After(s, verify), between), revert)
    ensures revert.user == verify.user && revert.token == verify.issued && revert.now < verify.now + 604_800_000
    ensures var r := Run(After(s, verify), between);
            && After(r, revert).accounts == r.accounts[verify.user := s.changes[verify.id].oldEmail]
            && var c := After(r, revert).changes[verify.id];
               c.revertedAt == Some(revert.now) && c.revertToken.None?
  {
    RequestStays(After(s, verify), between, verify.id);
  }

  /** A new request remembers the address held, and closes the open request of its account and no other. */
  lemma RequestClosesOpen(s: State, step: Step, id: nat)
    requires step.Request? && Enabled(s, step) && id in s.changes
    ensures var t := After(s, step);
            && t.changes[step.id].oldEmail == s.accounts[step.user] && t.changes[step.id].newEmail == step.next
            && id in t.changes && t.accounts == s.accounts && t.sessions == s.sessions
            && (t.changes[id] != s.changes[id] <==> s.changes[id].user == step.user && Open(s.changes[id]))
            && (t.changes[id] != s.changes[id] ==>
                  t.changes[id].cancelledAt == Some(step.now) && t.changes[id].verifiedAt.None?
                  && t.changes[id].verifyToken.None? && t.changes[id].revertToken.None?)
  {
  }

  /**
   Whatever happens in between, verifying a request and later reverting it brings the address back
   exactly when the account still held the request's old address at the verification.
   */
  lemma RevertRestoresIff(s: State, verify: Step, between: seq<Step>, revert: Step)
    requires verify.Verify? && revert.Revert? && verify.id == revert.id
    requires Enabled(s, verify) && Legal(After(s, verify), between)
    requires Enabled(Run(After(s, verify), between), revert)
    ensures var t := After(Run(After(s, verify), between), revert);
            var u := verify.user;
            && u in t.accounts
            && (t.accounts[u] == s.accounts[u] <==> s.changes[verify.id].oldEmail == s.accounts[u])
  {
    RequestStays(After(s, verify), between, verify.id);
  }

  /** A step that can move the address of `u` past its open request. */
  predicate Bypasses(step: Step, u: User) {
    (step.Revert? || step.AdminEdit?) && step.user == u
  }

  /** While a request is open only a revert or an admin's edit can move the account off its old address. */
  lemma OpenStep(s: State, step: Step, id: nat)
    requires Inv(s) && Enabled(s, step)
    requires id in s.changes && Open(After(s, step).changes[id])
    requires !Bypasses(step, s.changes[id].user)
    requires var u := s.changes[id].user; u in s.accounts && s.accounts[u] == s.changes[id].oldEmail
    ensures Open(s.changes[id])
    ensures var u := s.changes[id].user; After(s, step).accounts[u] == s.accounts[u]
  {
    assert Open(s.changes[id]);
    if step.Verify? {
      assert Rivals(s.changes[step.id], s.changes[id]) <==> step.user == s.changes[id].user;
    }
  }

  lemma {:induction false} OpenRun(s: State, steps: seq<Step>, id: nat)
    requires Inv(s) && Legal(s, steps) && id in s.changes
    requires forall i :: 0 <= i < |steps| ==> !Bypasses(steps[i], s.changes[id].user)
    requires id in Run(s, steps).changes && Open(Run(s, steps).changes[id])
    requires var u := s.changes[id].user; u in s.accounts && s.accounts[u] == s.changes[id].oldEmail
    ensures var u := s.changes[id].user;
            u in Run(s, steps).accounts && Run(s, steps).accounts[u] == s.changes[id].oldEmail
    decreases |steps|
  {
    if steps != [] {
      var t := After(s, steps[0]);
      RequestStays(t, steps[1..], id);
      RequestStays(s, steps[..1], id);
      OpenStep(s, steps[0], id);
      StepKeepsInv(s, steps[0]);
      OpenRun(t, steps[1..], id);
    }
  }

  /**
   A request that is verified with no revert and no admin's edit of the account since it was made still
   has the account's address as its old one; verifying and then reverting it restores that address, whatever
   happens between the two.
   */
  lemma RequestVerifyRevert(
      s: State, request: Step, before: seq<Step>, verify: Step, between: seq<Step>, revert: Step)
    requires Inv(s) && request.Request? && verify.Verify? && revert.Revert?
    requires request.id == verify.id == revert.id
    requires Enabled(s, request) && Legal(After(s, request), before)
    requires forall i :: 0 <= i < |before| ==> !Bypasses(before[i], request.user)
    requires Enabled(Run(After(s, request), before), verify)
    requires Legal(After(Run(After(s, request), before), verify), between)
    requires Enabled(Run(After(Run(After(s, request), before), verify), between), revert)
    ensures var v := Run(After(s, request), before);
            var t := After(Run(After(v, verify), between), revert);
            var u := request.user;
            && verify.user == u && u in v.accounts && u in t.accounts
            && t.accounts[u] == v.accounts[u] == s.accounts[u]
  {
    var r := After(s, request);
    StepKeepsInv(s, request);
    RequestStays(r, before, request.id);
    OpenRun(r, before, request.id);
    RevertRestoresIff(Run(r, before), verify, between, revert);
  }

  // ----- One address, one account -----

  ghost predicate Distinct(accounts: map<User, Email>) {
    forall u, v :: u in accounts && v in accounts && Same(accounts[u], accounts[v]) ==> u == v
  }

  /** The steps that write an address after checking their own table only. */
  predicate Unchecked(s: State, step: Step) {
    step.Join? || step.AdminEdit? || (step.Revert? && step.user in s.accounts)
  }

  function NewAddress(s: State, step: Step): Email
    requires Unchecked(s, step) && Enabled(s, step)
  {
    if step.Revert? then s.changes[step.id].oldEmail else step.email
  }

  /** Requests and verifications look at both tables and keep addresses distinct across them. */
  lemma StepKeepsDistinct(s: State, step: Step)
    requires Distinct(s.accounts) && Enabled(s, step) && !Unchecked(s, step)
    ensures Distinct(After(s, step).accounts)
  {
    if step.Verify? {
      FreeAddressDistinct(s.accounts, step.user, s.changes[step.id].newEmail);
    }
  }

  /** An address held by no other account of either table may be written. */
  lemma FreeAddressDistinct(accounts: map<User, Email>, u: User, e: Email)
    requires Distinct(accounts) && !TakenByOther(accounts, u, e) && !Taken(accounts, OtherKind(u.kind), e)
    ensures Distinct(accounts[u := e])
  {
    forall v | v in accounts && v != u ensures !Same(accounts[v], e) {
      assert v.kind == u.kind || v.kind == OtherKind(u.kind);
    }
  }

  /** Creation, the admin's edit and a revert keep them distinct iff nobody in the other table holds the address. */
  lemma UncheckedDistinctIff(s: State, step: Step)
    requires Distinct(s.accounts) && Enabled(s, step) && Unchecked(s, step)
    ensures Distinct(After(s, step).accounts) <==>
            !Taken(s.accounts, OtherKind(step.user.kind), NewAddress(s, step))
  {
    var e, u := NewAddress(s, step), step.user;
    var after := After(s, step).accounts;
    assert after == s.accounts[u := e];
    if Taken(s.accounts, OtherKind(u.kind), e) {
      var v :| v in s.accounts && v.kind == OtherKind(u.kind) && Same(s.accounts[v], e);
      assert Same(after[v], after[u]) && v != u;
    } else {
      FreeAddressDistinct(s.accounts, u, e);
    }
  }

  /** The step writes an address that an account of the other table holds. */
  predicate Clashes(s: State, step: Step)
    requires Enabled(s, step)
  {
    Unchecked(s, step) && Taken(s.accounts, OtherKind(step.user.kind), NewAddress(s, step))
  }

  ghost predicate ClashFree(s: State, steps: seq<Step>)
    requires Legal(s, steps)
    decreases |steps|
  {
    steps == [] || (!Clashes(s, steps[0]) && ClashFree(After(s, steps[0]), steps[1..]))
  }

  ghost predicate DistinctThroughout(s: State, steps: seq<Step>)
    requires Legal(s, steps)
    decreases |steps|
  {
    Distinct(s.accounts) && (steps == [] || DistinctThroughout(After(s, steps[0]), steps[1..]))
  }

  /** Addresses stay distinct over a whole run iff no creation, edit or revert in it writes a clashing one. */
  lemma {:induction false} RunDistinctIff(s: State, steps: seq<Step>)
    requires Distinct(s.accounts) && Legal(s, steps)
    ensures DistinctThroughout(s, steps) <==> ClashFree(s, steps)
    decreases |steps|
  {
    if steps != [] {
      StepDistinctIff(s, steps[0]);
      if !Clashes(s, steps[0]) {
        RunDistinctIff(After(s, steps[0]), steps[1..]);
      }
    }
  }

  lemma StepDistinctIff(s: State, step: Step)
    requires Distinct(s.accounts) && Enabled(s, step)
    ensures Distinct(After(s, step).accounts) <==> !Clashes(s, step)
  {
    if Unchecked(s, step) {
      UncheckedDistinctIff(s, step);
    } else {
      StepKeepsDistinct(s, step);
    }
  }

  /** Asking for the own address in another spelling: open to admins, refused to customer users. */
  lemma RespellIff(s: State, u: User, next: Email, id: nat, token: Token, now: nat)
    requires UniquePerTable(s.accounts) && u in s.accounts && id !in s.changes && token !in s.minted
    requires Same(s.accounts[u], next) && s.accounts[u].text != next.text
    ensures Enabled(s, Request(u, next, id, token, now)) <==>
            u.kind.Admin? && !Taken(s.accounts, CustomerUser, next)
  {
    if v :| v in s.accounts && v.kind == u.kind && v != u && Same(s.accounts[v], next) {
      assert Same(s.accounts[v], s.accounts[u]);
    }
  }

  /** Of these steps only a revert ends sessions: all of its account that were not ended before, and no other. */
  lemma SessionEndsIff(s: State, step: Step, session: nat)
    requires Enabled(s, step) && session in s.sessions
    ensures session in After(s, step).sessions && After(s, step).sessions[session].user == s.sessions[session].user
    ensures After(s, step).sessions[session] != s.sessions[session] <==>
            step.Revert? && s.sessions[session].user == step.user && s.sessions[session].revokedAt.None?
    ensures step.Revert? && s.sessions[session].user == step.user ==>
              After(s, step).sessions[session].revokedAt ==
              if s.sessions[session].revokedAt.None? then Some(step.now) else s.sessions[session].revokedAt
  {
  }

  // ----- Runs that go wrong -----

  predicate Unlike(a: Email, b: Email) {
    a.folded != b.folded && a.text != b.text
  }

  ghost predicate Leads(s: State, step: Step, t: State) {
    Enabled(s, step) && t == After(s, step)
  }

  lemma CancelsNothing(changes: map<nat, Change>, u: User, now: nat)
    requires forall id :: id in changes ==> !Open(changes[id])
    ensures Cancelled(changes, u, now) == changes
  {
  }

  function VerifiedChange(u: User, held: Email, next: Email, issued: Token): Change {
    Change(u, held, next, 0, None, VERIFY_TTL_MS, Some(0), Some(issued), Some(REVERT_TTL_MS), None, None)
  }

  function AfterFirst(accounts: map<User, Email>, u: User, next: Email): State
    requires u in accounts
  {
    State(accounts[u := next], map[1 := VerifiedChange(u, accounts[u], next, 2)], map[], {1, 2})
  }

  /** A first request, verified. */
  lemma FirstChange(s: State, u: User, next: Email) returns (middle: State)
    requires s == State(s.accounts, map[], map[], {})
    requires u in s.accounts && forall v :: v in s.accounts ==> Unlike(s.accounts[v], next)
    ensures Leads(s, Request(u, next, 1, 1, 0), middle)
    ensures Leads(middle, Verify(u, 1, 1, 2, 0), AfterFirst(s.accounts, u, next))
  {
    CancelsNothing(s.changes, u, 0);
    middle := After(s, Request(u, next, 1, 1, 0));
    assert middle == State(s.accounts, map[1 := NewChange(u, s.accounts[u], next, 1, 0)], map[], {1});
    assert After(middle, Verify(u, 1, 1, 2, 0)) == AfterFirst(s.accounts, u, next);
  }

  /** A second request, of any account, from a state whose requests are all closed. */
  lemma SecondRequest(s: State, u: User, next: Email)
    requires s.minted == {1, 2} && s.changes.Keys == {1} && !Open(s.changes[1])
    requires u in s.accounts && forall v :: v in s.accounts ==> Unlike(s.accounts[v], next)
    ensures Enabled(s, Request(u, next, 2, 3, 0))
    ensures After(s, Request(u, next, 2, 3, 0)) ==
            State(s.accounts, s.changes[2 := NewChange(u, s.accounts[u], next, 3, 0)], s.sessions, {1, 2, 3})
  {
    CancelsNothing(s.changes, u, 0);
  }

  /**
   Two changes in a row, the first reverted while the second is open: verifying and reverting the
   second leaves the account on the address that the first change had brought.
   */
  lemma LateRevertMissesAddress(u: User, a: Email, b: Email, c: Email)
    returns (s0: State, s1: State, s2: State, s3: State, s4: State, s5: State, s6: State)
    requires Unlike(a, b) && Unlike(a, c) && Unlike(b, c)
    ensures Inv(s0) && s0.accounts == map[u := a]
    ensures Leads(s0, Request(u, b, 1, 1, 0), s1) && Leads(s1, Verify(u, 1, 1, 2, 0), s2)
    ensures Leads(s2, Request(u, c, 2, 3, 0), s3) && Leads(s3, Revert(u, 1, 2, 0), s4)
    ensures Leads(s4, Verify(u, 2, 3, 4, 0), s5) && Leads(s5, Revert(u, 2, 4, 0), s6)
    ensures s4.accounts == map[u := a] && s6.accounts == map[u := b]
  {
    s0 := State(map[u := a], map[], map[], {});
    s1 := FirstChange(s0, u, b);
    s2 := AfterFirst(s0.accounts, u, b);
    s3, s4 := SecondOpen(u, a, b, c);
    s5, s6 := SecondReverted(s4, u, b, c);
  }

  /** The second request of the only account, verified and reverted. */
  lemma SecondReverted(s: State, u: User, held: Email, next: Email) returns (s5: State, s6: State)
    requires s.accounts.Keys == {u} && s.minted == {1, 2, 3}
    requires 2 in s.changes && s.changes[2] == NewChange(u, held, next, 3, 0)
    ensures Leads(s, Verify(u, 2, 3, 4, 0), s5) && Leads(s5, Revert(u, 2, 4, 0), s6)
    ensures s6.accounts == map[u := held]
  {
    s5 := After(s, Verify(u, 2, 3, 4, 0));
    s6 := After(s5, Revert(u, 2, 4, 0));
  }

  /** The first change is reverted while a second one is open. */
  lemma SecondOpen(u: User, a: Email, b: Email, c: Email) returns (s3: State, s4: State)
    requires Unlike(a, b) && Unlike(a, c) && Unlike(b, c)
    ensures Leads(AfterFirst(map[u := a], u, b), Request(u, c, 2, 3, 0), s3) && Leads(s3, Revert(u, 1, 2, 0), s4)
    ensures s4.accounts == map[u := a] && s4.minted == {1, 2, 3}
    ensures 2 in s4.changes && s4.changes[2] == NewChange(u, b, c, 3, 0)
  {
    var s2 := AfterFirst(map[u := a], u, b);
    assert s2.accounts == map[u := b];
    SecondRequest(s2, u, c);
    s3 := After(s2, Request(u, c, 2, 3, 0));
    s4 := After(s3, Revert(u, 1, 2, 0));
    assert s4.accounts == map[u := a];
  }

  /**
   An address given up by one account and taken by one of the other table comes back with the revert:
   two accounts hold it.
   */
  lemma RevertCollides(u: User, v: User, a: Email, b: Email, c: Email)
    returns (s0: State, s1: State, s2: State, s3: State, s4: State, s5: State)
    requires u.kind != v.kind && Unlike(a, b) && Unlike(a, c) && Unlike(b, c)
    ensures Inv(s0) && s0.accounts == map[u := a, v := b]
    ensures Leads(s0, Request(u, c, 1, 1, 0), s1) && Leads(s1, Verify(u, 1, 1, 2, 0), s2)
    ensures Leads(s2, Request(v, a, 2, 3, 0), s3) && Leads(s3, Verify(v, 2, 3, 4, 0), s4)
    ensures Leads(s4, Revert(u, 1, 2, 0), s5) && s5.accounts == map[u := a, v := a]
  {
    s0 := State(map[u := a, v := b], map[], map[], {});
    s1 := FirstChange(s0, u, c);
    s2 := AfterFirst(s0.accounts, u, c);
    s3, s4, s5 := AddressComesBack(u, v, a, b, c);
  }

  /** The address that `u` gave up is taken by `v` and then reverted to by `u`. */
  lemma AddressComesBack(u: User, v: User, a: Email, b: Email, c: Email) returns (s3: State, s4: State, s5: State)
    requires u.kind != v.kind && Unlike(a, b) && Unlike(a, c) && Unlike(b, c)
    ensures var s2 := AfterFirst(map[u := a, v := b], u, c);
            Leads(s2, Request(v, a, 2, 3, 0), s3) && Leads(s3, Verify(v, 2, 3, 4, 0), s4)
    ensures Leads(s4, Revert(u, 1, 2, 0), s5) && s5.accounts == map[u := a, v := a]
  {
    var s2 := AfterFirst(map[u := a, v := b], u, c);
    assert s2.accounts == map[u := c, v := b];
    SecondRequest(s2, v, a);
    s3 := After(s2, Request(v, a, 2, 3, 0));
    s4 := After(s3, Verify(v, 2, 3, 4, 0));
    s5 := After(s4, Revert(u, 1, 2, 0));
    assert s5.accounts == map[u := a, v := a];
  }

  /**
   An admin edits the address while a request is open: verifying and reverting the request brings back
   the address from before the edit, although nothing was reverted in between.
   */
  lemma EditMissesAddress(u: User, a: Email, b: Email, d: Email)
    returns (s0: State, s1: State, s2: State, s3: State, s4: State)
    requires u.kind.CustomerUser? && Unlike(a, b) && Unlike(a, d) && Unlike(b, d)
    ensures Inv(s0) && s0.accounts == map[u := a]
    ensures Leads(s0, Request(u, b, 1, 1, 0), s1) && Leads(s1, AdminEdit(u, d), s2)
    ensures Leads(s2, Verify(u, 1, 1, 2, 0), s3) && Leads(s3, Revert(u, 1, 2, 0), s4)
    ensures s2.accounts == map[u := d] && s4.accounts == map[u := a]
  {
    s0 := State(map[u := a], map[], map[], {});
    CancelsNothing(s0.changes, u, 0);
    s1 := After(s0, Request(u, b, 1, 1, 0));
    assert s1 == State(map[u := a], map[1 := NewChange(u, a, b, 1, 0)], map[], {1});
    s2 := After(s1, AdminEdit(u, d));
    s3 := After(s2, Verify(u, 1, 1, 2, 0));
    s4 := After(s3, Revert(u, 1, 2, 0));
    assert s2.accounts == map[u := d] && s4.accounts == map[u := a];
  }

  /** Creating an account, or editing one, with an address of the other table leaves two holders. */
  lemma CreationAndEditCollide(u: User, v: User, a: Email, b: Email)
    requires u.kind.CustomerUser? && v.kind.Admin? && Unlike(a, b)
    ensures var s := State(map[v := a], map[], map[], {});
            Inv(s) && Enabled(s, Join(u, a)) && !Distinct(After(s, Join(u, a)).accounts)
    ensures var s := State(map[u := b, v := a], map[], map[], {});
            && Inv(s) && Distinct(s.accounts)
            && Enabled(s, AdminEdit(u, a)) && !Distinct(After(s, AdminEdit(u, a)).accounts)
  {
    var s := State(map[v := a], map[], map[], {});
    assert Taken(s.accounts, Admin, a);
    UncheckedDistinctIff(s, Join(u, a));
    var t := State(map[u := b, v := a], map[], map[], {});
    assert v in t.accounts && Taken(t.accounts, Admin, a);
    UncheckedDistinctIff(t, AdminEdit(u, a));
  }

  // ----- The services -----

  datatype ChangeError = NotFound | SameEmail | EmailInUse | InvalidToken | WrongKind | Expired | UserGone | Conflict

  /** The checks of a verification once the token has been found. */
  function VerifyRefusal(accounts: map<User, Email>, c: Change, kind: Kind, now: nat): Option<ChangeError> {
    if c.user.kind != kind then Some(WrongKind)
    else if !Open(c) then Some(InvalidToken)
    else if c.verifyExpires <= now then Some(Expired)
    else if c.user !in accounts then Some(UserGone)
    else if TakenByOther(accounts, c.user, c.newEmail) || Taken(accounts, OtherKind(kind), c.newEmail) then
      Some(EmailInUse)
    else None
  }

  lemma RefusedExactly(s: State, id: nat, token: Token, kind: Kind, issued: Token, now: nat)
    requires Inv(s) && id in s.changes && s.changes[id].verifyToken == Some(token) && issued !in s.minted
    ensures var c := s.changes[id];
            VerifyRefusal(s.accounts, c, kind, now).None? <==>
            c.user.kind == kind && Enabled(s, Verify(c.user, id, token, issued, now))
    ensures VerifyRefusal(s.accounts, s.changes[id], kind, now) != Some(InvalidToken)
  {
    assert ChangeOk(s.changes[id], s.minted);
  }

  /** Another account, of whichever table, holds the address. */
  ghost predicate HeldByOther(accounts: map<User, Email>, u: User, e: Email) {
    exists v :: v in accounts && v != u && accounts[v].folded == e.folded
  }

  lemma HeldIff(accounts: map<User, Email>, u: User, e: Email)
    ensures TakenByOther(accounts, u, e) || Taken(accounts, OtherKind(u.kind), e) <==> HeldByOther(accounts, u, e)
  {
    if v :| v in accounts && v != u && accounts[v].folded == e.folded {
      assert v.kind == u.kind || v.kind == OtherKind(u.kind);
    }
    if v :| v in accounts && v.kind == OtherKind(u.kind) && Same(accounts[v], e) {
      assert v != u;
    }
  }

  /** A customer user may not even ask for the own address. */
  lemma TakenForRequest(accounts: map<User, Email>, u: User, e: Email)
    requires u in accounts
    ensures TakenInTable(accounts, u, e) || Taken(accounts, OtherKind(u.kind), e) <==>
            HeldByOther(accounts, u, e) || (u.kind.CustomerUser? && accounts[u].folded == e.folded)
  {
    HeldIff(accounts, u, e);
    if v :| v in accounts && v.kind == u.kind && Same(accounts[v], e) {
      assert v == u || TakenByOther(accounts, u, e);
    }
  }

  /** What a verification may answer when `c` holds the token. */
  ghost predicate VerifyVerdict(accounts: map<User, Email>, c: Change, kind: Kind, now: nat,
                                r: Result<nat, ChangeError>)
  {
    var inTime := c.user.kind == kind && now < c.createdAt + 86_400_000;
    && (r == Err(WrongKind) <==> c.user.kind != kind)
    && (r == Err(Expired) <==> c.user.kind == kind && !inTime)
    && (r == Err(UserGone) <==> inTime && c.user !in accounts)
    && (r == Err(EmailInUse) <==> inTime && c.user in accounts && HeldByOther(accounts, c.user, c.newEmail))
    && (r.Err? ==> r.error in {WrongKind, Expired, UserGone, EmailInUse})
  }

  /** What a revert may answer when `c` holds the token. */
  ghost predicate RevertVerdict(accounts: map<User, Email>, c: Change, kind: Kind, now: nat,
                                r: Result<nat, ChangeError>)
    requires c.verifiedAt.Some?
  {
    var inTime := c.user.kind == kind && now < c.verifiedAt.value + 604_800_000;
    && (r == Err(WrongKind) <==> c.user.kind != kind)
    && (r == Err(Expired) <==> c.user.kind == kind && !inTime)
    && (r == Err(UserGone) <==> inTime && kind.CustomerUser? && c.user !in accounts)
    && (r == Err(Conflict) <==> (inTime && c.user in accounts && exists v ::
          v in accounts && v != c.user && v.kind == kind && accounts[v].folded == c.oldEmail.folded))
    && (r.Err? ==> r.error in {WrongKind, Expired, UserGone, Conflict})
  }

  function Answer(refused: Option<ChangeError>, id: nat): Result<nat, ChangeError> {
    if refused.Some? then Err(refused.value) else Ok(id)
  }

  lemma RefusalIsVerdict(s: State, id: nat, kind: Kind, now: nat, r: Result<nat, ChangeError>)
    requires Inv(s) && id in s.changes && s.changes[id].verifyToken.Some?
    requires r == Answer(VerifyRefusal(s.accounts, s.changes[id], kind, now), id)
    ensures VerifyVerdict(s.accounts, s.changes[id], kind, now, r)
  {
    assert ChangeOk(s.changes[id], s.minted);
    HeldIff(s.accounts, s.changes[id].user, s.changes[id].newEmail);
  }

  /** All that an answered verification promises besides its effect. */
  lemma VerifyAnswers(s: State, id: nat, token: Token, kind: Kind, issued: Token, now: nat, r: Result<nat, ChangeError>)
    requires Inv(s) && id in s.changes && s.changes[id].verifyToken == Some(token) && issued !in s.minted
    requires r == Answer(VerifyRefusal(s.accounts, s.changes[id], kind, now), id)
    ensures r != Err(InvalidToken)
    ensures r.Ok? ==> s.changes[id].user.kind == kind && Enabled(s, Verify(s.changes[id].user, id, token, issued, now))
    ensures r.Err? ==> forall u: User, i: nat :: u.kind == kind ==> !Enabled(s, Verify(u, i, token, issued, now))
    ensures forall i :: i in s.changes && s.changes[i].verifyToken == Some(token) ==>
              VerifyVerdict(s.accounts, s.changes[i], kind, now, r)
  {
    OnlyHolder(s, token, id);
    RefusedExactly(s, id, token, kind, issued, now);
    RefusalIsVerdict(s, id, kind, now, r);
    forall i | i in s.changes && s.changes[i].verifyToken == Some(token) ensures i == id {
      assert Holds(s.changes[i], token);
    }
  }

  /** The checks of a revert once the token has been found. */
  function RevertRefusal(accounts: map<User, Email>, c: Change, kind: Kind, now: nat): Option<ChangeError>
    requires c.revertExpires.Some?
  {
    if c.user.kind != kind then Some(WrongKind)
    else if c.revertExpires.value <= now then Some(Expired)
    else if kind.CustomerUser? && c.user !in accounts then Some(UserGone)
    else if c.user in accounts && TakenByOther(accounts, c.user, c.oldEmail) then Some(Conflict)
    else None
  }

  lemma RevertAnswers(s: State, id: nat, token: Token, kind: Kind, now: nat, r: Result<nat, ChangeError>)
    requires Inv(s) && id in s.changes && s.changes[id].revertToken == Some(token)
    requires s.changes[id].revertExpires.Some?
    requires r == Answer(RevertRefusal(s.accounts, s.changes[id], kind, now), id)
    ensures r != Err(InvalidToken)
    ensures r.Ok? ==> s.changes[id].user.kind == kind && Enabled(s, Revert(s.changes[id].user, id, token, now))
    ensures r.Err? ==> forall u: User, i: nat :: u.kind == kind ==> !Enabled(s, Revert(u, i, token, now))
    ensures forall i :: i in s.changes && s.changes[i].revertToken == Some(token) ==>
              s.changes[i].verifiedAt.Some? && RevertVerdict(s.accounts, s.changes[i], kind, now, r)
  {
    OnlyHolder(s, token, id);
    forall i | i in s.changes && s.changes[i].revertToken == Some(token) ensures i == id {
      assert Holds(s.changes[i], token);
    }
  }

  class EmailChangeService {
    var accounts: map<User, Email>
    var changes: map<nat, Change>
    var sessions: map<nat, Session>
    ghost var minted: set<Token>

    ghost function Now(): State
      reads this
    {
      State(accounts, changes, sessions, minted)
    }

    constructor (accounts: map<User, Email>)
      requires UniquePerTable(accounts)
      ensures Now() == State(accounts, map[], map[], {}) && Inv(Now())
    {
      this.accounts, changes, sessions, minted := accounts, map[], map[], {};
    }

    /** `requestEmailChange` and `requestAdminEmailChange`; `next` is a normalised address. */
    method RequestEmailChange(u: User, next: Email, id: nat, token: Token, now: nat)
      returns (r: Result<Email, ChangeError>)
      requires Inv(Now()) && id !in changes && token !in minted
      modifies this
      ensures Inv(Now())
      ensures r.Ok? <==> Enabled(old(Now()), Request(u, next, id, token, now))
      ensures r.Ok? ==> Now() == After(old(Now()), Request(u, next, id, token, now)) && r.value == old(accounts)[u]
      ensures r.Err? ==> Now() == old(Now())
      ensures r == Err(NotFound) <==> u !in old(accounts)
      ensures r == Err(SameEmail) <==> u in old(accounts) && old(accounts)[u].text == next.text
      ensures r.Err? ==> r.error in {NotFound, SameEmail, EmailInUse}
      ensures r == Err(EmailInUse) <==>
              (u in old(accounts) && old(accounts)[u].text != next.text
               && (HeldByOther(old(accounts), u, next)
                   || (u.kind.CustomerUser? && old(accounts)[u].folded == next.folded)))
    {
      if u !in accounts { return Err(NotFound); }
      if accounts[u].text == next.text { return Err(SameEmail); }
      TakenForRequest(accounts, u, next);
      if TakenInTable(accounts, u, next) || Taken(accounts, OtherKind(u.kind), next) { return Err(EmailInUse); }
      StepKeepsInv(Now(), Request(u, next, id, token, now));
      changes := Cancelled(changes, u, now);
      changes := changes[id := NewChange(u, accounts[u], next, token, now)];
      minted := minted + {token};
      return Ok(accounts[u]);
    }

    /** `verifyEmailChange` and `verifyAdminEmailChange`: the service of one kind with any token. */
    method VerifyEmailChange(kind: Kind, token: Token, issued: Token, now: nat) returns (r: Result<nat, ChangeError>)
      requires Inv(Now()) && issued !in minted
      modifies this
      ensures Inv(Now())
      ensures r.Ok? ==>
                r.value in old(changes) && var step := Verify(old(changes)[r.value].user, r.value, token, issued, now);
                step.user.kind == kind && Enabled(old(Now()), step) && Now() == After(old(Now()), step)
      ensures r.Err? ==>
                && Now() == old(Now())
                && forall u: User, id: nat :: u.kind == kind ==> !Enabled(Now(), Verify(u, id, token, issued, now))
      ensures r == Err(InvalidToken) <==>
              forall id :: id in old(changes) ==> old(changes)[id].verifyToken != Some(token)
      ensures forall id :: id in old(changes) && old(changes)[id].verifyToken == Some(token) ==>
                VerifyVerdict(old(accounts), old(changes)[id], kind, now, r)
    {
      if forall i :: i in changes ==> changes[i].verifyToken != Some(token) { return Err(InvalidToken); }
      var id :| id in changes && changes[id].verifyToken == Some(token);
      var c := changes[id];
      r := Answer(VerifyRefusal(accounts, c, kind, now), id);
      VerifyAnswers(Now(), id, token, kind, issued, now, r);
      if r.Err? { return; }
      StepKeepsInv(Now(), Verify(c.user, id, token, issued, now));
      accounts := accounts[c.user := c.newEmail];
      changes := changes[id := c.(verifiedAt := Some(now), verifyToken := None, revertToken := Some(issued),
                                  revertExpires := Some(now + REVERT_TTL_MS))];
      minted := minted + {issued};
      assert Now() == After(old(Now()), Verify(c.user, id, token, issued, now));
    }

    /**
     `revertEmailChange` and `revertAdminEmailChange`. Only the customer service looks the account up;
     the UNIQUE constraint refuses an address that another account of the table holds.
     */
    method RevertEmailChange(kind: Kind, token: Token, now: nat) returns (r: Result<nat, ChangeError>)
      requires Inv(Now())
      modifies this
      ensures Inv(Now())
      ensures r.Ok? ==>
                r.value in old(changes) && var step := Revert(old(changes)[r.value].user, r.value, token, now);
                step.user.kind == kind && Enabled(old(Now()), step) && Now() == After(old(Now()), step)
      ensures r.Err? ==>
                && Now() == old(Now())
                && forall u: User, id: nat :: u.kind == kind ==> !Enabled(Now(), Revert(u, id, token, now))
      ensures r == Err(InvalidToken) <==>
              forall id :: id in old(changes) ==> old(changes)[id].revertToken != Some(token)
      ensures forall id :: id in old(changes) && old(changes)[id].revertToken == Some(token) ==>
                && old(changes)[id].verifiedAt.Some?
                && RevertVerdict(old(accounts), old(changes)[id], kind, now, r)
    {
      if forall i :: i in changes ==> changes[i].revertToken != Some(token) { return Err(InvalidToken); }
      var id :| id in changes && changes[id].revertToken == Some(token);
      var c := changes[id];
      assert ChangeOk(c, minted);
      r := Answer(RevertRefusal(accounts, c, kind, now), id);
      RevertAnswers(Now(), id, token, kind, now, r);
      if r.Err? { return; }
      StepKeepsInv(Now(), Revert(c.user, id, token, now));
      if c.user in accounts {
        accounts := accounts[c.user := c.oldEmail];
      }
      changes := changes[id := c.(revertedAt := Some(now), revertToken := None)];
      sessions := Revoked(sessions, c.user, now);
    }

    /** The INSERT of `admins.create` or `customers.create`. */
    method CreateAccount(u: User, email: Email) returns (r: Result<(), ChangeError>)
      requires Inv(Now()) && u !in accounts
      modifies `accounts
      ensures Inv(Now())
      ensures r.Ok? <==> Enabled(old(Now()), Join(u, email))
      ensures r.Ok? ==> Now() == After(old(Now()), Join(u, email)) && accounts == old(accounts)[u := email]
      ensures r.Err? ==> r.error == Conflict && Now() == old(Now())
      ensures r.Err? <==> exists v :: v in old(accounts) && v.kind == u.kind && old(accounts)[v].folded == email.folded
    {
      if Taken(accounts, u.kind, email) { return Err(Conflict); }
      StepKeepsInv(Now(), Join(u, email));
      accounts := accounts[u := email];
      return Ok(());
    }

    /** `adminUpdateCustomerUserEmail`; the same address in any spelling is accepted and changes nothing. */
    method AdminUpdateCustomerUserEmail(u: User, email: Email) returns (r: Result<Email, ChangeError>)
      requires Inv(Now()) && u.kind.CustomerUser?
      modifies `accounts
      ensures Inv(Now())
      ensures r == Err(NotFound) <==> u !in old(accounts)
      ensures r == Err(Conflict) <==>
              u in old(accounts) && !Same(old(accounts)[u], email) && TakenByOther(old(accounts), u, email)
      ensures Enabled(old(Now()), AdminEdit(u, email)) ==>
              r == Ok(old(accounts)[u]) && Now() == After(old(Now()), AdminEdit(u, email))
              && accounts == old(accounts)[u := email]
      ensures !Enabled(old(Now()), AdminEdit(u, email)) ==> Now() == old(Now())
    {
      if u !in accounts { return Err(NotFound); }
      var held := accounts[u];
      if Same(held, email) { return Ok(held); }
      if TakenByOther(accounts, u, email) { return Err(Conflict); }
      StepKeepsInv(Now(), AdminEdit(u, email));
      accounts := accounts[u := email];
      return Ok(held);
    }
  }

  /** A token reaches one request of one account. */
  lemma OnlyHolder(s: State, t: Token, id: nat)
    requires Inv(s) && id in s.changes && Holds(s.changes[id], t)
    ensures ChangeOk(s.changes[id], s.minted)
    ensures forall i :: i in s.changes && Holds(s.changes[i], t) ==> i == id
    ensures forall u, i, issued, now :: Enabled(s, Verify(u, i, t, issued, now)) ==> i == id && u == s.changes[id].user
    ensures forall u, i, now :: Enabled(s, Revert(u, i, t, now)) ==> i == id && u == s.changes[id].user
  {
    forall u, i, issued, now | Enabled(s, Verify(u, i, t, issued, now)) ensures i == id {
      assert Holds(s.changes[i], t);
    }
    forall u, i, now | Enabled(s, Revert(u, i, t, now)) ensures i == id {
      assert Holds(s.changes[i], t);
    }
  }
}
