/** The digest tables as mutable state, with the statements of domain/digest/repo.js and their callers. */
module DigestStore {
  import opened Wrappers
  import opened Numbers
  import opened Seqs
  import opened Digest
  import opened DigestGroups
  import opened DigestRuns
  import opened DigestTicks

  class Store {
    const cfg: Config
    var pending: seq<Row>
    var schedules: map<Recipient, Schedule>
    var nextId: nat
    var sent: seq<Mail>

    ghost function State(): Tables
      reads this
    {
      Tables(pending, schedules, nextId)
    }

    ghost predicate Valid()
      reads this
    {
      ValidTables(State())
    }

    constructor (cfg: Config)
      ensures Valid() && this.cfg == cfg && State() == START.tables && sent == []
    {
      this.cfg := cfg;
      pending, schedules, nextId, sent := [], map[], 0, [];
    }

    /** A newest row of key `k`. */
    method FindCoalescable(k: Key) returns (found: Option<Row>)
      ensures found.Some? ==> found.value in pending && LineKey(found.value.line) == k
      ensures forall row :: row in pending && LineKey(row.line) == k ==>
                found.Some? && row.line.createdAt <= found.value.line.createdAt
    {
      found := None;
      for i := 0 to |pending|
        invariant found.Some? ==> found.value in pending && LineKey(found.value.line) == k
        invariant forall j :: 0 <= j < i && LineKey(pending[j].line) == k ==>
                    found.Some? && pending[j].line.createdAt <= found.value.line.createdAt
      {
        var row := pending[i];
        if LineKey(row.line) == k && (found.None? || found.value.line.createdAt <= row.line.createdAt) {
          found := Some(row);
        }
      }
    }

    method InsertItem(line: Line) returns (id: nat)
      modifies `pending, `nextId
      ensures id == old(nextId) && nextId == id + 1
      ensures pending == old(pending) + [Row(id, line)]
    {
      id := nextId;
      pending := pending + [Row(id, line)];
      nextId := nextId + 1;
    }

    /** `UPDATE ... WHERE id`: affects no row when the id is gone. */
    method UpdateCoalesced(id: nat, title: string, detail: Option<string>, metadata: Metadata)
      modifies `pending
      ensures |pending| == |old(pending)|
      ensures forall i :: 0 <= i < |pending| ==>
                pending[i] == if old(pending)[i].id != id then old(pending)[i]
                              else Row(id, old(pending)[i].line.(title := title, detail := detail,
                                                                 metadata := metadata))
    {
      var rows := pending;
      pending := seq(|rows|, i requires 0 <= i < |rows| =>
        if rows[i].id != id then rows[i]
        else Row(id, rows[i].line.(title := title, detail := detail, metadata := metadata)));
    }

    /** The coalescing branch: count one more, re-render the title, keep the newer vars and locale. */
    method FoldInto(row: Row, e: Item)
      modifies `pending
      ensures |pending| == |old(pending)|
      ensures forall i :: 0 <= i < |pending| ==>
                (old(pending)[i].id != row.id ==> pending[i] == old(pending)[i])
                && (old(pending)[i] == row ==> pending[i] == row.(line := Coalesced(cfg.titleFor, row.line, e)))
    {
      var next := CountOf(row.line) + 1;
      var vars := if e.vars.Some? then e.vars else row.line.metadata.vars;
      var locale := if e.locale.Some? then e.locale else row.line.metadata.locale;
      var metadata := row.line.metadata.(count := Some(next));
      if vars.Some? {
        metadata := metadata.(vars := vars);
      }
      if Truthy(locale) {
        metadata := metadata.(locale := locale);
      }
      var title := Pluralise(cfg.titleFor, e.eventType, row.line.title, next, vars, locale);
      assert row.line.(title := title, metadata := metadata) == Coalesced(cfg.titleFor, row.line, e);
      UpdateCoalesced(row.id, title, row.line.detail, metadata);
    }

    method UpsertSchedule(r: Recipient, now: nat)
      modifies `schedules
      ensures schedules == Upsert(cfg, old(schedules), r, now)
    {
      if r !in schedules {
        schedules := schedules[r := Schedule(now + cfg.window, now)];
      } else {
        var s := schedules[r];
        schedules := schedules[r := s.(due := Min(now + cfg.window, s.oldest + cfg.cap))];
      }
    }

    method RecordForDigest(e: Item, now: nat) returns (coalesced: bool, id: nat)
      requires Valid()
      modifies `pending, `schedules, `nextId
      ensures Valid() && State() == Recorded(cfg, old(State()), e, now)
      ensures coalesced <==> !e.eventType.Other? && exists row :: row in old(pending) && Takes(row.line, e)
      ensures exists row :: row in pending && row.id == id && Takes(row.line, e)
    {
      ghost var t := State();
      InsertedIff(t, e);
      RecordedKeepsValid(cfg, t, e, now);
      if Coalesces(e.eventType) {
        var existing := FindCoalescable(ItemKey(e));
        if existing.Some? {
          var row := existing.value;
          FoldInto(row, e);
          KeyIffTakes(row.line, e);
          FoldIsRecorded(cfg, t, e, row, pending);
          UpsertSchedule(e.recipient, now);
          return true, row.id;
        }
      }
      id := InsertItem(FreshLine(e, now));
      assert pending[|t.pending|].id == id;
      KeyIffTakes(pending[|t.pending|].line, e);
      UpsertSchedule(e.recipient, now);
      coalesced := false;
    }

    /** The due recipients, earliest first, at most `batch`. */
    method ClaimDue(now: nat, batch: nat) returns (claims: seq<Recipient>)
      ensures IsClaim(schedules, now, batch, claims)
    {
      claims := [];
      var left := set r | r in schedules && schedules[r].due <= now;
      while left != {} && |claims| < batch
        invariant |claims| <= batch && Claiming(schedules, now, claims, left)
      {
        ghost var table := schedules;
        ghost var earliest := LeastExists(left, (x: Recipient) => if x in table then table[x].due else 0);
        assert forall x :: x in left ==> schedules[earliest].due <= schedules[x].due;
        var r :| r in left && forall x :: x in left ==> schedules[r].due <= schedules[x].due;
        ClaimingStep(schedules, now, claims, left, r);
        claims := claims + [r];
        left := left - {r};
      }
    }

    method DrainItems(r: Recipient) returns (items: seq<Row>)
      modifies `pending
      ensures items == Filter(old(pending), RowOf(r)) && pending == Filter(old(pending), RowNotOf(r))
    {
      items := Filter(pending, RowOf(r));
      pending := Filter(pending, RowNotOf(r));
    }

    method ClearSchedule(r: Recipient)
      modifies `schedules
      ensures schedules == old(schedules) - {r}
    {
      schedules := schedules - {r};
    }

    /** The body of the worker's loop for one claim; `active` tells whether `loadRecipient` finds it. */
    method Serve(r: Recipient, stamp: nat, active: bool) returns (mailed: bool)
      requires Valid()
      modifies `pending, `schedules, `sent
      ensures Valid() && State() == Drained(old(State()), r)
      ensures var items := Filter(old(pending), RowOf(r));
              && (mailed <==> active && items != [])
              && sent == old(sent) + (if mailed then [Mail(r, stamp, items)] else [])
    {
      DrainedKeepsValid(State(), r);
      var items := DrainItems(r);
      mailed := active && items != [];
      if mailed {
        sent := sent + [Mail(r, stamp, items)];
      }
      ClearSchedule(r);
    }

    /** One worker transaction. `active` holds the recipients that `loadRecipient` finds. */
    method TickOnce(now: nat, stamps: Stamps, batch: nat, active: set<Recipient>)
      returns (claims: seq<Recipient>, fired: nat, dropped: nat)
      requires Valid()
      modifies `pending, `schedules, `sent
      ensures Valid() && IsClaim(old(schedules), now, batch, claims)
      ensures var w := AfterServes(Snapshot(old(State()), old(sent)), claims, stamps, active);
              State() == w.tables && sent == w.sent
      ensures State() == DrainedAll(old(State()), claims)
      ensures exists mails, ks :: && sent == old(sent) + mails && |ks| == fired
                                  && MailsOf(old(pending), claims, stamps, active, mails, ks)
      ensures fired + dropped == |claims|
    {
      claims := ClaimDue(now, batch);
      fired, dropped := 0, 0;
      ghost var w := Snapshot(State(), sent);
      ghost var start := w;
      assert claims[..0] == [];
      for k := 0 to |claims|
        invariant Valid()
        invariant w == AfterServes(start, claims[..k], stamps, active)
        invariant State() == w.tables && sent == w.sent
        invariant fired + dropped == k && |sent| == |old(sent)| + fired
      {
        AfterServesNext(start, claims, k, stamps, active);
        var mailed := Serve(claims[k], stamps(k), claims[k] in active);
        w := AfterServe(w, claims[k], stamps(k), active);
        if mailed {
          fired := fired + 1;
        } else {
          dropped := dropped + 1;
        }
      }
      assert claims[..|claims|] == claims;
      ServesDrainAll(start, claims, stamps, active);
      ghost var mails, ks := TickMails(start, claims, stamps, active);
      assert sent == old(sent) + mails;
    }
  }

  /** `claims` holds the earliest due recipients, in order, and `left` the other due ones. */
  ghost predicate Claiming(schedules: map<Recipient, Schedule>, now: nat, claims: seq<Recipient>,
                           left: set<Recipient>)
  {
    && NoDup(claims)
    && (forall i :: 0 <= i < |claims| ==> DueAt(schedules, claims[i], now))
    && (forall i, j :: 0 <= i < j < |claims| ==> schedules[claims[i]].due <= schedules[claims[j]].due)
    && (forall r :: r in left <==> DueAt(schedules, r, now) && r !in claims)
    && (forall i, r :: 0 <= i < |claims| && r in left ==> schedules[claims[i]].due <= schedules[r].due)
  }

  lemma ClaimingStep(schedules: map<Recipient, Schedule>, now: nat, claims: seq<Recipient>, left: set<Recipient>,
                     r: Recipient)
    requires Claiming(schedules, now, claims, left) && r in left
    requires forall x :: x in left ==> x in schedules && r in schedules && schedules[r].due <= schedules[x].due
    ensures Claiming(schedules, now, claims + [r], left - {r})
  {
  }

  /** Folding into a row of the event's key is what `Recorded` says. */
  lemma FoldIsRecorded(cfg: Config, t: Tables, e: Item, row: Row, after: seq<Row>)
    requires ValidTables(t) && Coalesces(e.eventType) && row in t.pending && LineKey(row.line) == ItemKey(e)
    requires |after| == |t.pending| && forall i :: 0 <= i < |after| ==>
               (t.pending[i].id != row.id ==> after[i] == t.pending[i])
               && (t.pending[i] == row ==> after[i] == row.(line := Coalesced(cfg.titleFor, row.line, e)))
    ensures MatchIndex(t.pending, ItemKey(e)).Some?
    ensures after == t.pending[MatchIndex(t.pending, ItemKey(e)).value :=
                               row.(line := Coalesced(cfg.titleFor, row.line, e))]
    ensures t.pending[MatchIndex(t.pending, ItemKey(e)).value] == row
    ensures exists r :: r in after && r.id == row.id && Takes(r.line, e)
  {
    var i :| 0 <= i < |t.pending| && t.pending[i] == row;
    MatchIsOnly(t, e, i);
    KeyIffTakes(after[i].line, e);
    assert after[i] in after;
  }

  /** A world that holds the given tables and mails and no history. */
  function Snapshot(t: Tables, sent: seq<Mail>): World {
    World(t, [], 0, 0, 0, 0, 0, sent)
  }

  /** The two methods are the two kinds of step of a run. */
  lemma MethodsAreSteps(cfg: Config, w: World, e: Item, now: nat, stamps: Stamps, batch: nat, claims: seq<Recipient>,
                        active: set<Recipient>)
    ensures Enabled(w, Record(e, now)) && After(cfg, w, Record(e, now)).tables == Recorded(cfg, w.tables, e, now)
    ensures IsClaim(w.tables.schedules, now, batch, claims) ==>
              Enabled(w, Tick(now, stamps, batch, claims, active))
    ensures var v := After(cfg, w, Tick(now, stamps, batch, claims, active));
            v.tables == DrainedAll(w.tables, claims) && v.sent == AfterServes(w, claims, stamps, active).sent
  {
    ServesDrainAll(w, claims, stamps, active);
  }

  /** What a tick does to tables and mails depends on nothing else of the world. */
  lemma {:induction false} ServesIgnoreHistory(w: World, claims: seq<Recipient>, stamps: Stamps, active: set<Recipient>)
    ensures var a := AfterServes(w, claims, stamps, active);
            var b := AfterServes(Snapshot(w.tables, w.sent), claims, stamps, active);
            a.tables == b.tables && a.sent == b.sent
  {
    if claims != [] {
      ServesIgnoreHistory(w, claims[..|claims| - 1], stamps, active);
    }
  }
}
