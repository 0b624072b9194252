/** Erasure of a user over tables with foreign-key actions: `rtbf.py`, `gdpr_delete.py` and the schema they rely on. */
module Erasure {
  import opened Wrappers

  type User = string

  datatype HistoryRow = HistoryRow(user: Option<User>, body: nat)

  datatype FeedbackRow = FeedbackRow(user: Option<User>, history: Option<nat>, body: nat)

  datatype Audit = Audit(reason: string, source: string)

  /** Row ids map to rows; usage is keyed by user and day. */
  datatype Tables = Tables(
    users: map<User, nat>,
    history: map<nat, HistoryRow>,
    feedback: map<nat, FeedbackRow>,
    usage: map<(User, nat), nat>,
    audit: map<User, Audit>)

  /** Referential integrity: every foreign key that is not null names a row. */
  ghost predicate Integral(t: Tables) {
    && (forall h :: h in t.history && t.history[h].user.Some? ==> t.history[h].user.value in t.users)
    && (forall f :: f in t.feedback && t.feedback[f].user.Some? ==> t.feedback[f].user.value in t.users)
    && (forall f :: f in t.feedback && t.feedback[f].history.Some? ==> t.feedback[f].history.value in t.history)
    && (forall k :: k in t.usage ==> k.0 in t.users)
  }

  datatype Table = FeedbackTable | HistoryTable | UsageTable | UsersTable

  /** `_USER_SCOPED_DELETES`: children before parents. */
  const DELETE_ORDER: seq<Table> := [FeedbackTable, HistoryTable, UsageTable, UsersTable]

  // ---------------------------------------------------------------- the database's own rules

  function HistoryOf(t: Tables, u: User): set<nat> {
    set h | h in t.history && t.history[h].user == Some(u)
  }

  function FeedbackOf(t: Tables, u: User): set<nat> {
    set f | f in t.feedback && t.feedback[f].user == Some(u)
  }

  /** Feedback given on any of these history rows. */
  function FeedbackOn(t: Tables, gone: set<nat>): set<nat> {
    set f | f in t.feedback && t.feedback[f].history.Some? && t.feedback[f].history.value in gone
  }

  function UsageOf(t: Tables, u: User): set<(User, nat)> {
    set k | k in t.usage && k.0 == u
  }

  /** `SELECT COUNT(*)` with the table's user condition. */
  function Count(t: Tables, table: Table, u: User): nat {
    match table
    case FeedbackTable => |FeedbackOf(t, u)|
    case HistoryTable => |HistoryOf(t, u)|
    case UsageTable => |UsageOf(t, u)|
    case UsersTable => if u in t.users then 1 else 0
  }

  function Unlink<K, R>(m: map<K, R>, rows: set<K>, change: R -> R): map<K, R> {
    map k | k in m :: if k in rows then change(m[k]) else m[k]
  }

  /** `DELETE` with the table's user condition, and what the foreign keys make of it: CASCADE or SET NULL. */
  function DeleteFrom(t: Tables, table: Table, u: User): Tables {
    match table
    case FeedbackTable => t.(feedback := t.feedback - FeedbackOf(t, u))
    case HistoryTable =>
      var gone := HistoryOf(t, u);
      t.(history := t.history - gone, feedback := t.feedback - FeedbackOn(t, gone))
    case UsageTable => t.(usage := t.usage - UsageOf(t, u))
    case UsersTable =>
      t.(users := t.users - {u},
         history := Unlink(t.history, HistoryOf(t, u), (r: HistoryRow) => r.(user := None)),
         feedback := Unlink(t.feedback, FeedbackOf(t, u), (r: FeedbackRow) => r.(user := None)),
         usage := t.usage - UsageOf(t, u))
  }

  /** `INSERT ... ON CONFLICT (user_id) DO NOTHING`. */
  function WithAudit(t: Tables, u: User, a: Audit): Tables {
    if u in t.audit then t else t.(audit := t.audit[u := a])
  }

  function Run(t: Tables, order: seq<Table>, u: User): Tables
    decreases |order|
  {
    if order == [] then t else Run(DeleteFrom(t, order[0], u), order[1..], u)
  }

  /** No row carries the user, and none of the user's rows is left behind unlinked. */
  function Erased(t: Tables, u: User): Tables {
    var gone := HistoryOf(t, u);
    Tables(
      t.users - {u},
      t.history - gone,
      t.feedback - (FeedbackOf(t, u) + FeedbackOn(t, gone)),
      t.usage - UsageOf(t, u),
      t.audit)
  }

  // ---------------------------------------------------------------- every delete keeps integrity

  lemma DeleteKeepsIntegrity(t: Tables, table: Table, u: User)
    requires Integral(t)
    ensures Integral(DeleteFrom(t, table, u))
  {
  }

  lemma {:induction false} RunKeepsIntegrity(t: Tables, order: seq<Table>, u: User)
    requires Integral(t)
    ensures Integral(Run(t, order, u))
    decreases |order|
  {
    hide Integral, DeleteFrom;
    if order != [] {
      DeleteKeepsIntegrity(t, order[0], u);
      RunKeepsIntegrity(DeleteFrom(t, order[0], u), order[1..], u);
    }
  }

  // ---------------------------------------------------------------- what the four deletes amount to

  lemma NothingToDelete(t: Tables, table: Table, u: User)
    requires Integral(t) && Count(t, table, u) == 0
    ensures DeleteFrom(t, table, u) == t
  {
    match table
    case FeedbackTable =>
      assert t.feedback - FeedbackOf(t, u) == t.feedback;
    case HistoryTable =>
      assert FeedbackOn(t, HistoryOf(t, u)) == {};
      assert t.history - {} == t.history && t.feedback - {} == t.feedback;
    case UsageTable =>
      assert t.usage - UsageOf(t, u) == t.usage;
    case UsersTable =>
      assert HistoryOf(t, u) == {} && FeedbackOf(t, u) == {} && UsageOf(t, u) == {};
      assert t.users - {u} == t.users && t.usage - {} == t.usage;
      assert DeleteFrom(t, table, u).history == t.history;
      assert DeleteFrom(t, table, u).feedback == t.feedback;
  }

  lemma ChildrenGone(t: Tables, u: User)
    ensures var t2 := DeleteFrom(DeleteFrom(t, FeedbackTable, u), HistoryTable, u);
            t2 == Erased(t, u).(users := t.users, usage := t.usage)
  {
    var t1 := DeleteFrom(t, FeedbackTable, u);
    var gone := HistoryOf(t, u);
    assert HistoryOf(t1, u) == gone;
    assert FeedbackOn(t1, gone) == FeedbackOn(t, gone) - FeedbackOf(t, u);
    assert t1.feedback - FeedbackOn(t1, gone) == t.feedback - (FeedbackOf(t, u) + FeedbackOn(t, gone));
  }

  lemma ParentsGone(t: Tables, u: User)
    requires HistoryOf(t, u) == {} && FeedbackOf(t, u) == {}
    ensures DeleteFrom(DeleteFrom(t, UsageTable, u), UsersTable, u)
         == t.(users := t.users - {u}, usage := t.usage - UsageOf(t, u))
  {
    var t3 := DeleteFrom(t, UsageTable, u);
    assert HistoryOf(t3, u) == {} && FeedbackOf(t3, u) == {};
    var t4 := DeleteFrom(t3, UsersTable, u);
    assert UsageOf(t3, u) == {};
    assert t3.usage - {} == t3.usage;
    assert t4.history == t.history;
    assert t4.feedback == t.feedback;
  }

  /** The four deletes, with their cascades, leave exactly the rows that do not concern the user. */
  lemma RunErases(t: Tables, u: User)
    ensures Run(t, DELETE_ORDER, u) == Erased(t, u)
  {
    ChildrenGone(t, u);
    var t2 := DeleteFrom(DeleteFrom(t, FeedbackTable, u), HistoryTable, u);
    assert HistoryOf(t2, u) == {} && FeedbackOf(t2, u) == {};
    ParentsGone(t2, u);
    RunFour(t, FeedbackTable, HistoryTable, UsageTable, UsersTable, u);
  }

  lemma RunFour(t: Tables, a: Table, b: Table, c: Table, d: Table, u: User)
    ensures Run(t, [a, b, c, d], u) == DeleteFrom(DeleteFrom(DeleteFrom(DeleteFrom(t, a, u), b, u), c, u), d, u)
  {
    hide DeleteFrom;
    var t1 := DeleteFrom(t, a, u);
    var t2 := DeleteFrom(t1, b, u);
    var t3 := DeleteFrom(t2, c, u);
    assert [a, b, c, d][1..] == [b, c, d] && [b, c, d][1..] == [c, d] && [c, d][1..] == [d] && [d][1..] == [];
    assert Run(t3, [d], u) == Run(DeleteFrom(t3, d, u), [], u);
    assert Run(t2, [c, d], u) == Run(t3, [d], u);
    assert Run(t1, [b, c, d], u) == Run(t2, [c, d], u);
  }

  /**
   The erasure, row by row: nothing names the user any more, the user's rows are gone rather than unlinked, and any other
   row is there, unchanged, exactly when it was there before; the one exception is feedback on an erased history row.
   */
  lemma ErasureIsExact(t: Tables, u: User)
    ensures var e := Run(t, DELETE_ORDER, u);
            && e.users == t.users - {u}
            && (forall h :: h in e.history <==> h in t.history && t.history[h].user != Some(u))
            && (forall h :: h in e.history ==> e.history[h] == t.history[h])
            && (forall f :: f in e.feedback <==> f in t.feedback && t.feedback[f].user != Some(u)
                                                 && !OnErased(t, f, u))
            && (forall f :: f in e.feedback ==> e.feedback[f] == t.feedback[f])
            && (forall k :: k in e.usage <==> k in t.usage && k.0 != u)
            && (forall k :: k in e.usage ==> e.usage[k] == t.usage[k])
            && e.audit == t.audit
  {
    hide Run;
    RunErases(t, u);
  }

  ghost predicate OnErased(t: Tables, f: nat, u: User)
    requires f in t.feedback
  {
    t.feedback[f].history.Some? && t.feedback[f].history.value in HistoryOf(t, u)
  }

  // ---------------------------------------------------------------- dry runs, re-runs, two users

  function Counts(t: Tables, u: User): seq<nat> {
    seq(4, i requires 0 <= i < 4 => Count(t, DELETE_ORDER[i], u))
  }

  /** What the database will count when the i-th table's turn comes is what it counts before any delete. */
  lemma DryRunPredicts(t: Tables, u: User, i: nat)
    requires i < 4
    ensures Count(Run(t, DELETE_ORDER[..i], u), DELETE_ORDER[i], u) == Count(t, DELETE_ORDER[i], u)
  {
    hide Run, DeleteFrom;
    RunPrefixes(t, u);
    DeleteKeepsLaterCounts(t, u);
    assert Run(t, DELETE_ORDER[..0 + 1], u) == DeleteFrom(t, FeedbackTable, u);
    assert Run(t, DELETE_ORDER[..1 + 1], u) == DeleteFrom(Run(t, DELETE_ORDER[..1], u), HistoryTable, u);
    assert Run(t, DELETE_ORDER[..2 + 1], u) == DeleteFrom(Run(t, DELETE_ORDER[..2], u), UsageTable, u);
    assert i == 0 || i == 1 || i == 2 || i == 3;
  }

  lemma DeleteKeepsLaterCounts(t: Tables, u: User)
    ensures var t1 := DeleteFrom(t, FeedbackTable, u);
            var t2 := DeleteFrom(t1, HistoryTable, u);
            var t3 := DeleteFrom(t2, UsageTable, u);
            && HistoryOf(t1, u) == HistoryOf(t, u)
            && UsageOf(t2, u) == UsageOf(t, u)
            && t3.users == t.users
  {
  }

  lemma RunPrefixes(t: Tables, u: User)
    ensures Run(t, DELETE_ORDER[..0], u) == t
    ensures forall i :: 0 <= i < 4 ==>
                          Run(t, DELETE_ORDER[..i + 1], u) == DeleteFrom(Run(t, DELETE_ORDER[..i], u), DELETE_ORDER[i], u)
    ensures Run(t, DELETE_ORDER[..4], u) == Run(t, DELETE_ORDER, u)
  {
    hide DeleteFrom;
    forall i | 0 <= i < 4
      ensures Run(t, DELETE_ORDER[..i + 1], u) == DeleteFrom(Run(t, DELETE_ORDER[..i], u), DELETE_ORDER[i], u)
    {
      assert DELETE_ORDER[..i + 1] == DELETE_ORDER[..i] + [DELETE_ORDER[i]];
      RunLast(t, DELETE_ORDER[..i], DELETE_ORDER[i], u);
    }
    assert DELETE_ORDER[..4] == DELETE_ORDER;
  }

  lemma {:induction false} RunLast(t: Tables, order: seq<Table>, last: Table, u: User)
    ensures Run(t, order + [last], u) == DeleteFrom(Run(t, order, u), last, u)
    decreases |order|
  {
    hide DeleteFrom;
    if order == [] {
      assert [last][1..] == [];
      assert Run(t, [last], u) == Run(DeleteFrom(t, last, u), [], u);
    } else {
      assert (order + [last])[1..] == order[1..] + [last];
      RunLast(DeleteFrom(t, order[0], u), order[1..], last, u);
    }
  }

  lemma NoneLeft(t: Tables, u: User)
    ensures var e := Erased(t, u);
            HistoryOf(e, u) == {} && FeedbackOf(e, u) == {} && UsageOf(e, u) == {} && FeedbackOn(e, {}) == {}
  {
  }

  lemma ErasedTwice(t: Tables, u: User)
    ensures Erased(Erased(t, u), u) == Erased(t, u)
    ensures Counts(Erased(t, u), u) == [0, 0, 0, 0]
  {
    hide FeedbackOn;
    var e := Erased(t, u);
    NoneLeft(t, u);
    assert e.users - {u} == e.users;
    assert e.history - {} == e.history && e.feedback - ({} + {}) == e.feedback && e.usage - {} == e.usage;
  }

  /** Running the erasure again finds nothing, changes nothing and keeps the first audit row. */
  lemma RerunIsNoOp(t: Tables, u: User, first: Audit, second: Audit)
    ensures var e := WithAudit(Run(t, DELETE_ORDER, u), u, first);
            && WithAudit(Run(e, DELETE_ORDER, u), u, second) == e
            && Counts(e, u) == [0, 0, 0, 0]
            && (u !in t.audit ==> e.audit[u] == first)
  {
    hide Run, Erased;
    var e := WithAudit(Run(t, DELETE_ORDER, u), u, first);
    RunErases(t, u);
    RunErases(e, u);
    ErasedTwice(t, u);
    ErasedIgnoresAudit(t, u, e.audit);
    ErasedIgnoresAudit(Erased(t, u), u, e.audit);
  }

  lemma ErasedIgnoresAudit(t: Tables, u: User, audit: map<User, Audit>)
    ensures Erased(t.(audit := audit), u) == Erased(t, u).(audit := audit)
    ensures Counts(t.(audit := audit), u) == Counts(t, u)
    ensures Erased(t, u).audit == t.audit
  {
    var s := t.(audit := audit);
    assert HistoryOf(s, u) == HistoryOf(t, u) && FeedbackOf(s, u) == FeedbackOf(t, u);
    assert FeedbackOn(s, HistoryOf(t, u)) == FeedbackOn(t, HistoryOf(t, u)) && UsageOf(s, u) == UsageOf(t, u);
    assert forall i | 0 <= i < 4 :: Count(s, DELETE_ORDER[i], u) == Count(t, DELETE_ORDER[i], u);
  }

  /** Erasing two users gives the same tables in either order, whatever feedback they left on each other's history. */
  lemma ErasuresCommute(t: Tables, u: User, v: User)
    ensures Run(Run(t, DELETE_ORDER, u), DELETE_ORDER, v) == Run(Run(t, DELETE_ORDER, v), DELETE_ORDER, u)
  {
    hide Run, Erased;
    RunErases(t, u);
    RunErases(t, v);
    RunErases(Erased(t, u), v);
    RunErases(Erased(t, v), u);
    ErasedPair(t, u, v);
    ErasedPair(t, v, u);
    assert {u, v} == {v, u};
    assert HistoryOf(t, u) + HistoryOf(t, v) == HistoryOf(t, v) + HistoryOf(t, u);
    assert FeedbackOf(t, u) + FeedbackOf(t, v) == FeedbackOf(t, v) + FeedbackOf(t, u);
    assert UsageOf(t, u) + UsageOf(t, v) == UsageOf(t, v) + UsageOf(t, u);
  }

  lemma ErasedPair(t: Tables, u: User, v: User)
    ensures var gone := HistoryOf(t, u) + HistoryOf(t, v);
            Erased(Erased(t, u), v) == Tables(
              t.users - {u, v},
              t.history - gone,
              t.feedback - (FeedbackOf(t, u) + FeedbackOf(t, v) + FeedbackOn(t, gone)),
              t.usage - (UsageOf(t, u) + UsageOf(t, v)),
              t.audit)
  {
    var gone := HistoryOf(t, u) + HistoryOf(t, v);
    var e := Erased(t, u);
    assert e.users - {v} == t.users - {u, v};
    assert HistoryOf(e, v) == HistoryOf(t, v) - HistoryOf(t, u);
    assert e.history - HistoryOf(e, v) == t.history - gone;
    assert UsageOf(e, v) == UsageOf(t, v) - UsageOf(t, u);
    assert e.usage - UsageOf(e, v) == t.usage - (UsageOf(t, u) + UsageOf(t, v));
    FeedbackPair(t, u, v);
  }

  lemma FeedbackPair(t: Tables, u: User, v: User)
    ensures var e := Erased(t, u);
            e.feedback - (FeedbackOf(e, v) + FeedbackOn(e, HistoryOf(e, v)))
            == t.feedback - (FeedbackOf(t, u) + FeedbackOf(t, v) + FeedbackOn(t, HistoryOf(t, u) + HistoryOf(t, v)))
  {
  }

  // ---------------------------------------------------------------- why the order matters

  /**
   With the users row deleted first, SET NULL unlinks what should have been erased: the same tables are reached if and
   only if the user had no history and no feedback.
   */
  lemma UsersFirstExactly(t: Tables, u: User)
    ensures Run(t, [UsersTable, FeedbackTable, HistoryTable, UsageTable], u) == Run(t, DELETE_ORDER, u)
       <==> HistoryOf(t, u) == {} && FeedbackOf(t, u) == {}
  {
    hide Run, Erased;
    RunFour(t, UsersTable, FeedbackTable, HistoryTable, UsageTable, u);
    RunErases(t, u);
    Unlinked(t, u);
    ErasedDomains(t, u);
  }

  lemma Unlinked(t: Tables, u: User)
    ensures var t1 := DeleteFrom(t, UsersTable, u);
            var t4 := DeleteFrom(DeleteFrom(DeleteFrom(t1, FeedbackTable, u), HistoryTable, u), UsageTable, u);
            && t4 == t1
            && t1.history.Keys == t.history.Keys
            && t1.feedback.Keys == t.feedback.Keys
            && (HistoryOf(t, u) == {} && FeedbackOf(t, u) == {} ==> t1 == Erased(t, u))
  {
    var t1 := DeleteFrom(t, UsersTable, u);
    assert HistoryOf(t1, u) == {} && FeedbackOf(t1, u) == {} && UsageOf(t1, u) == {} && FeedbackOn(t1, {}) == {};
    assert t1.feedback - {} == t1.feedback && t1.history - {} == t1.history && t1.usage - {} == t1.usage;
    if HistoryOf(t, u) == {} && FeedbackOf(t, u) == {} {
      assert FeedbackOn(t, {}) == {};
      assert t1.history == t.history - {} && t1.feedback == t.feedback - ({} + {});
    }
  }

  lemma ErasedDomains(t: Tables, u: User)
    ensures Erased(t, u).history.Keys == t.history.Keys <==> HistoryOf(t, u) == {}
    ensures Erased(t, u).feedback.Keys == t.feedback.Keys ==> FeedbackOf(t, u) == {}
  {
    var e := Erased(t, u);
    assert forall h :: h in HistoryOf(t, u) ==> h in t.history && h !in e.history;
    assert forall f :: f in FeedbackOf(t, u) ==> f in t.feedback && f !in e.feedback;
    if HistoryOf(t, u) == {} {
      assert e.history == t.history - {};
    }
  }

  // ---------------------------------------------------------------- the counts reported

  lemma RemovedRows<K, R>(m: map<K, R>, gone: set<K>)
    requires gone <= m.Keys
    ensures |m| == |m - gone| + |gone|
  {
    assert (m - gone).Keys == m.Keys - gone;
    assert |m.Keys| == |m.Keys - gone| + |gone|;
  }

  function Total(counts: seq<nat>): nat {
    if counts == [] then 0 else counts[0] + Total(counts[1..])
  }

  /** How many user rows the tables hold. */
  function Size(t: Tables): nat {
    |t.users| + |t.history| + |t.feedback| + |t.usage|
  }

  /**
   The reported total never exceeds the number of rows that disappear, and it is that number if and only if no one else's
   feedback hangs on the user's history, because rows the database cascades to are not counted.
   */
  lemma ReportedTotalExactly(t: Tables, u: User)
    ensures var removed := Size(t) - Size(Run(t, DELETE_ORDER, u));
            && Total(Counts(t, u)) <= removed
            && (Total(Counts(t, u)) == removed <==> FeedbackOn(t, HistoryOf(t, u)) <= FeedbackOf(t, u))
  {
    hide Run, Erased, HistoryOf, FeedbackOf, FeedbackOn, UsageOf;
    RunErases(t, u);
    CascadedRows(t, u);
    RestRemoved(t, u);
    UsersRemoved(t, u);
    TotalOfFour(Counts(t, u));
  }

  /** Consistent tables in which the total falls short: a user's feedback hangs on another user's history. */
  lemma TotalFallsShort(u: User, v: User)
    requires u != v
    ensures var t := Tables(map[u := 0, v := 0], map[0 := HistoryRow(Some(u), 0)],
                            map[0 := FeedbackRow(Some(v), Some(0), 0)], map[], map[]);
            Integral(t) && Total(Counts(t, u)) < Size(t) - Size(Run(t, DELETE_ORDER, u))
  {
    hide Run, Total, Size;
    var t := Tables(map[u := 0, v := 0], map[0 := HistoryRow(Some(u), 0)],
                    map[0 := FeedbackRow(Some(v), Some(0), 0)], map[], map[]);
    ReportedTotalExactly(t, u);
    assert 0 in HistoryOf(t, u) && 0 in FeedbackOn(t, HistoryOf(t, u)) && 0 !in FeedbackOf(t, u);
  }

  lemma CascadedRows(t: Tables, u: User)
    ensures var mine, on := FeedbackOf(t, u), FeedbackOn(t, HistoryOf(t, u));
            && |t.feedback| == |Erased(t, u).feedback| + |mine| + |on - mine|
            && (|on - mine| == 0 <==> on <= mine)
  {
    var mine, on := FeedbackOf(t, u), FeedbackOn(t, HistoryOf(t, u));
    assert mine + on == mine + (on - mine);
    RemovedRows(t.feedback, mine + on);
    assert on <= mine <==> on - mine == {};
  }

  lemma RestRemoved(t: Tables, u: User)
    ensures |t.history| == |Erased(t, u).history| + |HistoryOf(t, u)|
    ensures |t.usage| == |Erased(t, u).usage| + |UsageOf(t, u)|
    ensures Erased(t, u).users == t.users - {u}
  {
    RemovedRows(t.history, HistoryOf(t, u));
    RemovedRows(t.usage, UsageOf(t, u));
  }

  lemma UsersRemoved(t: Tables, u: User)
    ensures |t.users| == |t.users - {u}| + Count(t, UsersTable, u)
  {
    if u in t.users {
      RemovedRows(t.users, {u});
    } else {
      assert t.users - {u} == t.users;
    }
  }

  lemma TotalOfFour(c: seq<nat>)
    requires |c| == 4
    ensures Total(c) == c[0] + c[1] + c[2] + c[3]
  {
    assert c[1..][1..] == c[2..] && c[2..][1..] == c[3..] && c[3..] == [c[3]];
    assert Total([c[3]]) == c[3];
    assert Total(c[2..]) == c[2] + c[3];
  }

  // ---------------------------------------------------------------- the two implementations

  /** An open database session: what it sees, and what has been committed. */
  class Session {
    var working: Tables
    var stored: Tables

    constructor (t: Tables)
      ensures working == t && stored == t
    {
      working, stored := t, t;
    }

    method Delete(table: Table, u: User)
      modifies this`working
      ensures working == DeleteFrom(old(working), table, u)
    {
      working := DeleteFrom(working, table, u);
    }

    method Commit()
      modifies this`stored
      ensures stored == working
    {
      stored := working;
    }

    method Rollback()
      modifies this`working
      ensures working == stored
    {
      working := stored;
    }
  }

  /** Which of the statements sent, counted from 0, the database will fail. */
  type Faults = nat -> bool

  datatype Summary = Summary(
    user: User,
    dryRun: bool,
    clerkDeleted: Option<bool>,
    rows: seq<(Table, nat)>,
    auditInserted: bool)

  datatype Outcome = Finished(summary: Summary) | ClerkFailed | DatabaseFailed

  function Rows(t: Tables, u: User, n: nat): seq<(Table, nat)>
    requires n <= 4
  {
    seq(n, i requires 0 <= i < n => (DELETE_ORDER[i], Count(t, DELETE_ORDER[i], u)))
  }

  /** How many of the first `n` tables hold rows of the user. */
  function Concerned(t: Tables, u: User, n: nat): nat
    requires n <= 4
  {
    if n == 0 then 0 else Concerned(t, u, n - 1) + (if Count(t, DELETE_ORDER[n - 1], u) > 0 then 1 else 0)
  }

  /** The statements of a whole run: a count for each table and, in a live run, the deletes, the audit row and the commit. */
  function Statements(t: Tables, u: User, dryRun: bool): nat {
    if dryRun then 4 else 4 + Concerned(t, u, 4) + 2
  }

  /** Some of the deletes have been done, in order. */
  ghost predicate Underway(before: Tables, now: Tables, u: User) {
    exists i: nat :: i <= 4 && now == Run(before, DELETE_ORDER[..i], u)
  }

  /** One table's turn: its count, and its delete if that is live and there is something to delete. None if either fails. */
  method EraseTable(session: Session, table: Table, u: User, dryRun: bool, faults: Faults, sent: nat)
    returns (count: Option<nat>, next: nat)
    requires Integral(session.working)
    modifies session`working
    ensures var statements := if !dryRun && Count(old(session.working), table, u) > 0 then 2 else 1;
            && (count.None? <==> exists n: nat :: sent <= n < sent + statements && faults(n))
            && (count.Some? ==> next == sent + statements)
    ensures count.Some? ==> count.value == Count(old(session.working), table, u)
    ensures count.Some? && !dryRun ==> session.working == DeleteFrom(old(session.working), table, u)
    ensures count.None? || dryRun ==> session.working == old(session.working)
  {
    hide Integral, DeleteFrom, Count;
    next := sent;
    if faults(sent) {
      return None, next;
    }
    next := sent + 1;
    var n := Count(session.working, table, u);
    if !dryRun {
      if n > 0 {
        if faults(sent + 1) {
          return None, next;
        }
        next := sent + 2;
        session.Delete(table, u);
      } else {
        NothingToDelete(session.working, table, u);
      }
    }
    count := Some(n);
  }

  lemma ConcernedNext(t: Tables, u: User, i: nat)
    requires i < 4
    ensures Concerned(t, u, i + 1) == Concerned(t, u, i) + (if Count(t, DELETE_ORDER[i], u) > 0 then 1 else 0)
    ensures Concerned(t, u, 0) == 0 && Concerned(t, u, i + 1) <= Concerned(t, u, 4)
  {
    hide Count;
    ConcernedGrows(t, u, i + 1, 4);
  }

  lemma RowsNext(t: Tables, u: User, i: nat)
    requires i < 4
    ensures Rows(t, u, i + 1) == Rows(t, u, i) + [(DELETE_ORDER[i], Count(t, DELETE_ORDER[i], u))]
  {
  }

  lemma RowsWhole(t: Tables, u: User)
    ensures Rows(t, u, 0) == [] && Concerned(t, u, 0) == 0
    ensures |Rows(t, u, 4)| == 4
    ensures forall i :: 0 <= i < 4 ==> Rows(t, u, 4)[i] == (DELETE_ORDER[i], Count(t, DELETE_ORDER[i], u))
  {
  }

  /**
   `rtbf.delete_user`. `clerk` is absent without a client, else whether its call succeeds. Nothing is stored unless the
   erasure finishes, and a dry run reports the very counts that a live run reports.
   */
  method DeleteUser(session: Session, u: User, a: Audit, dryRun: bool, clerk: Option<bool>, faults: Faults)
    returns (r: Outcome)
    requires Integral(session.working)
    modifies session
    ensures r.ClerkFailed? <==> !dryRun && clerk == Some(false)
    ensures r.ClerkFailed? || dryRun ==> session.working == old(session.working)
    ensures !r.Finished? || dryRun ==> session.stored == old(session.stored)
    ensures r.DatabaseFailed? ==>
              Underway(old(session.working), session.working.(audit := old(session.working.audit)), u)
    ensures r.DatabaseFailed? <==>
              !r.ClerkFailed? && exists n: nat :: n < Statements(old(session.working), u, dryRun) && faults(n)
    ensures r.Finished? ==>
              && r.summary.user == u && r.summary.dryRun == dryRun
              && r.summary.clerkDeleted == (if dryRun || clerk.None? then None else Some(true))
              && r.summary.auditInserted == (!dryRun && u !in old(session.working.audit))
              && |r.summary.rows| == 4
              && forall i :: 0 <= i < 4 ==>
                   r.summary.rows[i] == (DELETE_ORDER[i], Count(old(session.working), DELETE_ORDER[i], u))
    ensures r.Finished? && !dryRun ==>
              session.stored == session.working == WithAudit(Run(old(session.working), DELETE_ORDER, u), u, a)
  {
    hide Integral, Run, DeleteFrom, Rows, Concerned, Count, Underway;
    ghost var before := session.working;
    RowsWhole(before, u);
    var clerkDeleted := None;
    if clerk.Some? && !dryRun {
      if !clerk.value {
        return ClerkFailed;
      }
      clerkDeleted := Some(true);
    }
    var rows: seq<(Table, nat)> := [];
    var sent := 0;
    RunPrefixes(before, u);
    for i := 0 to 4
      invariant session.stored == old(session.stored)
      invariant session.working == if dryRun then before else Run(before, DELETE_ORDER[..i], u)
      invariant rows == Rows(before, u, i)
      invariant sent == i + (if dryRun then 0 else Concerned(before, u, i))
      invariant forall n: nat :: n < sent ==> !faults(n)
    {
      var table := DELETE_ORDER[i];
      ConcernedNext(before, u, i);
      DryRunPredicts(before, u, i);
      RunKeepsIntegrity(before, DELETE_ORDER[..i], u);
      var n;
      n, sent := EraseTable(session, table, u, dryRun, faults, sent);
      if n.None? {
        ProveUnderway(before, session.working, u, if dryRun then 0 else i);
        return DatabaseFailed;
      }
      RowsNext(before, u, i);
      rows := rows + [(table, n.value)];
    }
    var inserted := false;
    if !dryRun {
      RunKeepsAudit(before, DELETE_ORDER, u);
      if faults(sent) {
        ProveUnderway(before, session.working, u, 4);
        return DatabaseFailed;
      }
      inserted := u !in session.working.audit;
      session.working := WithAudit(session.working, u, a);
      if faults(sent + 1) {
        ProveUnderway(before, session.working.(audit := before.audit), u, 4);
        return DatabaseFailed;
      }
      session.Commit();
    }
    r := Finished(Summary(u, dryRun, clerkDeleted, rows, inserted));
  }

  lemma {:induction false} ConcernedGrows(t: Tables, u: User, n: nat, m: nat)
    requires n <= m <= 4
    ensures Concerned(t, u, n) <= Concerned(t, u, m)
    decreases m
  {
    if n < m {
      ConcernedGrows(t, u, n, m - 1);
    }
  }

  lemma ProveUnderway(before: Tables, now: Tables, u: User, i: nat)
    requires i <= 4 && now == Run(before, DELETE_ORDER[..i], u)
    ensures Underway(before, now, u)
    ensures now.audit == before.audit
  {
    RunKeepsAudit(before, DELETE_ORDER[..i], u);
  }

  lemma {:induction false} RunKeepsAudit(t: Tables, order: seq<Table>, u: User)
    ensures Run(t, order, u).audit == t.audit
    decreases |order|
  {
    if order != [] {
      RunKeepsAudit(DeleteFrom(t, order[0], u), order[1..], u);
    }
  }

  datatype Handled = Completed | InvalidPayload | Failed

  /**
   `handle_gdpr_delete`, the other implementation, in its own session scope. It reaches the same user tables as
   `DeleteUser`, or leaves everything as it was.
   */
  method HandleGdprDelete(session: Session, user: Option<User>, faults: Faults) returns (r: Handled)
    requires session.working == session.stored
    modifies session
    ensures session.working == session.stored
    ensures r.InvalidPayload? <==> user.None? || user.value == ""
    ensures !r.Completed? ==> session.stored == old(session.stored)
    ensures r.Completed? ==> session.stored == Run(old(session.stored), DELETE_ORDER, user.value)
    ensures r.Failed? <==> !r.InvalidPayload? && exists n: nat :: n < 5 && faults(n)
  {
    hide Run, DeleteFrom;
    ghost var before := session.working;
    if user.None? || user.value == "" {
      return InvalidPayload;
    }
    RunPrefixes(before, user.value);
    for i := 0 to 4
      invariant session.stored == old(session.stored)
      invariant session.working == Run(before, DELETE_ORDER[..i], user.value)
      invariant forall n: nat :: n < i ==> !faults(n)
    {
      if faults(i) {
        session.Rollback();
        return Failed;
      }
      session.Delete(DELETE_ORDER[i], user.value);
    }
    if faults(4) {
      session.Rollback();
      return Failed;
    }
    session.Commit();
    r := Completed;
  }
}
