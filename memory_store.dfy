/**
 * The `messages` table and the `SQLiteMemory` store over it.
 * The table is a sequence of rows in insertion order; the SQL `SELECT … WHERE … ORDER BY
 * created_at DESC LIMIT k` of the search becomes filtering, sorting and taking a prefix.
 */
module MemoryStore {
  import opened Wrappers
  import opened SqlLike

  /** The JSON `metadata` column, restricted to string values (e.g. `{"role": "user"}`). */
  type Metadata = map<string, string>

  /** One row of the `messages` table; `createdAt` is the server timestamp as an integer. */
  datatype Row = Row(id: int, userId: string, text: string, meta: Option<Metadata>, createdAt: int)

  function Min(a: int, b: int): int
  {
    if a <= b then a else b
  }

  /** Newest first: `created_at` never increases along the sequence. */
  predicate NewestFirst(s: seq<Row>)
  {
    forall i, j :: 0 <= i < j < |s| ==> s[j].createdAt <= s[i].createdAt
  }

  /** The WHERE clause: the user's rows, and with a non-empty query those whose text is LIKE `%query%`. */
  predicate Matches(row: Row, userId: string, query: Option<string>): (m: bool)
    ensures m ==> row.userId == userId
    ensures (query.None? || query.value == "") ==> (m <==> row.userId == userId)
  {
    row.userId == userId && (query.Some? && query.value != "" ==> LikeMatch(row.text, query.value))
  }

  /** For a non-empty query without wildcards the WHERE clause is case-insensitive containment. */
  lemma MatchesPlainQuery(row: Row, userId: string, query: string)
    requires query != "" && NoWildcards(query)
    ensures Matches(row, userId, Some(query)) <==> row.userId == userId && ContainsFolded(row.text, query)
  {
    LikeMatchIsContainment(row.text, query);
  }

  /** The rows the WHERE clause keeps, in table order. */
  function Eligible(rows: seq<Row>, userId: string, query: Option<string>): (e: seq<Row>)
    ensures forall x :: x in e <==> x in rows && Matches(x, userId, query)
  {
    if rows == [] then []
    else
      assert rows == [rows[0]] + rows[1..];
      (if Matches(rows[0], userId, query) then [rows[0]] else []) + Eligible(rows[1..], userId, query)
  }

  /** Filtering keeps each row at most as often as the table holds it. */
  lemma {:induction false} EligibleSubMultiset(rows: seq<Row>, userId: string, query: Option<string>)
    ensures multiset(Eligible(rows, userId, query)) <= multiset(rows)
  {
    if rows != [] {
      assert rows == [rows[0]] + rows[1..];
      EligibleSubMultiset(rows[1..], userId, query);
    }
  }

  /** Filtering distributes over appending rows to the table. */
  lemma {:induction false} EligibleAppend(a: seq<Row>, b: seq<Row>, userId: string, query: Option<string>)
    ensures Eligible(a + b, userId, query) == Eligible(a, userId, query) + Eligible(b, userId, query)
  {
    if a == [] {
      assert a + b == b;
    } else {
      var head := if Matches(a[0], userId, query) then [a[0]] else [];
      assert (a + b)[0] == a[0] && (a + b)[1..] == a[1..] + b;
      calc {
        Eligible(a + b, userId, query);
        head + Eligible(a[1..] + b, userId, query);
        { EligibleAppend(a[1..], b, userId, query); }
        head + (Eligible(a[1..], userId, query) + Eligible(b, userId, query));
        { RowsAssoc(head, Eligible(a[1..], userId, query), Eligible(b, userId, query)); }
        (head + Eligible(a[1..], userId, query)) + Eligible(b, userId, query);
        Eligible(a, userId, query) + Eligible(b, userId, query);
      }
    }
  }

  /** Regrouping a concatenation of three row sequences. */
  lemma RowsAssoc(x: seq<Row>, y: seq<Row>, z: seq<Row>)
    ensures x + (y + z) == (x + y) + z
  {
  }

  /** Putting a row no older than the head in front keeps a sequence newest first. */
  lemma ConsNewestFirst(h: Row, t: seq<Row>)
    requires NewestFirst(t)
    requires t != [] ==> t[0].createdAt <= h.createdAt
    ensures NewestFirst([h] + t)
  {
    var r := [h] + t;
    forall i, j | 0 <= i < j < |r| ensures r[j].createdAt <= r[i].createdAt {
      if i == 0 {
        assert r[j] == t[j - 1];
        assert t[j - 1].createdAt <= t[0].createdAt;
      } else {
        assert r[i] == t[i - 1] && r[j] == t[j - 1];
      }
    }
  }

  /** Dropping the newest row leaves a newest-first sequence. */
  lemma NewestFirstTail(s: seq<Row>)
    requires s != [] && NewestFirst(s)
    ensures NewestFirst(s[1..])
  {
    forall i, j | 0 <= i < j < |s| - 1 ensures s[1..][j].createdAt <= s[1..][i].createdAt {
      assert s[1..][j] == s[j + 1] && s[1..][i] == s[i + 1];
    }
  }

  /** Places one row into a newest-first sequence. */
  function InsertByTime(x: Row, s: seq<Row>): (r: seq<Row>)
    requires NewestFirst(s)
    ensures NewestFirst(r)
    ensures multiset(r) == multiset(s) + multiset{x}
    ensures r[0] == x || r[0] == s[0]
  {
    if s == [] || s[0].createdAt <= x.createdAt then
      ConsNewestFirst(x, s);
      [x] + s
    else
      assert s == [s[0]] + s[1..];
      NewestFirstTail(s);
      var t := InsertByTime(x, s[1..]);
      assert t[0] == x || t[0] == s[1];
      ConsNewestFirst(s[0], t);
      [s[0]] + t
  }

  /** `ORDER BY created_at DESC`: a newest-first permutation of its input (ties in no promised order). */
  function SortNewestFirst(s: seq<Row>): (r: seq<Row>)
    ensures NewestFirst(r)
    ensures multiset(r) == multiset(s)
  {
    if s == [] then []
    else
      assert s == [s[0]] + s[1..];
      InsertByTime(s[0], SortNewestFirst(s[1..]))
  }

  /** `LIMIT k` on a newest-first sequence keeps its newest rows. */
  lemma TakeNewest(s: seq<Row>, k: nat)
    requires NewestFirst(s)
    ensures NewestFirst(s[..Min(k, |s|)])
    ensures multiset(s[..Min(k, |s|)]) <= multiset(s)
    ensures forall x :: x in s && x !in s[..Min(k, |s|)] ==>
              Min(k, |s|) == k && (k > 0 ==> x.createdAt <= s[k - 1].createdAt)
  {
    var n := Min(k, |s|);
    forall i, j | 0 <= i < j < n ensures s[..n][j].createdAt <= s[..n][i].createdAt {
      assert s[..n][i] == s[i] && s[..n][j] == s[j];
    }
    PrefixSubMultiset(s, n);
    TakeOmitsOnlyOlder(s, k);
  }

  /** A prefix holds no row more often than the whole sequence. */
  lemma PrefixSubMultiset(s: seq<Row>, n: nat)
    requires n <= |s|
    ensures multiset(s[..n]) <= multiset(s)
  {
    assert s == s[..n] + s[n..];
  }

  /** A row left out by `LIMIT k` is only left out when `k` rows were kept, all at least as new. */
  lemma TakeOmitsOnlyOlder(s: seq<Row>, k: nat)
    requires NewestFirst(s)
    ensures forall x :: x in s && x !in s[..Min(k, |s|)] ==>
              Min(k, |s|) == k && (k > 0 ==> x.createdAt <= s[k - 1].createdAt)
  {
    var n := Min(k, |s|);
    forall x | x in s && x !in s[..n]
      ensures n == k && (k > 0 ==> x.createdAt <= s[k - 1].createdAt)
    {
      var j :| 0 <= j < |s| && s[j] == x;
      assert n <= j;
    }
  }

  /** Membership facts that carry the sub-multiset chain rows ⊇ eligible = sorted ⊇ taken. */
  lemma SelectFacts(rows: seq<Row>, e: seq<Row>, s: seq<Row>, r: seq<Row>, userId: string, query: Option<string>)
    requires e == Eligible(rows, userId, query)
    requires multiset(s) == multiset(e) && multiset(r) <= multiset(s)
    ensures multiset(r) <= multiset(rows)
    ensures forall x :: x in r ==> x in rows && Matches(x, userId, query)
    ensures forall x :: x in rows && Matches(x, userId, query) ==> x in s
  {
    EligibleSubMultiset(rows, userId, query);
    forall x | x in r ensures x in rows && Matches(x, userId, query) {
      assert x in multiset(r);
      assert x in multiset(e);
    }
    forall x | x in rows && Matches(x, userId, query) ensures x in s {
      assert x in multiset(e);
    }
  }

  /**
   * `search(user_id, k, query)`: at most `k` of the user's stored rows, newest first, filtered
   * by LIKE when the query is non-empty; an omitted eligible row only exists when `k` rows came
   * back, and it is no newer than the last of them.
   */
  function Select(rows: seq<Row>, userId: string, k: nat, query: Option<string>): (r: seq<Row>)
    ensures |r| <= k
    ensures forall x :: x in r ==> x in rows && x.userId == userId
    ensures query.Some? && query.value != "" ==> forall x :: x in r ==> LikeMatch(x.text, query.value)
    ensures NewestFirst(r)
    ensures forall x :: x in rows && Matches(x, userId, query) && x !in r ==>
              |r| == k && (k > 0 ==> x.createdAt <= r[k - 1].createdAt)
  {
    var e := Eligible(rows, userId, query);
    var s := SortNewestFirst(e);
    TakeNewest(s, k);
    SelectFacts(rows, e, s, s[..Min(k, |s|)], userId, query);
    s[..Min(k, |s|)]
  }

  /** `search` never returns a stored row more often than the table holds it. */
  lemma SelectSubMultiset(rows: seq<Row>, userId: string, k: nat, query: Option<string>)
    ensures multiset(Select(rows, userId, k, query)) <= multiset(rows)
  {
    var e := Eligible(rows, userId, query);
    var s := SortNewestFirst(e);
    TakeNewest(s, k);
    SelectFacts(rows, e, s, s[..Min(k, |s|)], userId, query);
  }

  /** Rows of other users never pass the filter. */
  lemma {:induction false} EligibleOfStranger(rows: seq<Row>, userId: string, query: Option<string>)
    requires forall x :: x in rows ==> x.userId != userId
    ensures Eligible(rows, userId, query) == []
  {
    if rows != [] {
      assert rows[0] in rows;
      assert forall x :: x in rows[1..] ==> x in rows;
      EligibleOfStranger(rows[1..], userId, query);
    }
  }

  /** Saving rows for one user leaves every other user's search result as it was. */
  lemma OtherUsersUnaffected(rows: seq<Row>, added: seq<Row>, userId: string, other: string, k: nat, query: Option<string>)
    requires forall x :: x in added ==> x.userId == userId
    requires other != userId
    ensures Select(rows + added, other, k, query) == Select(rows, other, k, query)
  {
    EligibleAppend(rows, added, other, query);
    EligibleOfStranger(added, other, query);
    assert Eligible(rows, other, query) + [] == Eligible(rows, other, query);
  }

  /** After a first turn, the user's eligible rows are exactly that turn's two rows. */
  lemma EligibleAfterFirstTurn(rows: seq<Row>, userId: string, userRow: Row, assistantRow: Row)
    requires forall x :: x in rows ==> x.userId != userId
    requires userRow.userId == userId && assistantRow.userId == userId
    ensures Eligible(rows + [userRow, assistantRow], userId, None) == [userRow, assistantRow]
  {
    var turn := [userRow, assistantRow];
    EligibleAppend(rows, turn, userId, None);
    EligibleOfStranger(rows, userId, None);
    assert turn[1..] == [assistantRow] && [assistantRow][1..] == [];
    assert Eligible([assistantRow], userId, None) == [assistantRow];
  }

  /** Two rows with distinct timestamps sort newest first. */
  lemma SortTwo(older: Row, newer: Row)
    requires older.createdAt < newer.createdAt
    ensures SortNewestFirst([older, newer]) == [newer, older]
  {
    assert [older, newer][1..] == [newer] && [newer][1..] == [];
    assert SortNewestFirst([newer]) == [newer];
    assert InsertByTime(older, [newer]) == [newer, older];
  }

  /** The model's choice for rows with equal timestamps, which SQLite leaves open: table order. */
  lemma SortTieKeepsTableOrder(first: Row, second: Row)
    requires first.createdAt == second.createdAt
    ensures SortNewestFirst([first, second]) == [first, second]
  {
    assert [first, second][1..] == [second] && [second][1..] == [];
    assert SortNewestFirst([second]) == [second];
    assert InsertByTime(first, [second]) == [first, second];
  }

  /**
   * A user with no history who then has a user row and a strictly later assistant row
   * gets exactly those two back, the assistant row first.
   */
  lemma FirstTurnRecall(rows: seq<Row>, userId: string, userRow: Row, assistantRow: Row)
    requires forall x :: x in rows ==> x.userId != userId
    requires userRow.userId == userId && assistantRow.userId == userId
    requires userRow.createdAt < assistantRow.createdAt
    ensures Select(rows + [userRow, assistantRow], userId, 5, None) == [assistantRow, userRow]
  {
    EligibleAfterFirstTurn(rows, userId, userRow, assistantRow);
    SortTwo(userRow, assistantRow);
    TakeAll(rows + [userRow, assistantRow], userId, [assistantRow, userRow]);
  }

  /** With at most five eligible rows, `search(user_id, k=5)` returns all of them, sorted. */
  lemma TakeAll(rows: seq<Row>, userId: string, sorted: seq<Row>)
    requires SortNewestFirst(Eligible(rows, userId, None)) == sorted && |sorted| <= 5
    ensures Select(rows, userId, 5, None) == sorted
  {
  }

  /** Every id is a positive rowid below `bound`. */
  ghost predicate IdsBelow(rows: seq<Row>, bound: int) {
    forall i :: 0 <= i < |rows| ==> 1 <= rows[i].id < bound
  }

  /** Ids strictly increase in insertion order. */
  ghost predicate IdsIncreasing(rows: seq<Row>) {
    forall i, j :: 0 <= i < j < |rows| ==> rows[i].id < rows[j].id
  }

  /**
   * The store: the table's rows in insertion order and the next autoincrement id.
   * SQLAlchemy sessions and the SQLite file become updates of these two fields.
   */
  class SqliteMemory {
    var rows: seq<Row>
    var nextId: int

    /**
     * Ids are positive, strictly increasing in insertion order and all below `nextId`, and
     * `nextId` is SQLite's next rowid: one more than the largest id, or 1 for an empty table.
     */
    ghost predicate Valid()
      reads this
    {
      && 1 <= nextId
      && IdsBelow(rows, nextId)
      && IdsIncreasing(rows)
      && nextId == (if rows == [] then 1 else rows[|rows| - 1].id + 1)
    }

    /** A freshly created, empty `messages` table. */
    constructor ()
      ensures Valid() && rows == [] && nextId == 1
    {
      rows := [];
      nextId := 1;
    }

    /**
     * `save`: appends one row holding the arguments verbatim, stamped with `now`, and
     * returns its id, which exceeds every id already in the table.
     */
    method Save(userId: string, text: string, meta: Option<Metadata>, now: int) returns (id: int)
      requires Valid()
      modifies this
      ensures Valid()
      ensures id == old(nextId) && nextId == old(nextId) + 1
      ensures id == if old(rows) == [] then 1 else old(rows)[|old(rows)| - 1].id + 1
      ensures forall x :: x in old(rows) ==> x.id < id
      ensures rows == old(rows) + [Row(old(nextId), userId, text, meta, now)]
    {
      id := nextId;
      rows := rows + [Row(id, userId, text, meta, now)];
      nextId := nextId + 1;
    }

    /** `search`: read-only selection over the current rows. */
    function Search(userId: string, k: nat, query: Option<string>): (r: seq<Row>)
      reads this
      ensures |r| <= k && forall x :: x in r ==> x in rows && x.userId == userId
    {
      Select(rows, userId, k, query)
    }
  }
}
