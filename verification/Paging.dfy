/** Keyset pagination over one restored table
    (scripts/operations/verify-restored-secrets.ts and its two query builders). */
module Paging {
  import opened Text
  import opened Sorting

  /** A stored row; identifiers are compared as canonical UUID text, which orders them
      as PostgreSQL orders the `uuid` type. */
  datatype Row = Row(organization: Str, id: Str, keyVersion: int, ciphertext: Maybe<Str>, provider: Maybe<Str>)

  /** Master-data queries skip rows without ciphertext, banking queries do not. */
  predicate Eligible(row: Row, skipNull: bool) {
    skipNull ==> row.ciphertext.Some?
  }

  predicate Before(a: Row, b: Row) {
    Less(a.organization, b.organization) || (a.organization == b.organization && Less(a.id, b.id))
  }

  predicate SameKey(a: Row, b: Row) {
    a.organization == b.organization && a.id == b.id
  }

  lemma BeforeTotal(a: Row, b: Row)
    ensures Before(a, b) || Before(b, a) || SameKey(a, b)
    ensures !(Before(a, b) && Before(b, a)) && !(SameKey(a, b) && Before(a, b))
  {
    LessTotal(a.organization, b.organization);
    LessTotal(a.id, b.id);
  }

  lemma BeforeTransitive(a: Row, b: Row, c: Row)
    requires Before(a, b) && Before(b, c)
    ensures Before(a, c)
  {
    if Less(a.organization, b.organization) && Less(b.organization, c.organization) {
      LessTransitive(a.organization, b.organization, c.organization);
    }
    if Less(a.id, b.id) && Less(b.id, c.id) {
      LessTransitive(a.id, b.id, c.id);
    }
  }

  predicate DistinctKeys(table: seq<Row>) {
    forall i, j | 0 <= i < j < |table| :: !SameKey(table[i], table[j])
  }

  predicate Ascending(rows: seq<Row>) {
    forall i, j | 0 <= i < j < |rows| :: Before(rows[i], rows[j])
  }

  // ------------------------------------------------------------ the one list

  function Insert(row: Row, rows: seq<Row>): seq<Row> {
    if rows == [] || Before(row, rows[0]) then [row] + rows else [rows[0]] + Insert(row, rows[1..])
  }

  /** Every eligible row of the table, in key order. */
  function Listing(table: seq<Row>, skipNull: bool): seq<Row> {
    if table == [] then []
    else if Eligible(table[0], skipNull) then Insert(table[0], Listing(table[1..], skipNull))
    else Listing(table[1..], skipNull)
  }

  function CountEligible(table: seq<Row>, skipNull: bool): nat {
    if table == [] then 0
    else (if Eligible(table[0], skipNull) then 1 else 0) + CountEligible(table[1..], skipNull)
  }

  lemma {:induction false} InsertAscending(row: Row, rows: seq<Row>)
    requires Ascending(rows) && forall i | 0 <= i < |rows| :: !SameKey(row, rows[i])
    ensures Ascending(Insert(row, rows)) && |Insert(row, rows)| == |rows| + 1
    ensures multiset(Insert(row, rows)) == multiset(rows) + multiset{row}
  {
    hide Before, SameKey;
    if rows != [] && !Before(row, rows[0]) {
      var tail := Insert(row, rows[1..]);
      InsertAscending(row, rows[1..]);
      BeforeTotal(row, rows[0]);
      assert rows == [rows[0]] + rows[1..];
      forall j | 0 <= j < |tail| ensures Before(rows[0], tail[j]) {
        assert tail[j] in multiset(tail);
        if tail[j] != row {
          assert tail[j] in rows[1..];
        }
      }
    } else if rows != [] {
      forall j | 0 <= j < |rows| ensures Before(row, rows[j]) {
        if j > 0 {
          BeforeTransitive(row, rows[0], rows[j]);
        }
      }
    }
  }

  /** The listing is in key order and holds each eligible row once and nothing else. */
  lemma {:induction false} ListingRight(table: seq<Row>, skipNull: bool)
    requires DistinctKeys(table)
    ensures Ascending(Listing(table, skipNull))
    ensures |Listing(table, skipNull)| == CountEligible(table, skipNull)
    ensures forall r <- Listing(table, skipNull) :: r in table && Eligible(r, skipNull)
    ensures forall r <- table :: Eligible(r, skipNull) ==> r in Listing(table, skipNull)
  {
    if table != [] {
      var row, rest := table[0], Listing(table[1..], skipNull);
      ListingRight(table[1..], skipNull);
      assert table == [row] + table[1..];
      if Eligible(row, skipNull) {
        forall i | 0 <= i < |rest| ensures !SameKey(row, rest[i]) {
          assert rest[i] in table[1..];
        }
        InsertAscending(row, rest);
        MembersOf(Insert(row, rest), rest, row);
      }
    }
  }

  lemma MembersOf(all: seq<Row>, rest: seq<Row>, row: Row)
    requires multiset(all) == multiset(rest) + multiset{row}
    ensures forall r <- all :: r == row || r in rest
    ensures row in all && forall r <- rest :: r in all
  {
    forall r <- all ensures r == row || r in rest {
      assert r in multiset(all);
    }
    forall r <- rest ensures r in all {
      assert r in multiset(all);
    }
    assert row in multiset(all);
  }

  // ---------------------------------------------------------------- the query

  datatype Cursor = Start | After(organization: Str, id: Str)

  /** `$1 IS NULL OR (organization_id, id) > ($1, $2)` */
  predicate Past(row: Row, cursor: Cursor) {
    cursor.After? ==>
      || Less(cursor.organization, row.organization)
      || (cursor.organization == row.organization && Less(cursor.id, row.id))
  }

  /** What PostgreSQL promises of the batch query: rows of the table that qualify, in key
      order, at most `limit`, and none left out before the last one, or at all when the
      answer is short. */
  ghost predicate Answers(rows: seq<Row>, table: seq<Row>, skipNull: bool, cursor: Cursor, limit: nat) {
    && |rows| <= limit && Ascending(rows)
    && (forall r <- rows :: r in table && Eligible(r, skipNull) && Past(r, cursor))
    && (forall r <- table ::
          Eligible(r, skipNull) && Past(r, cursor) && r !in rows ==>
            |rows| == limit && (limit > 0 ==> Before(rows[limit - 1], r)))
  }

  type Query = (Cursor, nat) -> seq<Row>

  ghost predicate Faithful(query: Query, table: seq<Row>, skipNull: bool) {
    forall cursor, limit :: Answers(query(cursor, limit), table, skipNull, cursor, limit)
  }

  /** The cursor stands before position `k` of the listing. */
  predicate At(cursor: Cursor, all: seq<Row>, k: nat) {
    && k <= |all|
    && (k == 0 ==> cursor == Start)
    && (k > 0 ==> cursor == After(all[k - 1].organization, all[k - 1].id))
  }

  lemma PastExactly(cursor: Cursor, all: seq<Row>, k: nat, j: nat)
    requires Ascending(all) && At(cursor, all, k) && j < |all|
    ensures Past(all[j], cursor) <==> k <= j
  {
    if k > 0 {
      BeforeTotal(all[k - 1], all[j]);
      if j < k - 1 {
        assert Before(all[j], all[k - 1]);
      }
    }
  }

  lemma PositionUnique(all: seq<Row>, i: nat, j: nat)
    requires Ascending(all) && i < |all| && j < |all| && (all[i] == all[j] || !Before(all[i], all[j]))
    ensures j <= i
  {
    BeforeTotal(all[i], all[i]);
  }

  /** A page agrees with the listing row by row. */
  lemma {:induction false} PageFollows(rows: seq<Row>, all: seq<Row>, table: seq<Row>, skipNull: bool, cursor: Cursor,
                                       limit: nat, k: nat, i: nat)
    requires Answers(rows, table, skipNull, cursor, limit) && At(cursor, all, k) && i <= |rows|
    requires Ascending(all)
    requires forall r <- all :: r in table && Eligible(r, skipNull)
    requires forall r <- table :: Eligible(r, skipNull) ==> r in all
    ensures k + i <= |all| && rows[..i] == all[k..k + i]
    decreases i
  {
    hide Before, SameKey, Past, Eligible;
    if i > 0 {
      PageFollows(rows, all, table, skipNull, cursor, limit, k, i - 1);
      assert rows[i - 1] in all;
      var j :| 0 <= j < |all| && all[j] == rows[i - 1];
      PastExactly(cursor, all, k, j);
      var p := k + i - 1;
      forall m | 0 <= m < i - 1 ensures rows[m] == all[k + m] {
        assert rows[m] == rows[..i - 1][m] == all[k..p][m];
      }
      if j < p {
        assert rows[j - k] == all[j] && Before(rows[j - k], rows[i - 1]);
        BeforeTotal(all[j], all[j]);
        assert false;
      }
      NoneSkipped(rows, all, table, skipNull, cursor, limit, k, i, p);
      assert rows[..i] == rows[..i - 1] + [rows[i - 1]];
      assert all[k..k + i] == all[k..p] + [all[p]];
    }
  }

  lemma NoneSkipped(rows: seq<Row>, all: seq<Row>, table: seq<Row>, skipNull: bool, cursor: Cursor, limit: nat,
                    k: nat, i: nat, p: nat)
    requires Answers(rows, table, skipNull, cursor, limit) && At(cursor, all, k) && 0 < i <= |rows|
    requires Ascending(all) && p == k + i - 1 < |all|
    requires forall r <- all :: r in table && Eligible(r, skipNull)
    requires forall m | 0 <= m < i - 1 :: rows[m] == all[k + m]
    ensures !Before(all[p], rows[i - 1])
  {
    hide Before, SameKey, Past;
    if Before(all[p], rows[i - 1]) {
      PastExactly(cursor, all, k, p);
      assert all[p] in all;
      BeforeTotal(all[p], rows[i - 1]);
      if all[p] in rows {
        var m :| 0 <= m < |rows| && rows[m] == all[p];
        PositionUnique(rows, i - 1, m);
        if m < i - 1 {
          PositionUnique(all, k + m, p);
        }
      } else {
        assert Before(rows[limit - 1], all[p]);
        if i < limit {
          BeforeTransitive(rows[i - 1], rows[limit - 1], all[p]);
        }
      }
    }
  }

  /** A page is the next stretch of the listing, full unless the listing ends. */
  lemma PageIsNextStretch(rows: seq<Row>, table: seq<Row>, skipNull: bool, cursor: Cursor, limit: nat, k: nat)
    requires DistinctKeys(table) && Answers(rows, table, skipNull, cursor, limit)
    requires At(cursor, Listing(table, skipNull), k)
    ensures var all := Listing(table, skipNull);
            && k + |rows| <= |all| && rows == all[k..k + |rows|]
            && (|rows| < limit ==> k + |rows| == |all|)
  {
    var all := Listing(table, skipNull);
    ListingRight(table, skipNull);
    hide Listing, Before, Past;
    PageFollows(rows, all, table, skipNull, cursor, limit, k, |rows|);
    assert rows[..|rows|] == rows;
    if |rows| < limit && k + |rows| < |all| {
      ShortPageEnds(rows, all, table, skipNull, cursor, limit, k);
    }
  }

  lemma ShortPageEnds(rows: seq<Row>, all: seq<Row>, table: seq<Row>, skipNull: bool, cursor: Cursor, limit: nat,
                      k: nat)
    requires Answers(rows, table, skipNull, cursor, limit) && At(cursor, all, k) && Ascending(all) && |rows| < limit
    requires forall r <- all :: r in table && Eligible(r, skipNull)
    requires k + |rows| <= |all| && rows == all[k..k + |rows|]
    ensures k + |rows| == |all|
  {
    hide Before, Past;
    var p := k + |rows|;
    if p < |all| {
      PastExactly(cursor, all, k, p);
      assert all[p] in all;
      assert all[p] in rows;
      var m :| 0 <= m < |rows| && rows[m] == all[p];
      PositionUnique(all, k + m, p);
    }
  }

  // ----------------------------------------------------------------- the loop

  datatype Verdict<F> = Fine | Bad(fault: F)
  datatype Tally<F> = Counted(n: nat) | Failed(at: Row, fault: F)

  /** Rows handed to a verifier one by one: their number, or the first failure. */
  function Verified<F>(rows: seq<Row>, check: Row -> Verdict<F>): Tally<F> {
    if rows == [] then Counted(0)
    else match check(rows[0])
      case Bad(fault) => Failed(rows[0], fault)
      case Fine => match Verified(rows[1..], check)
        case Counted(n) => Counted(n + 1)
        case Failed(at, fault) => Failed(at, fault)
  }

  lemma VerifiedNone<F>(check: Row -> Verdict<F>)
    ensures Verified([], check) == Counted(0)
  {
  }

  lemma {:induction false} VerifiedConcat<F>(a: seq<Row>, b: seq<Row>, check: Row -> Verdict<F>)
    requires Verified(a, check).Counted?
    ensures Verified(a, check).n == |a|
    ensures Verified(a + b, check) ==
            match Verified(b, check)
            case Counted(n) => Counted(|a| + n)
            case Failed(at, fault) => Failed(at, fault)
  {
    if a == [] {
      assert a + b == b;
    } else {
      VerifiedConcat(a[1..], b, check);
      assert (a + b)[1..] == a[1..] + b && (a + b)[0] == a[0];
    }
  }

  lemma {:induction false} FailedPrefix<F>(a: seq<Row>, b: seq<Row>, check: Row -> Verdict<F>)
    requires Verified(a, check).Failed?
    ensures Verified(a + b, check) == Verified(a, check)
  {
    if a != [] {
      assert (a + b)[1..] == a[1..] + b && (a + b)[0] == a[0];
      if check(a[0]).Fine? {
        FailedPrefix(a[1..], b, check);
      }
    }
  }

  /** Success means that every row passed, and the count is their number. */
  lemma {:induction false} VerifiedExactly<F>(rows: seq<Row>, check: Row -> Verdict<F>)
    ensures Verified(rows, check).Counted? <==> forall i | 0 <= i < |rows| :: check(rows[i]).Fine?
    ensures Verified(rows, check).Counted? ==> Verified(rows, check).n == |rows|
  {
    if rows != [] {
      VerifiedExactly(rows[1..], check);
      assert forall i | 1 <= i < |rows| :: rows[i] == rows[1..][i - 1];
    }
  }

  /** `verifyRestoredBankingCiphertexts` and `verifyRestoredMasterDataCiphertexts`. */
  method VerifyPage<F>(rows: seq<Row>, check: Row -> Verdict<F>) returns (r: Tally<F>)
    ensures r == Verified(rows, check)
  {
    var verifiedCount := 0;
    for i := 0 to |rows|
      invariant verifiedCount == i && Verified(rows[..i], check) == Counted(i)
    {
      var verdict := check(rows[i]);
      assert rows[..i + 1] == rows[..i] + [rows[i]];
      assert [rows[i]][1..] == [];
      VerifiedConcat(rows[..i], [rows[i]], check);
      if verdict.Bad? {
        assert rows == rows[..i + 1] + rows[i + 1..];
        FailedPrefix(rows[..i + 1], rows[i + 1..], check);
        return Failed(rows[i], verdict.fault);
      }
      verifiedCount := verifiedCount + 1;
    }
    assert rows[..|rows|] == rows;
    r := Counted(verifiedCount);
  }

  /** The cursor loop of `main` for one column. Whatever the batch size, it does what one
      pass over the whole listing would do. */
  method VerifyTable<F>(query: Query, batch: nat, check: Row -> Verdict<F>, ghost table: seq<Row>, ghost skipNull: bool)
    returns (r: Tally<F>)
    requires batch > 0 && DistinctKeys(table) && Faithful(query, table, skipNull)
    ensures r == Verified(Listing(table, skipNull), check)
  {
    hide Listing, Answers, Verified, Ascending, DistinctKeys;
    VerifiedNone(check);
    var cursor := Start;
    var count := 0;
    ghost var all := Listing(table, skipNull);
    while true
      invariant At(cursor, all, count)
      invariant Verified(all[..count], check) == Counted(count)
      decreases |all| - count
    {
      var rows := query(cursor, batch);
      PageIsNextStretch(rows, table, skipNull, cursor, batch, count);
      var page := VerifyPage(rows, check);
      ghost var next := count + |rows|;
      assert all[..next] == all[..count] + rows;
      VerifiedConcat(all[..count], rows, check);
      if page.Failed? {
        assert all == all[..next] + all[next..];
        FailedPrefix(all[..next], all[next..], check);
        return page;
      }
      VerifiedExactly(rows, check);
      count := count + page.n;
      if |rows| == 0 || |rows| < batch {
        assert all[..count] == all;
        return Counted(count);
      }
      var last := rows[|rows| - 1];
      cursor := After(last.organization, last.id);
      assert last == all[count - 1];
    }
  }
}
