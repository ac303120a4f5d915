/**
 The alignment table of `coords-stats.py` and the query that feeds the
 coverage sweep: for every contig (QRYID) its alignments of maximal purity,
 ordered by reference (REFID) and then by start on the reference (S1).
 */
module Coords {

  /**
   One alignment line of nucmer's `show-coords` output, a row of table
   Coords. The percentages IDY, COVR and COVQ are taken as whole numbers.
   */
  datatype Row = Row(
    s1: int, e1: int, s2: int, e2: int,
    len1: int, len2: int,
    idy: nat,
    lenr: int, lenq: int,
    covr: nat, covq: nat,
    refId: string, qryId: string)

  /** Purity COVQ * IDY / 10000, kept as the product so that comparisons are exact. */
  function Purity(r: Row): nat
  {
    r.covq * r.idy
  }

  /** No alignment of the same contig in `rows` is purer than `r`. */
  predicate HasMaxPurity(rows: seq<Row>, r: Row)
  {
    forall i :: 0 <= i < |rows| && rows[i].qryId == r.qryId ==> Purity(rows[i]) <= Purity(r)
  }

  /** Every contig that has an alignment has one of maximal purity. */
  lemma {:induction false} MaxPurityExists(rows: seq<Row>, k: nat)
    requires k < |rows|
    ensures exists i :: 0 <= i < |rows| && rows[i].qryId == rows[k].qryId && HasMaxPurity(rows, rows[i])
  {
    var q := rows[k].qryId;
    var best := k;
    for i := 0 to |rows|
      invariant best < |rows| && rows[best].qryId == q
      invariant forall j :: 0 <= j < i && rows[j].qryId == q ==> Purity(rows[j]) <= Purity(rows[best])
    {
      if rows[i].qryId == q && Purity(rows[i]) > Purity(rows[best]) {
        best := i;
      }
    }
  }

  /** Text order of SQLite's default (binary) collation: lexicographic by character. */
  predicate StrLess(a: string, b: string)
  {
    if a == [] then b != []
    else if b == [] then false
    else if a[0] != b[0] then a[0] < b[0]
    else StrLess(a[1..], b[1..])
  }

  lemma {:induction false} StrLessIrreflexive(a: string)
    ensures !StrLess(a, a)
  {
    if a != [] {
      StrLessIrreflexive(a[1..]);
    }
  }

  lemma {:induction false} StrLessTransitive(a: string, b: string, c: string)
    requires StrLess(a, b) && StrLess(b, c)
    ensures StrLess(a, c)
  {
    if a != [] && a[0] == b[0] && b[0] == c[0] {
      StrLessTransitive(a[1..], b[1..], c[1..]);
    }
  }

  lemma {:induction false} StrLessTotal(a: string, b: string)
    requires a != b
    ensures StrLess(a, b) || StrLess(b, a)
  {
    if a != [] && b != [] && a[0] == b[0] {
      assert a == [a[0]] + a[1..] && b == [b[0]] + b[1..];
      StrLessTotal(a[1..], b[1..]);
    }
  }

  /** `ORDER BY REFID, S1`: may `a` come before `b`? */
  predicate RowBefore(a: Row, b: Row)
  {
    StrLess(a.refId, b.refId) || (a.refId == b.refId && a.s1 <= b.s1)
  }

  lemma {:induction false} RowBeforeTransitive(a: Row, b: Row, c: Row)
    requires RowBefore(a, b) && RowBefore(b, c)
    ensures RowBefore(a, c)
  {
    if StrLess(a.refId, b.refId) && StrLess(b.refId, c.refId) {
      StrLessTransitive(a.refId, b.refId, c.refId);
    }
  }

  lemma {:induction false} RowBeforeTotal(a: Row, b: Row)
    ensures RowBefore(a, b) || RowBefore(b, a)
  {
    if a.refId != b.refId {
      StrLessTotal(a.refId, b.refId);
    }
  }

  predicate SortedByRefStart(rows: seq<Row>)
  {
    forall i, j :: 0 <= i < j < |rows| ==> RowBefore(rows[i], rows[j])
  }

  /** Inserts `x` into sorted `s` after every row that must come before it. */
  function Insert(x: Row, s: seq<Row>): (r: seq<Row>)
    requires SortedByRefStart(s)
    ensures SortedByRefStart(r)
    ensures multiset(r) == multiset(s) + multiset{x}
  {
    if s == [] then [x]
    else if RowBefore(x, s[0]) then
      InsertFront(x, s);
      [x] + s
    else
      var rest := Insert(x, s[1..]);
      InsertBehind(x, s, rest);
      assert s == [s[0]] + s[1..];
      [s[0]] + rest
  }

  lemma {:induction false} InsertFront(x: Row, s: seq<Row>)
    requires SortedByRefStart(s) && s != [] && RowBefore(x, s[0])
    ensures SortedByRefStart([x] + s)
  {
    forall j | 0 < j < |s|
      ensures RowBefore(x, s[j])
    {
      RowBeforeTransitive(x, s[0], s[j]);
    }
  }

  lemma {:induction false} InsertBehind(x: Row, s: seq<Row>, rest: seq<Row>)
    requires SortedByRefStart(s) && s != [] && !RowBefore(x, s[0])
    requires SortedByRefStart(rest) && multiset(rest) == multiset(s[1..]) + multiset{x}
    ensures SortedByRefStart([s[0]] + rest)
  {
    RowBeforeTotal(x, s[0]);
    forall j | 0 <= j < |rest|
      ensures RowBefore(s[0], rest[j])
    {
      assert rest[j] in multiset(rest);
      if rest[j] != x {
        assert rest[j] in s[1..];
      }
    }
  }

  /** The rows in the order of `ORDER BY REFID, S1` (insertion sort). */
  function SortByRefStart(rows: seq<Row>): (r: seq<Row>)
    ensures SortedByRefStart(r)
    ensures multiset(r) == multiset(rows)
  {
    if rows == [] then []
    else
      assert rows == [rows[0]] + rows[1..];
      Insert(rows[0], SortByRefStart(rows[1..]))
  }

  /** The rows of `s`, in order, that have maximal purity for their contig among `all`. */
  function KeepPurest(all: seq<Row>, s: seq<Row>): (r: seq<Row>)
    ensures forall i :: 0 <= i < |r| ==> HasMaxPurity(all, r[i])
  {
    if s == [] then []
    else
      var rest := KeepPurest(all, s[..|s| - 1]);
      var last := s[|s| - 1];
      if HasMaxPurity(all, last) then rest + [last] else rest
  }

  lemma {:induction false} KeepPurestCounts(all: seq<Row>, s: seq<Row>, x: Row)
    ensures multiset(KeepPurest(all, s))[x] == if HasMaxPurity(all, x) then multiset(s)[x] else 0
  {
    if s != [] {
      KeepPurestCounts(all, s[..|s| - 1], x);
      assert s == s[..|s| - 1] + [s[|s| - 1]];
    }
  }

  /**
   What the query delivers: rows of the table, each of maximal purity for its
   contig, at least one for every contig, ordered by REFID then S1. SQLite's
   GROUP BY keeps one row per contig; keeping every tied row satisfies this too.
   */
  ghost predicate IsPurestSelection(rows: seq<Row>, sel: seq<Row>)
  {
    && multiset(sel) <= multiset(rows)
    && (forall i :: 0 <= i < |sel| ==> HasMaxPurity(rows, sel[i]))
    && (forall k :: 0 <= k < |rows| ==> exists i :: 0 <= i < |sel| && sel[i].qryId == rows[k].qryId)
    && SortedByRefStart(sel)
  }

  /** The selection that keeps every tied row of maximal purity. */
  function SelectPurest(rows: seq<Row>): seq<Row>
  {
    SortByRefStart(KeepPurest(rows, rows))
  }

  lemma {:induction false} SelectPurestIsSelection(rows: seq<Row>)
    ensures IsPurestSelection(rows, SelectPurest(rows))
  {
    var kept := KeepPurest(rows, rows);
    var sel := SelectPurest(rows);
    forall x
      ensures multiset(sel)[x] <= multiset(rows)[x]
    {
      KeepPurestCounts(rows, rows, x);
    }
    forall i | 0 <= i < |sel|
      ensures HasMaxPurity(rows, sel[i])
    {
      assert sel[i] in multiset(kept);
      var j :| 0 <= j < |kept| && kept[j] == sel[i];
    }
    forall k | 0 <= k < |rows|
      ensures exists i :: 0 <= i < |sel| && sel[i].qryId == rows[k].qryId
    {
      MaxPurityExists(rows, k);
      var m :| 0 <= m < |rows| && rows[m].qryId == rows[k].qryId && HasMaxPurity(rows, rows[m]);
      KeepPurestCounts(rows, rows, rows[m]);
      assert rows[m] in multiset(sel);
      var i :| 0 <= i < |sel| && sel[i] == rows[m];
    }
  }

  /** Tied rows are all kept: each row of maximal purity appears as often as in the table. */
  lemma {:induction false} SelectPurestKeepsTies(rows: seq<Row>, x: Row)
    requires HasMaxPurity(rows, x)
    ensures multiset(SelectPurest(rows))[x] == multiset(rows)[x]
  {
    KeepPurestCounts(rows, rows, x);
  }
}
