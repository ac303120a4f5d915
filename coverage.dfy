/**
 `calc_genome_contig_cov_in_bases`: a left-to-right sweep over alignment rows
 ordered by (REFID, S1) that adds up, per reference genome, the bases covered
 by the rows, counting overlapping stretches once.
 */
module Coverage {
  import opened Coords

  /** Rows of one genome are consecutive: a row whose genome was seen before continues the previous row's genome. */
  predicate GroupedByRef(rows: seq<Row>)
  {
    rows == [] ||
    var init, last := rows[..|rows| - 1], rows[|rows| - 1];
    && GroupedByRef(init)
    && (last.refId in RefIds(init) ==> init != [] && init[|init| - 1].refId == last.refId)
  }

  /** Within a genome, start positions do not decrease. */
  predicate StartsAscending(rows: seq<Row>)
  {
    forall i, j :: 0 <= i < j < |rows| && rows[i].refId == rows[j].refId ==> rows[i].s1 <= rows[j].s1
  }

  /** Rows in `ORDER BY REFID, S1` order are grouped by genome with ascending starts. */
  lemma {:induction false} SortedIsSweepOrder(rows: seq<Row>)
    requires SortedByRefStart(rows)
    ensures GroupedByRef(rows) && StartsAscending(rows)
  {
    SortedIsGrouped(rows);
    forall i, j | 0 <= i < j < |rows| && rows[i].refId == rows[j].refId
      ensures rows[i].s1 <= rows[j].s1
    {
      StrLessIrreflexive(rows[i].refId);
    }
  }

  lemma {:induction false} SortedIsGrouped(rows: seq<Row>)
    requires SortedByRefStart(rows)
    ensures GroupedByRef(rows)
  {
    if rows != [] {
      var init, last := rows[..|rows| - 1], rows[|rows| - 1];
      assert SortedByRefStart(init) by {
        assert forall i :: 0 <= i < |init| ==> init[i] == rows[i];
      }
      SortedIsGrouped(init);
      if last.refId in RefIds(init) {
        RefIdsOccur(init, last.refId);
        var i :| 0 <= i < |init| && init[i].refId == last.refId;
        var j := |init| - 1;
        if rows[j].refId != last.refId {
          assert i < j && rows[i] == init[i];
          assert StrLess(rows[i].refId, rows[j].refId) && StrLess(rows[j].refId, last.refId);
          StrLessTransitive(rows[i].refId, rows[j].refId, last.refId);
          StrLessIrreflexive(last.refId);
        }
      }
    }
  }

  /** The genomes that occur in `rows`. */
  function RefIds(rows: seq<Row>): set<string>
  {
    if rows == [] then {} else RefIds(rows[..|rows| - 1]) + {rows[|rows| - 1].refId}
  }

  lemma {:induction false} RefIdsOccur(rows: seq<Row>, g: string)
    ensures g in RefIds(rows) <==> exists i :: 0 <= i < |rows| && rows[i].refId == g
  {
    if rows != [] {
      var init := rows[..|rows| - 1];
      RefIdsOccur(init, g);
      if g in RefIds(init) {
        var i :| 0 <= i < |init| && init[i].refId == g;
        assert rows[i].refId == g;
      }
      if exists i :: 0 <= i < |rows| && rows[i].refId == g {
        var i :| 0 <= i < |rows| && rows[i].refId == g;
        if i < |init| {
          assert init[i].refId == g;
        }
      }
    }
  }

  /** The state of the sweep: the coverage per genome (`refcov`) and `prev_e1`. */
  datatype SweepState = SweepState(refcov: map<string, int>, prevE1: int)

  /**
   `n` bases each weighted by the identity `idy`: the source's `n * IDY`,
   written as repeated addition so that proofs about the sweep stay linear.
   */
  function Weighted(n: int, idy: nat): int
  {
    if idy == 0 then 0 else Weighted(n, idy - 1) + n
  }

  lemma {:induction false} WeightedIsProduct(n: int, idy: nat)
    ensures Weighted(n, idy) == n * idy
  {
    if idy > 0 {
      WeightedIsProduct(n, idy - 1);
      assert n * idy == n * (idy - 1) + n;
    }
  }

  /** One iteration of the loop for `row`. */
  function Step(st: SweepState, row: Row): SweepState
  {
    if row.refId in st.refcov then
      if st.prevE1 >= row.e1 then st  // contained in the previous row: `continue`
      else if st.prevE1 >= row.s1 then
        SweepState(st.refcov[row.refId := st.refcov[row.refId] + Weighted(row.e1 - st.prevE1, row.idy)], row.e1)
      else
        SweepState(st.refcov[row.refId := st.refcov[row.refId] + Weighted(row.e1 - row.s1 + 1, row.idy)], row.e1)
    else
      SweepState(st.refcov[row.refId := Weighted(row.e1 - row.s1, row.idy) + 1], row.e1)
  }

  /** The state after the loop has consumed `rows`. */
  function Run(rows: seq<Row>): SweepState
  {
    if rows == [] then SweepState(map[], 0)
    else Step(Run(rows[..|rows| - 1]), rows[|rows| - 1])
  }

  /** The sweep has a coverage entry for exactly the genomes seen. */
  lemma {:induction false} RunKeys(rows: seq<Row>)
    ensures Run(rows).refcov.Keys == RefIds(rows)
  {
    if rows != [] {
      RunKeys(rows[..|rows| - 1]);
    }
  }

  /**
   `calc_genome_contig_cov_in_bases` over the rows the query returns. A row
   contained in the previous one is skipped with `continue`, so it does not
   update `prev_e1`.
   */
  method GenomeContigCoverage(rows: seq<Row>) returns (refcov: map<string, int>)
    ensures refcov == Run(rows).refcov
    ensures refcov.Keys == RefIds(rows)
  {
    refcov := map[];
    var prevE1 := 0;
    for i := 0 to |rows|
      invariant refcov == Run(rows[..i]).refcov && prevE1 == Run(rows[..i]).prevE1
    {
      var row := rows[i];
      ghost var next := Step(SweepState(refcov, prevE1), row);
      assert Run(rows[..i + 1]) == next by {
        assert rows[..i + 1][..i] == rows[..i];
      }
      if row.refId in refcov {
        if prevE1 >= row.e1 {
          continue;
        } else if prevE1 >= row.s1 {
          var gain := (row.e1 - prevE1) * row.idy;
          assert gain == Weighted(row.e1 - prevE1, row.idy) by {
            WeightedIsProduct(row.e1 - prevE1, row.idy);
          }
          assert next.refcov == refcov[row.refId := refcov[row.refId] + gain];
          refcov := refcov[row.refId := refcov[row.refId] + gain];
        } else {
          var gain := (row.e1 - row.s1 + 1) * row.idy;
          assert gain == Weighted(row.e1 - row.s1 + 1, row.idy) by {
            WeightedIsProduct(row.e1 - row.s1 + 1, row.idy);
          }
          assert next.refcov == refcov[row.refId := refcov[row.refId] + gain];
          refcov := refcov[row.refId := refcov[row.refId] + gain];
        }
      } else {
        var gain := (row.e1 - row.s1) * row.idy;
        assert gain == Weighted(row.e1 - row.s1, row.idy) by {
          WeightedIsProduct(row.e1 - row.s1, row.idy);
        }
        assert next.refcov == refcov[row.refId := gain + 1];
        refcov := refcov[row.refId := gain + 1];
      }
      prevE1 := row.e1;
      assert refcov == next.refcov && prevE1 == next.prevE1;
    }
    assert rows[..|rows|] == rows;
    RunKeys(rows);
  }

  /** The largest end position (E1) among the rows of genome `g`. */
  function GroupMaxEnd(rows: seq<Row>, g: string): int
    requires g in RefIds(rows)
  {
    var init := rows[..|rows| - 1];
    var last := rows[|rows| - 1];
    if g !in RefIds(init) then last.e1
    else if last.refId == g && last.e1 > GroupMaxEnd(init, g) then last.e1
    else GroupMaxEnd(init, g)
  }

  /** In grouped input, a row of an already seen genome belongs to the group of the last row. */
  lemma {:induction false} SameGroupAsLast(rows: seq<Row>, r: Row)
    requires GroupedByRef(rows + [r])
    requires r.refId in RefIds(rows)
    ensures rows != [] && r.refId == rows[|rows| - 1].refId
  {
    assert (rows + [r])[..|rows|] == rows;
  }

  /** `prev_e1` is the largest end among the rows of the current genome seen so far. */
  lemma {:induction false} PrevIsGroupMaxEnd(rows: seq<Row>)
    requires rows != [] && GroupedByRef(rows)
    ensures Run(rows).prevE1 == GroupMaxEnd(rows, rows[|rows| - 1].refId)
  {
    var init := rows[..|rows| - 1];
    var r := rows[|rows| - 1];
    assert rows == init + [r];
    RunKeys(init);
    if r.refId in RefIds(init) {
      SameGroupAsLast(init, r);
      PrevIsGroupMaxEnd(init);
    }
  }

  /**
   What one more row contributes, in terms of the rows before it: the first
   row of a genome sets its coverage, ignoring `prev_e1`; a row ending no
   later than an earlier row of its genome changes nothing; a row that
   overlaps the furthest-reaching earlier row adds the part beyond it; a row
   beyond all earlier ones adds its full length. Afterwards `prev_e1` is the
   largest end of the genome's rows.
   */
  lemma {:induction false} RowContribution(rows: seq<Row>, r: Row)
    requires GroupedByRef(rows + [r])
    ensures var before := Run(rows);
      var after := Run(rows + [r]);
      && (r.refId !in RefIds(rows) ==>
            after.refcov == before.refcov[r.refId := Weighted(r.e1 - r.s1, r.idy) + 1])
      && (r.refId in RefIds(rows) ==>
            var m := GroupMaxEnd(rows, r.refId);
            && (m >= r.e1 ==> after == before)
            && (r.s1 <= m < r.e1 ==>
                  after.refcov == before.refcov[r.refId := before.refcov[r.refId] + Weighted(r.e1 - m, r.idy)])
            && (m < r.s1 && m < r.e1 ==>
                  after.refcov == before.refcov[r.refId := before.refcov[r.refId] + Weighted(r.e1 - r.s1 + 1, r.idy)]))
      && after.prevE1 == GroupMaxEnd(rows + [r], r.refId)
  {
    var all := rows + [r];
    assert all[..|all| - 1] == rows;
    assert Run(all) == Step(Run(rows), r);
    RunKeys(rows);
    if r.refId in RefIds(rows) {
      SameGroupAsLast(rows, r);
      PrevIsGroupMaxEnd(rows);
      assert Run(rows).prevE1 == GroupMaxEnd(rows, r.refId);
    }
  }

  /** The reference positions `s..e`, both ends included. */
  function Span(s: int, e: int): (r: set<int>)
    ensures forall p :: p in r <==> s <= p <= e
    ensures |r| == if s <= e then e - s + 1 else 0
    decreases e - s
  {
    if s > e then {} else Span(s, e - 1) + {e}
  }

  /** The positions of genome `g` covered by at least one of `rows`. */
  function CoveredBy(rows: seq<Row>, g: string): set<int>
  {
    if rows == [] then {}
    else
      var last := rows[|rows| - 1];
      CoveredBy(rows[..|rows| - 1], g) + (if last.refId == g then Span(last.s1, last.e1) else {})
  }

  lemma {:induction false} CoveredByAbsent(rows: seq<Row>, g: string)
    requires g !in RefIds(rows)
    ensures CoveredBy(rows, g) == {}
  {
    if rows != [] {
      CoveredByAbsent(rows[..|rows| - 1], g);
    }
  }

  lemma {:induction false} CoveredBelowMaxEnd(rows: seq<Row>, g: string)
    requires g in RefIds(rows)
    ensures forall p :: p in CoveredBy(rows, g) ==> p <= GroupMaxEnd(rows, g)
  {
    var init := rows[..|rows| - 1];
    if g in RefIds(init) {
      CoveredBelowMaxEnd(init, g);
    } else {
      CoveredByAbsent(init, g);
    }
  }

  /** Some row of `g` reaches the maximal end, and its whole span is covered. */
  lemma {:induction false} MaxEndAttained(rows: seq<Row>, g: string) returns (j: nat)
    requires g in RefIds(rows)
    ensures j < |rows| && rows[j].refId == g && rows[j].e1 == GroupMaxEnd(rows, g)
    ensures Span(rows[j].s1, rows[j].e1) <= CoveredBy(rows, g)
  {
    var init := rows[..|rows| - 1];
    var last := rows[|rows| - 1];
    if g in RefIds(init) && !(last.refId == g && last.e1 > GroupMaxEnd(init, g)) {
      j := MaxEndAttained(init, g);
      assert rows[j] == init[j];
      assert CoveredBy(init, g) <= CoveredBy(rows, g);
    } else {
      j := |rows| - 1;
    }
  }


  /** A row's weight IDY is 1 and its span runs forwards. */
  predicate UnitWeights(rows: seq<Row>)
  {
    forall i :: 0 <= i < |rows| ==> rows[i].idy == 1
  }

  predicate ForwardSpans(rows: seq<Row>)
  {
    forall i :: 0 <= i < |rows| ==> rows[i].s1 <= rows[i].e1
  }

  /**
   The three formulas count exactly the positions a row adds to its genome's
   covered set, measured against the furthest end `m` of the earlier rows.
   */
  lemma {:induction false} NewPositions(rows: seq<Row>, r: Row)
    requires GroupedByRef(rows + [r]) && StartsAscending(rows + [r]) && r.s1 <= r.e1
    ensures var before := CoveredBy(rows, r.refId);
      var after := CoveredBy(rows + [r], r.refId);
      && (r.refId !in RefIds(rows) ==> |after| == r.e1 - r.s1 + 1)
      && (r.refId in RefIds(rows) ==>
            var m := GroupMaxEnd(rows, r.refId);
            && (m >= r.e1 ==> after == before)
            && (r.s1 <= m < r.e1 ==> |after| == |before| + (r.e1 - m))
            && (m < r.s1 ==> |after| == |before| + (r.e1 - r.s1 + 1)))
  {
    var all := rows + [r];
    assert all[..|all| - 1] == rows;
    var g := r.refId;
    var before := CoveredBy(rows, g);
    var after := CoveredBy(all, g);
    assert after == before + Span(r.s1, r.e1);
    if g !in RefIds(rows) {
      CoveredByAbsent(rows, g);
      assert after == Span(r.s1, r.e1);
    } else {
      var m := GroupMaxEnd(rows, g);
      CoveredBelowMaxEnd(rows, g);
      var j := MaxEndAttained(rows, g);
      assert all[j].refId == all[|rows|].refId;
      if m >= r.e1 {
        SpanContained(before, m, rows[j].s1, r.s1, r.e1);
      } else if r.s1 <= m {
        SpanOverlapping(before, m, rows[j].s1, r.s1, r.e1);
      } else {
        SpanBeyond(before, m, r.s1, r.e1);
      }
    }
  }

  /**
   Adding the span `s..e` to positions that already include `t..m`, with
   `t <= s` and `e <= m`, adds nothing.
   */
  lemma {:induction false} SpanContained(before: set<int>, m: int, t: int, s: int, e: int)
    requires Span(t, m) <= before && t <= s && e <= m
    ensures before + Span(s, e) == before
  {
    assert Span(s, e) <= Span(t, m);
  }

  /** Adding a span that overlaps position `m` to positions no further than `m` adds `m + 1..e`. */
  lemma {:induction false} SpanOverlapping(before: set<int>, m: int, t: int, s: int, e: int)
    requires forall p :: p in before ==> p <= m
    requires Span(t, m) <= before && t <= s <= m < e
    ensures |before + Span(s, e)| == |before| + (e - m)
  {
    SpanSplit(s, m, e);
    assert Span(s, m) <= before;
    UnionAbsorbs(before, Span(s, m), Span(m + 1, e));
    assert before * Span(m + 1, e) == {};
    DisjointUnionSize(before, Span(m + 1, e));
  }

  lemma {:induction false} SpanSplit(s: int, m: int, e: int)
    requires s <= m + 1 <= e + 1
    ensures Span(s, e) == Span(s, m) + Span(m + 1, e)
  {
  }

  lemma {:induction false} UnionAbsorbs(before: set<int>, a: set<int>, b: set<int>)
    requires a <= before
    ensures before + (a + b) == before + b
  {
  }

  lemma {:induction false} DisjointUnionSize(a: set<int>, b: set<int>)
    requires a * b == {}
    ensures |a + b| == |a| + |b|
  {
    assert |a * b| == 0;
  }

  /** Adding a span that starts beyond `m` to positions no further than `m` adds all of it. */
  lemma {:induction false} SpanBeyond(before: set<int>, m: int, s: int, e: int)
    requires forall p :: p in before ==> p <= m
    requires m < s <= e
    ensures |before + Span(s, e)| == |before| + (e - s + 1)
  {
    assert before * Span(s, e) == {};
  }

  /**
   With unit weights and rows in sweep order, every genome's coverage is the
   number of distinct positions in the union of its rows' spans [S1, E1]:
   covered bases are counted once.
   */
  lemma {:induction false} CoverageIsUnionSize(rows: seq<Row>)
    requires GroupedByRef(rows) && StartsAscending(rows)
    requires UnitWeights(rows) && ForwardSpans(rows)
    ensures forall g :: g in Run(rows).refcov ==> Run(rows).refcov[g] == |CoveredBy(rows, g)|
  {
    if rows != [] {
      var init := rows[..|rows| - 1];
      var r := rows[|rows| - 1];
      assert init + [r] == rows;
      assert forall i :: 0 <= i < |init| ==> init[i] == rows[i];
      CoverageIsUnionSize(init);
      forall g | g in Run(rows).refcov
        ensures Run(rows).refcov[g] == |CoveredBy(rows, g)|
      {
        if g == r.refId {
          UnitStep(init, r);
        } else {
          OtherGenomeUnchanged(init, r, g);
        }
      }
    }
  }

  /** A row changes neither the coverage nor the covered positions of another genome. */
  lemma {:induction false} OtherGenomeUnchanged(init: seq<Row>, r: Row, g: string)
    requires g != r.refId
    ensures g in Run(init + [r]).refcov <==> g in Run(init).refcov
    ensures g in Run(init).refcov ==> Run(init + [r]).refcov[g] == Run(init).refcov[g]
    ensures CoveredBy(init + [r], g) == CoveredBy(init, g)
  {
    assert (init + [r])[..|init|] == init;
  }

  /** With unit weight, one more row keeps its genome's coverage equal to the covered positions. */
  lemma {:induction false} UnitStep(init: seq<Row>, r: Row)
    requires GroupedByRef(init + [r]) && StartsAscending(init + [r]) && r.s1 <= r.e1 && r.idy == 1
    requires r.refId in Run(init).refcov ==> Run(init).refcov[r.refId] == |CoveredBy(init, r.refId)|
    ensures r.refId in Run(init + [r]).refcov
    ensures Run(init + [r]).refcov[r.refId] == |CoveredBy(init + [r], r.refId)|
  {
    var g := r.refId;
    RunKeys(init);
    RunKeys(init + [r]);
    assert g in RefIds(init + [r]) by {
      assert (init + [r])[..|init|] == init;
    }
    if g !in RefIds(init) {
      FirstRowGain(init, r);
      WeightedIsProduct(r.e1 - r.s1, 1);
    } else if GroupMaxEnd(init, g) >= r.e1 {
      assert Run(init + [r]) == Run(init) && CoveredBy(init + [r], g) == CoveredBy(init, g) by {
        RowContribution(init, r);
        NewPositions(init, r);
      }
    } else {
      var k := LaterRowGain(init, r);
      WeightedIsProduct(k, 1);
    }
  }

  lemma {:induction false} MulMonotone(a: nat, x: nat, y: nat)
    requires x <= y
    ensures a * x <= a * y
  {
  }

  lemma {:induction false} FirstRowBound(len: nat, total: nat, idy: nat, w: nat)
    requires idy <= w && 1 <= w && total == len + 1
    ensures Weighted(len, idy) + 1 <= Weighted(total, w)
  {
    WeightedIsProduct(len, idy);
    WeightedIsProduct(total, w);
    MulMonotone(len, idy, w);
    assert (len + 1) * w == len * w + w;
  }

  lemma {:induction false} AddedBound(c: int, n: nat, k: nat, total: nat, idy: nat, w: nat)
    requires c <= Weighted(n, w) && idy <= w && total == n + k
    ensures c + Weighted(k, idy) <= Weighted(total, w)
  {
    WeightedIsProduct(n, w);
    WeightedIsProduct(k, idy);
    WeightedIsProduct(total, w);
    MulMonotone(k, idy, w);
    assert (n + k) * w == n * w + k * w;
  }

  /**
   With every IDY at most `w` (at least 1), a genome's coverage is at most
   `w` times the number of distinct positions its rows cover.
   */
  lemma {:induction false} CoverageAtMostWeightedUnion(rows: seq<Row>, w: nat)
    requires GroupedByRef(rows) && StartsAscending(rows) && ForwardSpans(rows)
    requires w >= 1 && forall i :: 0 <= i < |rows| ==> rows[i].idy <= w
    ensures forall g :: g in Run(rows).refcov ==> Run(rows).refcov[g] <= Weighted(|CoveredBy(rows, g)|, w)
  {
    if rows != [] {
      var init := rows[..|rows| - 1];
      var r := rows[|rows| - 1];
      assert rows == init + [r];
      assert forall i :: 0 <= i < |init| ==> init[i] == rows[i];
      CoverageAtMostWeightedUnion(init, w);
      forall g | g in Run(rows).refcov
        ensures Run(rows).refcov[g] <= Weighted(|CoveredBy(rows, g)|, w)
      {
        if g != r.refId {
          OtherGenomeUnchanged(init, r, g);
        } else {
          WeightedStep(init, r, w);
        }
      }
    }
  }

  /** The first row of a genome: coverage `(E1 - S1) * IDY + 1` over `E1 - S1 + 1` positions. */
  lemma {:induction false} FirstRowGain(init: seq<Row>, r: Row)
    requires GroupedByRef(init + [r]) && StartsAscending(init + [r]) && r.s1 <= r.e1
    requires r.refId !in RefIds(init)
    ensures Run(init + [r]).refcov[r.refId] == Weighted(r.e1 - r.s1, r.idy) + 1
    ensures |CoveredBy(init + [r], r.refId)| == (r.e1 - r.s1) + 1
  {
    RowContribution(init, r);
    NewPositions(init, r);
  }

  /** A later row reaching beyond the earlier ones: `k` new positions, each weighted by IDY. */
  lemma {:induction false} LaterRowGain(init: seq<Row>, r: Row) returns (k: nat)
    requires GroupedByRef(init + [r]) && StartsAscending(init + [r]) && r.s1 <= r.e1
    requires r.refId in RefIds(init) && GroupMaxEnd(init, r.refId) < r.e1
    ensures Run(init + [r]).refcov[r.refId] == Run(init).refcov[r.refId] + Weighted(k, r.idy)
    ensures |CoveredBy(init + [r], r.refId)| == |CoveredBy(init, r.refId)| + k
  {
    var g, m := r.refId, GroupMaxEnd(init, r.refId);
    k := if r.s1 <= m then r.e1 - m else r.e1 - r.s1 + 1;
    assert Run(init + [r]).refcov[g] == Run(init).refcov[g] + Weighted(k, r.idy) by {
      RowContribution(init, r);
    }
    assert |CoveredBy(init + [r], g)| == |CoveredBy(init, g)| + k by {
      NewPositions(init, r);
    }
  }

  lemma {:induction false} WeightedStep(init: seq<Row>, r: Row, w: nat)
    requires GroupedByRef(init + [r]) && StartsAscending(init + [r]) && r.s1 <= r.e1
    requires 1 <= w && r.idy <= w
    requires r.refId in Run(init).refcov ==> Run(init).refcov[r.refId] <= Weighted(|CoveredBy(init, r.refId)|, w)
    ensures r.refId in Run(init + [r]).refcov
    ensures Run(init + [r]).refcov[r.refId] <= Weighted(|CoveredBy(init + [r], r.refId)|, w)
  {
    var g := r.refId;
    RunKeys(init);
    RunKeys(init + [r]);
    assert g in RefIds(init + [r]) by {
      assert (init + [r])[..|init|] == init;
    }
    if g !in RefIds(init) {
      FirstRowGain(init, r);
      FirstRowBound(r.e1 - r.s1, |CoveredBy(init + [r], g)|, r.idy, w);
    } else if GroupMaxEnd(init, g) >= r.e1 {
      assert Run(init + [r]) == Run(init) && CoveredBy(init + [r], g) == CoveredBy(init, g) by {
        RowContribution(init, r);
        NewPositions(init, r);
      }
    } else {
      var k := LaterRowGain(init, r);
      AddedBound(Run(init).refcov[g], |CoveredBy(init, g)|, k, |CoveredBy(init + [r], g)|, r.idy, w);
    }
  }

  /** Positions covered by rows of `g` that all lie within `1..len`. */
  lemma {:induction false} CoveredWithin(rows: seq<Row>, g: string, len: int)
    requires forall i :: 0 <= i < |rows| && rows[i].refId == g ==> 1 <= rows[i].s1 && rows[i].e1 <= len
    ensures CoveredBy(rows, g) <= Span(1, len)
  {
    if rows != [] {
      CoveredWithin(rows[..|rows| - 1], g, len);
    }
  }

  /**
   The bound on genome coverage: when every row of genome `g` lies within
   `1..LENR` and every IDY is at most `w`, the coverage of `g` is at most
   `w * LENR`. With unit weights it never exceeds the genome's length; with
   IDY a percentage (`w` = 100) the sweep's unit is a base times a percent.
   */
  lemma {:induction false} CoverageWithinGenome(rows: seq<Row>, g: string, len: nat, w: nat)
    requires GroupedByRef(rows) && StartsAscending(rows) && ForwardSpans(rows)
    requires w >= 1 && forall i :: 0 <= i < |rows| ==> rows[i].idy <= w
    requires forall i :: 0 <= i < |rows| && rows[i].refId == g ==> 1 <= rows[i].s1 && rows[i].e1 <= rows[i].lenr == len
    requires g in Run(rows).refcov
    ensures Run(rows).refcov[g] <= w * len
  {
    CoverageAtMostWeightedUnion(rows, w);
    CoveredWithin(rows, g, len);
    var c, all := CoveredBy(rows, g), Span(1, len);
    assert all == c + (all - c) && c * (all - c) == {};
    WeightedIsProduct(|c|, w);
    MulMonotone(w, |c|, len);
  }

  /**
   The sweep over the query's rows: for any selection of maximal-purity rows
   in (REFID, S1) order, with unit weights every genome's coverage is the
   size of the union of its selected spans.
   */
  lemma {:induction false} PurestCoverageIsUnionSize(rows: seq<Row>, sel: seq<Row>)
    requires IsPurestSelection(rows, sel)
    requires UnitWeights(rows) && ForwardSpans(rows)
    ensures Run(sel).refcov.Keys == RefIds(sel)
    ensures forall g :: g in Run(sel).refcov ==> Run(sel).refcov[g] == |CoveredBy(sel, g)|
  {
    SortedIsSweepOrder(sel);
    forall i | 0 <= i < |sel|
      ensures sel[i].idy == 1 && sel[i].s1 <= sel[i].e1
    {
      assert sel[i] in multiset(rows);
      var k :| 0 <= k < |rows| && rows[k] == sel[i];
    }
    RunKeys(sel);
    CoverageIsUnionSize(sel);
  }
}
