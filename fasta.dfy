/**
 FASTA records as the renaming scripts see them: an accession and a
 sequence, taken in file order. Both scripts keep a record when its sequence
 is at least as long as a cutoff.
 */
module Fasta {

  datatype Record = Record(id: string, sequence: string)

  /** The records whose sequence length reaches `cutoff`, in input order. */
  function Passing(records: seq<Record>, cutoff: int): (r: seq<Record>)
    ensures |r| <= |records|
    ensures forall i :: 0 <= i < |r| ==> |r[i].sequence| >= cutoff
  {
    if records == [] then []
    else
      var rest := Passing(records[..|records| - 1], cutoff);
      var last := records[|records| - 1];
      if |last.sequence| >= cutoff then rest + [last] else rest
  }

  /** Reading one more record keeps it exactly when it reaches the cutoff. */
  lemma {:induction false} PassingSnoc(records: seq<Record>, x: Record, cutoff: int)
    ensures Passing(records + [x], cutoff)
      == if |x.sequence| >= cutoff then Passing(records, cutoff) + [x] else Passing(records, cutoff)
  {
    assert (records + [x])[..|records|] == records;
  }

  /** Reading one more element after `before`. */
  lemma {:induction false} PrefixStep<T>(before: seq<T>, xs: seq<T>, k: nat)
    requires k < |xs|
    ensures before + xs[..k + 1] == (before + xs[..k]) + [xs[k]]
  {
    assert xs[..k + 1] == xs[..k] + [xs[k]];
  }

  /** Each record occurs among the kept ones as often as in the input if it reaches the cutoff, else never. */
  lemma {:induction false} PassingCounts(records: seq<Record>, cutoff: int, x: Record)
    ensures multiset(Passing(records, cutoff))[x] == if |x.sequence| >= cutoff then multiset(records)[x] else 0
  {
    if records != [] {
      var init := records[..|records| - 1];
      PassingCounts(init, cutoff, x);
      assert records == init + [records[|records| - 1]];
    }
  }

  /** `a` is `b` with some elements removed, order kept. */
  predicate IsSubsequence<T(==)>(a: seq<T>, b: seq<T>)
  {
    if a == [] then true
    else if b == [] then false
    else if a[|a| - 1] == b[|b| - 1] then IsSubsequence(a[..|a| - 1], b[..|b| - 1])
    else IsSubsequence(a, b[..|b| - 1])
  }

  lemma {:induction false} PassingKeepsOrder(records: seq<Record>, cutoff: int)
    ensures IsSubsequence(Passing(records, cutoff), records)
  {
    if records != [] {
      var init := records[..|records| - 1];
      PassingKeepsOrder(init, cutoff);
      var last := records[|records| - 1];
      if |last.sequence| < cutoff {
        SubsequenceOfLonger(Passing(init, cutoff), init, last);
      } else {
        var p := Passing(records, cutoff);
        assert p[..|p| - 1] == Passing(init, cutoff);
      }
    }
  }

  lemma {:induction false} SubsequenceOfLonger<T>(a: seq<T>, b: seq<T>, x: T)
    requires IsSubsequence(a, b)
    ensures IsSubsequence(a, b + [x])
    decreases |a| + |b| + 1
  {
    assert (b + [x])[..|b|] == b;
    if a != [] && a[|a| - 1] == x {
      SubsequenceDropLast(a, b);
    }
  }

  lemma {:induction false} SubsequenceDropLast<T>(a: seq<T>, b: seq<T>)
    requires a != [] && IsSubsequence(a, b)
    ensures IsSubsequence(a[..|a| - 1], b)
    decreases |a| + |b|
  {
    var a', b' := a[..|a| - 1], b[..|b| - 1];
    if a[|a| - 1] != b[|b| - 1] {
      SubsequenceDropLast(a, b');
    }
    SubsequenceOfLonger(a', b', b[|b| - 1]);
    assert b' + [b[|b| - 1]] == b;
  }

  /** With a cutoff no sequence falls below (the default 0), every record is kept. */
  lemma {:induction false} PassingAllWhenCutoffNonPositive(records: seq<Record>, cutoff: int)
    requires cutoff <= 0
    ensures Passing(records, cutoff) == records
  {
    if records != [] {
      PassingAllWhenCutoffNonPositive(records[..|records| - 1], cutoff);
      assert records[..|records| - 1] + [records[|records| - 1]] == records;
    }
  }

  /** Filtering a concatenation filters each part. */
  lemma {:induction false} PassingAppend(a: seq<Record>, b: seq<Record>, cutoff: int)
    ensures Passing(a + b, cutoff) == Passing(a, cutoff) + Passing(b, cutoff)
  {
    if b != [] {
      var b' := b[..|b| - 1];
      assert (a + b)[..|a + b| - 1] == a + b';
      PassingAppend(a, b', cutoff);
    } else {
      assert a + b == a;
    }
  }

  /** All files' records, one file after another. */
  function Concat(files: seq<seq<Record>>): (r: seq<Record>)
    ensures files == [] ==> r == []
  {
    if files == [] then [] else Concat(files[..|files| - 1]) + files[|files| - 1]
  }
}
