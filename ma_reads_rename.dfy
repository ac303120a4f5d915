/**
 `ma-reads-rename.py`: renames the records of all FASTA files given on the
 command line to `>n id`, keeping records of length at least 200 and counting
 1, 2, ... across all files with one counter.
 */
module MaReadsRename {
  import opened Decimal
  import opened Fasta

  /** The script's fixed length cutoff (`CUTOFF`). */
  const MinLength := 200

  /** The header line printed for the `n`-th kept record. */
  function Header(n: nat, id: string): string
  {
    ">" + Digits(n) + " " + id
  }

  /** The lines printed for the kept records `recs`, numbered from 1: header, then sequence. */
  function Numbered(recs: seq<Record>): (lines: seq<string>)
    ensures |lines| == 2 * |recs|
  {
    if recs == [] then []
    else
      var last := recs[|recs| - 1];
      Numbered(recs[..|recs| - 1]) + [Header(|recs|, last.id), last.sequence]
  }

  /** Keeping one more record prints its header, numbered one past the others, and its sequence. */
  lemma {:induction false} NumberedSnoc(recs: seq<Record>, x: Record)
    ensures Numbered(recs + [x]) == Numbered(recs) + [Header(|recs| + 1, x.id), x.sequence]
  {
    assert (recs + [x])[..|recs|] == recs;
  }

  /** The `k`-th kept record is printed as lines `2k` and `2k + 1` and carries number `k + 1`. */
  lemma {:induction false} NumberedAt(recs: seq<Record>, k: nat)
    requires k < |recs|
    ensures Numbered(recs)[2 * k] == Header(k + 1, recs[k].id)
    ensures Numbered(recs)[2 * k + 1] == recs[k].sequence
  {
    if k < |recs| - 1 {
      NumberedAt(recs[..|recs| - 1], k);
    }
  }

  /** A header gives back its number: the digits after `>`. */
  lemma {:induction false} HeaderNumber(n: nat, id: string)
    ensures |Header(n, id)| >= 1 && Header(n, id)[0] == '>'
    ensures ValueOf(LeadingDigits(Header(n, id)[1..])) == n
  {
    assert Header(n, id)[1..] == Digits(n) + (" " + id);
    LeadingDigitsOfNumeral(Digits(n), " " + id);
    ValueOfDigits(n);
  }

  /** Over the whole run the new names are all different. */
  lemma {:induction false} NumberedHeadersDistinct(recs: seq<Record>, i: nat, j: nat)
    requires i < j < |recs|
    ensures Numbered(recs)[2 * i] != Numbered(recs)[2 * j]
  {
    HeadersDiffer(i + 1, recs[i].id, j + 1, recs[j].id);
    NumberedAt(recs, i);
    NumberedAt(recs, j);
  }

  /** Headers with different numbers are different lines, whatever the ids. */
  lemma {:induction false} HeadersDiffer(a: nat, ida: string, b: nat, idb: string)
    requires a != b
    ensures Header(a, ida) != Header(b, idb)
  {
    HeaderNumber(a, ida);
    HeaderNumber(b, idb);
  }

  /**
   The whole script: for every file in argument order, for every record, print
   the kept ones under the running number; exit with status 1 when none was kept.
   */
  method MultiRename(files: seq<seq<Record>>) returns (out: seq<string>, status: int)
    ensures out == Numbered(Passing(Concat(files), MinLength))
    ensures status == 1 <==> Passing(Concat(files), MinLength) == []
    ensures status == 0 || status == 1
  {
    var n := 0;
    out := [];
    for i := 0 to |files|
      invariant n == |Passing(Concat(files[..i]), MinLength)|
      invariant out == Numbered(Passing(Concat(files[..i]), MinLength))
    {
      n, out := RenameFile(files[i], n, out, Concat(files[..i]));
      assert Concat(files[..i]) + files[i] == Concat(files[..i + 1]) by {
        assert files[..i + 1][..i] == files[..i];
      }
    }
    assert files[..|files|] == files;
    status := if n == 0 then 1 else 0;
  }

  /**
   The inner loop over one file's records, continuing the numbering after the
   records `before` read from earlier files.
   */
  method RenameFile(records: seq<Record>, n0: int, out0: seq<string>, ghost before: seq<Record>)
    returns (n: int, out: seq<string>)
    requires n0 == |Passing(before, MinLength)| && out0 == Numbered(Passing(before, MinLength))
    ensures n == |Passing(before + records, MinLength)|
    ensures out == Numbered(Passing(before + records, MinLength))
  {
    n, out := n0, out0;
    assert before + records[..0] == before;
    for k := 0 to |records|
      invariant n == |Passing(before + records[..k], MinLength)|
      invariant out == Numbered(Passing(before + records[..k], MinLength))
    {
      var record := records[k];
      ghost var read := before + records[..k];
      ghost var kept := Passing(read, MinLength);
      assert Passing(before + records[..k + 1], MinLength)
        == if |record.sequence| >= MinLength then kept + [record] else kept by {
        PrefixStep(before, records, k);
        PassingSnoc(read, record, MinLength);
      }
      if |record.sequence| >= MinLength {
        n := n + 1;
        var header := ">" + Digits(n) + " " + record.id;
        assert header == Header(|kept| + 1, record.id);
        out := out + [header, record.sequence];
        assert out == Numbered(kept + [record]) by {
          NumberedSnoc(kept, record);
        }
      }
    }
    assert records[..|records|] == records;
  }

  lemma {:induction false} ConcatAppend(a: seq<seq<Record>>, b: seq<seq<Record>>)
    ensures Concat(a + b) == Concat(a) + Concat(b)
  {
    if b == [] {
      assert a + b == a;
    } else {
      var b' := b[..|b| - 1];
      assert (a + b)[..|a + b| - 1] == a + b';
      ConcatAppend(a, b');
    }
  }

  /**
   Numbers continue across files: the `k`-th kept record of file `j` carries
   the number of kept records in the earlier files plus `k + 1`.
   */
  lemma {:induction false} NumbersContinueAcrossFiles(files: seq<seq<Record>>, j: nat, k: nat)
    requires j < |files|
    requires k < |Passing(files[j], MinLength)|
    ensures var earlier := |Passing(Concat(files[..j]), MinLength)|;
      && 2 * (earlier + k) < |Numbered(Passing(Concat(files), MinLength))|
      && Numbered(Passing(Concat(files), MinLength))[2 * (earlier + k)]
         == Header(earlier + k + 1, Passing(files[j], MinLength)[k].id)
  {
    var a, b, c := files[..j], [files[j]], files[j + 1..];
    assert files == a + b + c;
    ConcatAppend(a + b, c);
    ConcatAppend(a, b);
    assert Concat(b) == files[j] by {
      assert b[..0] == [];
    }
    var pa, pj, pc := Passing(Concat(a), MinLength), Passing(files[j], MinLength), Passing(Concat(c), MinLength);
    PassingAppend(Concat(a) + files[j], Concat(c), MinLength);
    PassingAppend(Concat(a), files[j], MinLength);
    var all := Passing(Concat(files), MinLength);
    assert all == (pa + pj) + pc;
    assert (pa + pj)[|pa| + k] == pj[k];
    assert all[|pa| + k] == pj[k];
    NumberedAt(all, |pa| + k);
  }
}
