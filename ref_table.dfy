/**
 The reference-statistics side of `coords-stats.py`: `readtable`, which reads
 a whitespace-separated table into a two-level map, and the part of `main`
 that gives every genome of that table a coverage (0 when no contig covers
 it) and adds up coverages and genome lengths.
 */
module RefTable {
  import opened Wrappers
  import opened Decimal

  /** The characters Python 2's `str.split()` separates on. */
  predicate IsSpace(c: char)
  {
    c == ' ' || c == '\t' || c == '\n' || c == '\r' || c as int == 11 || c as int == 12
  }

  predicate NoSpace(s: string)
  {
    forall i :: 0 <= i < |s| ==> !IsSpace(s[i])
  }

  /** The characters of `s` that are not whitespace, in order. */
  function NonSpace(s: string): string
  {
    if s == [] then [] else (if IsSpace(s[0]) then [] else [s[0]]) + NonSpace(s[1..])
  }

  lemma {:induction false} NonSpaceAppend(a: string, b: string)
    ensures NonSpace(a + b) == NonSpace(a) + NonSpace(b)
  {
    if a != [] {
      assert (a + b)[1..] == a[1..] + b;
      NonSpaceAppend(a[1..], b);
    } else {
      assert a + b == b;
    }
  }

  lemma {:induction false} NonSpaceOfWord(w: string)
    requires NoSpace(w)
    ensures NonSpace(w) == w
  {
    if w != [] {
      NonSpaceOfWord(w[1..]);
    }
  }

  /** The length of the leading run of non-whitespace characters. */
  function WordLength(s: string): (n: nat)
    ensures n <= |s| && NoSpace(s[..n])
    ensures n < |s| ==> IsSpace(s[n])
  {
    if s == [] || IsSpace(s[0]) then 0
    else
      var n := 1 + WordLength(s[1..]);
      assert s[..n] == [s[0]] + s[1..][..n - 1];
      n
  }

  function Flatten(ts: seq<string>): string
  {
    if ts == [] then [] else ts[0] + Flatten(ts[1..])
  }

  /**
   `line.split()`: the maximal runs of non-whitespace characters. The tokens
   are non-empty, hold no whitespace, and together are the line's
   non-whitespace characters.
   */
  function Split(line: string): (tokens: seq<string>)
    ensures forall i :: 0 <= i < |tokens| ==> tokens[i] != [] && NoSpace(tokens[i])
    ensures Flatten(tokens) == NonSpace(line)
    decreases |line|
  {
    if line == [] then []
    else if IsSpace(line[0]) then Split(line[1..])
    else
      var n := WordLength(line);
      var rest := Split(line[n..]);
      assert line == line[..n] + line[n..];
      NonSpaceAppend(line[..n], line[n..]);
      NonSpaceOfWord(line[..n]);
      [line[..n]] + rest
  }

  /** Tokens written out with one space between them. */
  function Join(ts: seq<string>): string
  {
    if ts == [] then "" else if |ts| == 1 then ts[0] else ts[0] + " " + Join(ts[1..])
  }

  lemma {:induction false} WordLengthOfWord(w: string, rest: string)
    requires NoSpace(w)
    requires rest == [] || IsSpace(rest[0])
    ensures WordLength(w + rest) == |w|
  {
    if w != [] {
      assert (w + rest)[1..] == w[1..] + rest;
      WordLengthOfWord(w[1..], rest);
    } else {
      assert w + rest == rest;
    }
  }

  /** Splitting undoes joining: tokens separated by spaces are read back as they were. */
  lemma {:induction false} SplitJoin(ts: seq<string>)
    requires forall i :: 0 <= i < |ts| ==> ts[i] != [] && NoSpace(ts[i])
    ensures Split(Join(ts)) == ts
  {
    if ts != [] {
      var line := Join(ts);
      var rest: string := if |ts| == 1 then "" else " " + Join(ts[1..]);
      assert line == ts[0] + rest;
      WordLengthOfWord(ts[0], rest);
      assert line[..|ts[0]|] == ts[0] && line[|ts[0]|..] == rest;
      if |ts| > 1 {
        assert rest[1..] == Join(ts[1..]);
        SplitJoin(ts[1..]);
      }
      assert ts == [ts[0]] + ts[1..];
    }
  }

  predicate AllSpace(s: string)
  {
    forall i :: 0 <= i < |s| ==> IsSpace(s[i])
  }

  /**
   A line laid out as whitespace runs `seps` around tokens `ts`:
   `seps[0] + ts[0] + seps[1] + ... + ts[n - 1] + seps[n]`.
   */
  function Interleave(seps: seq<string>, ts: seq<string>): string
    requires |seps| == |ts| + 1
  {
    if ts == [] then seps[0] else seps[0] + (ts[0] + Interleave(seps[1..], ts[1..]))
  }

  /** Leading whitespace, of any kind and length, is skipped. */
  lemma {:induction false} SplitLeadingSpace(sp: string, rest: string)
    requires AllSpace(sp)
    ensures Split(sp + rest) == Split(rest)
  {
    if sp == [] {
      assert sp + rest == rest;
    } else {
      assert (sp + rest)[1..] == sp[1..] + rest;
      SplitLeadingSpace(sp[1..], rest);
    }
  }

  /** A whitespace-free word ended by whitespace or the end of the line is one token. */
  lemma {:induction false} SplitWord(t: string, rest: string)
    requires t != [] && NoSpace(t)
    requires rest == [] || IsSpace(rest[0])
    ensures Split(t + rest) == [t] + Split(rest)
  {
    var line := t + rest;
    WordLengthOfWord(t, rest);
    assert line[..|t|] == t && line[|t|..] == rest;
  }

  /**
   `split()` on any line: whitespace runs of any kind and length (tabs
   included) separate the tokens, and leading or trailing whitespace yields
   no token. Each token is a maximal run of non-whitespace characters.
   */
  lemma {:induction false} SplitInterleave(seps: seq<string>, ts: seq<string>)
    requires |seps| == |ts| + 1
    requires forall i :: 0 <= i < |seps| ==> AllSpace(seps[i])
    requires forall i :: 0 < i < |ts| ==> seps[i] != []
    requires forall i :: 0 <= i < |ts| ==> ts[i] != [] && NoSpace(ts[i])
    ensures Split(Interleave(seps, ts)) == ts
  {
    if ts == [] {
      assert seps[0] + [] == seps[0];
      SplitLeadingSpace(seps[0], []);
    } else {
      var rest := Interleave(seps[1..], ts[1..]);
      assert forall i :: 0 <= i < |seps| - 1 ==> seps[1..][i] == seps[i + 1];
      assert forall i :: 0 <= i < |ts| - 1 ==> ts[1..][i] == ts[i + 1];
      SplitInterleave(seps[1..], ts[1..]);
      assert rest == [] || IsSpace(rest[0]) by {
        if |ts| > 1 {
          assert rest == seps[1] + (ts[1] + Interleave(seps[2..], ts[2..])) by {
            assert seps[1..][0] == seps[1] && seps[1..][1..] == seps[2..];
            assert ts[1..][0] == ts[1] && ts[1..][1..] == ts[2..];
          }
          assert rest[0] == seps[1][0];
        } else {
          assert rest == seps[1];
        }
      }
      SplitLeadingSpace(seps[0], ts[0] + rest);
      SplitWord(ts[0], rest);
      assert ts == [ts[0]] + ts[1..];
    }
  }

  /** The two-level table: genome -> column name -> field text. */
  type Table = map<string, map<string, string>>

  /**
   Why `readtable` fails, by 1-based line number of the file: a blank data
   line (`splits[0]`) or a data line whose fields after the first outnumber
   the header's names (`cols[i - 1]`); both raise IndexError.
   */
  datatype TableError = BlankLine(line: nat) | TooManyFields(line: nat)

  /** The inner map of one data line: header name `i - 1` to field `i`, later names winning. */
  function RowFields(cols: seq<string>, fields: seq<string>): map<string, string>
    requires 1 <= |fields| <= |cols| + 1
  {
    if |fields| == 1 then map[]
    else RowFields(cols, fields[..|fields| - 1])[cols[|fields| - 2] := fields[|fields| - 1]]
  }

  /** A data line that `readtable` accepts. */
  predicate WellSized(cols: seq<string>, fields: seq<string>)
  {
    1 <= |fields| <= |cols| + 1
  }

  /** The table built from the split data lines `rows`, or the first line that breaks it. */
  function TableOf(cols: seq<string>, rows: seq<seq<string>>): Result<Table, TableError>
  {
    if rows == [] then Ok(map[])
    else
      match TableOf(cols, rows[..|rows| - 1])
      case Err(e) => Err(e)
      case Ok(t) =>
        var fields := rows[|rows| - 1];
        if |fields| == 0 then Err(BlankLine(|rows| + 1))
        else if |fields| > |cols| + 1 then Err(TooManyFields(|rows| + 1))
        else Ok(t[fields[0] := RowFields(cols, fields)])
  }

  /** The header's names and each data line's fields, as `readtable` splits them. */
  function Header(lines: seq<string>): seq<string>
  {
    if lines == [] then [] else Split(lines[0])
  }

  function DataRows(lines: seq<string>): (rows: seq<seq<string>>)
    ensures |rows| == if lines == [] then 0 else |lines| - 1
  {
    if |lines| <= 1 then [] else seq(|lines| - 1, i requires 0 <= i < |lines| - 1 => Split(lines[i + 1]))
  }

  /**
   `readtable` on the lines of a file: the header line gives the column
   names; every further line is split and stored under its first field,
   replacing whatever an earlier line with the same first field stored.
   */
  method ReadTable(lines: seq<string>) returns (r: Result<Table, TableError>)
    ensures r == TableOf(Header(lines), DataRows(lines))
  {
    var cols := if lines == [] then [] else Split(lines[0]);
    var rows := DataRows(lines);
    var table2d: Table := map[];
    for k := 0 to |rows|
      invariant TableOf(cols, rows[..k]) == Ok(table2d)
    {
      var fields := Split(lines[k + 1]);
      assert fields == rows[k];
      TableOfStep(cols, rows, k, table2d);
      if |fields| == 0 {
        FirstErrorStands(cols, rows, k + 1);
        return Err(BlankLine(k + 2));
      }
      var row := ReadRow(cols, fields);
      if row.None? {
        FirstErrorStands(cols, rows, k + 1);
        return Err(TooManyFields(k + 2));
      }
      table2d := table2d[fields[0] := row.value];
    }
    assert rows[..|rows|] == rows;
    r := Ok(table2d);
  }

  /**
   The inner loop of `readtable` for one data line: field `i` is stored under
   column name `i - 1`; `None` when the line has a field beyond the last name.
   */
  method ReadRow(cols: seq<string>, fields: seq<string>) returns (row: Option<map<string, string>>)
    requires |fields| >= 1
    ensures row.Some? <==> WellSized(cols, fields)
    ensures row.Some? ==> row.value == RowFields(cols, fields)
  {
    var inner: map<string, string> := map[];
    for i := 1 to |fields|
      invariant i <= |cols| + 1
      invariant inner == RowFields(cols, fields[..i])
    {
      if i - 1 >= |cols| {
        return None;
      }
      assert fields[..i + 1][..i] == fields[..i];
      inner := inner[cols[i - 1] := fields[i]];
    }
    assert fields[..|fields|] == fields;
    return Some(inner);
  }

  /** One more data line: it fails the table, or is stored under its first field. */
  lemma {:induction false} TableOfStep(cols: seq<string>, rows: seq<seq<string>>, k: nat, t: Table)
    requires k < |rows| && TableOf(cols, rows[..k]) == Ok(t)
    ensures TableOf(cols, rows[..k + 1])
      == if |rows[k]| == 0 then Err(BlankLine(k + 2))
         else if |rows[k]| > |cols| + 1 then Err(TooManyFields(k + 2))
         else Ok(t[rows[k][0] := RowFields(cols, rows[k])])
  {
    assert rows[..k + 1][..k] == rows[..k];
  }

  /** Reading stops at the first bad line: later lines do not change the outcome. */
  lemma {:induction false} FirstErrorStands(cols: seq<string>, rows: seq<seq<string>>, n: nat)
    requires n <= |rows| && TableOf(cols, rows[..n]).Err?
    ensures TableOf(cols, rows) == TableOf(cols, rows[..n])
    decreases |rows|
  {
    if n < |rows| {
      var init := rows[..|rows| - 1];
      assert init[..n] == rows[..n];
      FirstErrorStands(cols, init, n);
    } else {
      assert rows[..n] == rows;
    }
  }

  /** `readtable` succeeds exactly when every data line has a first field and no surplus field. */
  lemma {:induction false} TableOfSucceeds(cols: seq<string>, rows: seq<seq<string>>)
    ensures TableOf(cols, rows).Ok? <==> forall i :: 0 <= i < |rows| ==> WellSized(cols, rows[i])
  {
    if rows != [] {
      var init := rows[..|rows| - 1];
      TableOfSucceeds(cols, init);
      assert forall i :: 0 <= i < |init| ==> init[i] == rows[i];
    }
  }

  /** On success the table's keys are exactly the first fields of the data lines. */
  lemma {:induction false} TableOfKeys(cols: seq<string>, rows: seq<seq<string>>, t: Table)
    requires TableOf(cols, rows) == Ok(t)
    requires forall i :: 0 <= i < |rows| ==> 1 <= |rows[i]| <= |cols| + 1
    ensures forall k :: k in t <==> exists i :: 0 <= i < |rows| && rows[i][0] == k
  {
    if rows != [] {
      var init := rows[..|rows| - 1];
      var last := rows[|rows| - 1];
      var t0 := TableOf(cols, init).value;
      TableOfKeys(cols, init, t0);
      assert t.Keys == t0.Keys + {last[0]};
      forall k
        ensures k in t <==> exists i :: 0 <= i < |rows| && rows[i][0] == k
      {
        if k in t0 {
          var i :| 0 <= i < |init| && init[i][0] == k;
          assert rows[i] == init[i];
        }
        if exists i :: 0 <= i < |rows| && rows[i][0] == k {
          var i :| 0 <= i < |rows| && rows[i][0] == k;
          if i < |init| {
            assert init[i] == rows[i];
          }
        }
      }
    }
  }

  /**
   On success a data line whose first field no later line repeats is what the
   table holds under that field: later lines with the same first field win.
   */
  lemma {:induction false} TableOfLastWins(cols: seq<string>, rows: seq<seq<string>>, t: Table, i: nat)
    requires TableOf(cols, rows) == Ok(t)
    requires forall j :: 0 <= j < |rows| ==> 1 <= |rows[j]| <= |cols| + 1
    requires i < |rows| && forall j :: i < j < |rows| ==> rows[j][0] != rows[i][0]
    ensures rows[i][0] in t && t[rows[i][0]] == RowFields(cols, rows[i])
  {
    var init := rows[..|rows| - 1];
    var last := rows[|rows| - 1];
    var t0 := TableOf(cols, init).value;
    assert t == t0[last[0] := RowFields(cols, last)];
    if i < |init| {
      assert init[i] == rows[i];
      assert forall j :: 0 <= j < |init| ==> init[j] == rows[j];
      TableOfLastWins(cols, init, t0, i);
    }
  }

  /** With distinct column names, field `i` of a line is stored under column name `i - 1`. */
  lemma {:induction false} RowFieldsAt(cols: seq<string>, fields: seq<string>, i: nat)
    requires WellSized(cols, fields)
    requires forall a, b :: 0 <= a < b < |cols| ==> cols[a] != cols[b]
    requires 1 <= i < |fields|
    ensures cols[i - 1] in RowFields(cols, fields)
    ensures RowFields(cols, fields)[cols[i - 1]] == fields[i]
  {
    if i < |fields| - 1 {
      RowFieldsAt(cols, fields[..|fields| - 1], i);
    }
  }

  /** `RowFields` has exactly the column names of the fields after the first. */
  lemma {:induction false} RowFieldsKeys(cols: seq<string>, fields: seq<string>)
    requires WellSized(cols, fields)
    ensures RowFields(cols, fields).Keys == set i | 0 <= i < |fields| - 1 :: cols[i]
  {
    if |fields| > 1 {
      RowFieldsKeys(cols, fields[..|fields| - 1]);
    }
  }

  /**
   What the zero-fill loop leaves behind: every genome of the reference table
   is a key; existing coverages are kept; genomes nobody covered get 0.
   */
  predicate ZeroFilled(gconcov: map<string, int>, genomes: set<string>, filled: map<string, int>)
  {
    && filled.Keys == gconcov.Keys + genomes
    && (forall g :: g in gconcov ==> filled[g] == gconcov[g])
    && (forall g :: g in filled && g !in gconcov ==> filled[g] == 0)
  }

  /** The loop over `reflens.keys()` that adds 0 for every genome missing from `gconcov`. */
  method ZeroFill(gconcov: map<string, int>, genomes: set<string>) returns (filled: map<string, int>)
    ensures ZeroFilled(gconcov, genomes, filled)
  {
    filled := gconcov;
    var todo := genomes;
    while todo != {}
      invariant todo <= genomes
      invariant filled.Keys == gconcov.Keys + (genomes - todo)
      invariant forall g :: g in gconcov ==> filled[g] == gconcov[g]
      invariant forall g :: g in filled && g !in gconcov ==> filled[g] == 0
      decreases todo
    {
      var genome :| genome in todo;
      if genome !in filled {
        filled := filled[genome := 0];
      }
      todo := todo - {genome};
    }
  }

  /** `sum(m.values())`. */
  ghost function SumValues(m: map<string, int>): int
    decreases |m|
  {
    if m == map[] then 0
    else
      var k :| k in m;
      assert |m - {k}| < |m| by {
        assert (m - {k}).Keys == m.Keys - {k};
      }
      m[k] + SumValues(m - {k})
  }

  /** The sum does not depend on which key is taken first. */
  lemma {:induction false} SumValuesRemove(m: map<string, int>, k: string)
    requires k in m
    ensures SumValues(m) == m[k] + SumValues(m - {k})
    decreases |m|
  {
    var j :| j in m && SumValues(m) == m[j] + SumValues(m - {j});
    if j != k {
      assert (m - {j}).Keys == m.Keys - {j} && (m - {k}).Keys == m.Keys - {k};
      SumValuesRemove(m - {j}, k);
      SumValuesRemove(m - {k}, j);
      assert m - {j} - {k} == m - {k} - {j};
    }
  }

  /**
   Zero-filling does not change the total: `sum_cov_bases` is the sum of the
   coverages the sweep produced.
   */
  lemma {:induction false} ZeroFillKeepsTotal(gconcov: map<string, int>, genomes: set<string>, filled: map<string, int>)
    requires ZeroFilled(gconcov, genomes, filled)
    ensures SumValues(filled) == SumValues(gconcov)
    decreases filled.Keys - gconcov.Keys
  {
    if filled.Keys <= gconcov.Keys {
      assert filled == gconcov;
    } else {
      var k :| k in filled && k !in gconcov;
      var rest := filled - {k};
      assert filled == rest[k := 0];
      assert rest.Keys == filled.Keys - {k};
      assert rest.Keys - gconcov.Keys == (filled.Keys - gconcov.Keys) - {k};
      assert ZeroFilled(gconcov, genomes - {k}, rest);
      ZeroFillKeepsTotal(gconcov, genomes - {k}, rest);
      SumAddZero(rest, k);
    }
  }

  /** A new key holding 0 leaves the sum unchanged. */
  lemma {:induction false} SumAddZero(m: map<string, int>, k: string)
    requires k !in m
    ensures SumValues(m[k := 0]) == SumValues(m)
  {
    SumValuesRemove(m[k := 0], k);
    assert m[k := 0] - {k} == m;
  }

  /**
   The printed totals compare as the genomes do: when every genome's coverage
   is at most its length, `sum_cov_bases` is at most `sum_bases`.
   */
  lemma {:induction false} TotalWithinLengths(cov: map<string, int>, lengths: map<string, int>)
    requires cov.Keys == lengths.Keys
    requires forall g :: g in cov ==> cov[g] <= lengths[g]
    ensures SumValues(cov) <= SumValues(lengths)
    decreases |cov|
  {
    if cov == map[] {
      assert lengths == map[];
    } else {
      var k :| k in cov;
      SumValuesRemove(cov, k);
      SumValuesRemove(lengths, k);
      var restCov, restLengths := cov - {k}, lengths - {k};
      assert restCov.Keys == cov.Keys - {k} && restLengths.Keys == lengths.Keys - {k};
      TotalWithinLengths(restCov, restLengths);
    }
  }

  /**
   The genome lengths `int(ref["length"])`, or None when some genome has no
   `length` field (KeyError) or one `int()` rejects (ValueError).
   */
  function Lengths(reflens: Table): (r: Option<map<string, int>>)
    ensures r.Some? ==> r.value.Keys == reflens.Keys
    ensures r.Some? <==> forall g :: g in reflens ==> "length" in reflens[g] && ParseInt(reflens[g]["length"]).Some?
  {
    if forall g :: g in reflens ==> "length" in reflens[g] && ParseInt(reflens[g]["length"]).Some? then
      Some(map g | g in reflens :: ParseInt(reflens[g]["length"]).value)
    else None
  }
}
