# Metassemble: coverage statistics and read renaming, modelled in Dafny

This project models three small scripts of the metassemble pipeline and proves
properties of them.

- **`coords-stats.py`** computes, for every reference genome, how many of its
  bases are covered by assembled contigs. The pieces modelled are:
  - the query that keeps each contig's purest alignments, ordered by genome
    and start (`coords.dfy`, module `Coords`);
  - the sweep `calc_genome_contig_cov_in_bases` over those rows
    (`coverage.dfy`, module `Coverage`). It is written as a method with a loop
    over a `map` and `prev_e1`, and proved equal to a prefix-recursive
    specification `Run`. Lemmas about `Run` give the four cases of a row and
    the headline result: with unit weights, a genome's coverage is the number
    of distinct positions in the union of its rows' spans `[S1, E1]`;
  - `readtable`, `line.split()`, the zero-fill loop and the two totals
    (`ref_table.dfy`, module `RefTable`).
- **`reads-rename.py`** renames the records of each FASTA file to
  `>[prefix:]n[:id]`, keeping records whose sequence reaches a cutoff. The
  counter restarts in every file. It is modelled in `reads_rename.dfy` (module
  `ReadsRename`): `process`, the option loop and `main`'s return codes.
- **`ma-reads-rename.py`** renames to `>n id` with a fixed cutoff of 200 and
  one counter across all files. It is modelled in `ma_reads_rename.dfy`
  (module `MaReadsRename`).

Shared pieces:
- `fasta.dfy` (module `Fasta`): the record type `(id, sequence)` and the
  length filter.
- `decimal.dfy` (module `Decimal`): decimal numerals as `'%s' % n` writes them
  and as `int()` reads them back.
- `wrappers.dfy`: `Option` and `Result`.

Modelling choices:

- **IDY and COVQ are non-negative integers.** The table declares them REAL.
  With integers, the `int(...)` truncations in the sweep change nothing.
  Purity is compared as the product `COVQ * IDY`: dividing by 10000 does not
  change which rows are maximal.
- **The query is a relation, `Coords.IsPurestSelection`.** It states:
  - every selected row is a row of the table;
  - every selected row has maximal purity for its contig;
  - every contig keeps at least one row;
  - the rows are sorted by `(REFID, S1)`.

  SQLite's `GROUP BY QRYID` with `max()` returns one row per contig. The
  docstring promises to keep every tied row. Both outputs satisfy the
  relation. `Coords.SelectPurest` is the concrete selection that keeps all
  ties.
- **Coverage is counted in base × IDY units, as the code does.** The docstring
  speaks of covered bases, but the code multiplies each length by the raw
  percentage IDY. A fully identical alignment therefore counts 100 per base.
  The model follows the code. `Coverage.CoverageWithinGenome` bounds a
  genome's coverage by `w * LENR`, where `w` bounds the IDY values.
- **Two formulas disagree unless IDY is 1.** The first row of a genome adds
  `(E1 - S1) * IDY + 1`. A later row disjoint from the earlier ones adds
  `(E1 - S1 + 1) * IDY`. The model keeps both formulas exactly as written.
  `Coverage.RowContribution` states them.
- **A contained row is skipped with `continue`.** Such a row does not update
  `prev_e1`. The model follows this, and
  `Coverage.PrevIsGroupMaxEnd` shows why it is harmless: `prev_e1` is always
  the furthest end reached so far in the current genome.
- **`readtable` fails when Python would raise IndexError.** That happens on a
  blank data line (`splits[0]`) or on a line with more fields after the first
  than the header has names (`cols[i - 1]`). A line with exactly one field
  more than the header has names is the normal layout and is read. The model returns the first such line as a
  `TableError`.
- **`reads-rename.py`:**
  - An option is one of `Help`, `Cutoff(arg)`, `Prefix(arg)` and `Original`,
    with the argument getopt handed over.
  - A `-c` argument that `int()` rejects raises ValueError. Nothing catches
    it, so the run ends with `Raised`.
  - `--cutoff` is declared without `=`, so getopt hands it an empty argument.
    `int('')` rejects that, so `--cutoff` also ends the run with `Raised`.
  - `Run` returns:
    - the exit status;
    - the lines printed to standard output;
    - a flag saying the usage text was printed.

## Model

| member | source | states |
|---|---|---|
| Decimal.Digits | scripts/process-reads/reads-rename.py:40-42 | the numeral `'%s' % n` of a counter is non-empty and made of decimal digits only |
| Decimal.ValueOfDigits | scripts/process-reads/reads-rename.py:38-42 | reading the printed numeral of `n` as a decimal number gives `n` back |
| Decimal.DigitsInjective | scripts/process-reads/reads-rename.py:38-42 | different counter values are printed as different numerals |
| Decimal.ParseInt | scripts/process-reads/reads-rename.py:65 | `int()` succeeds only on a non-empty token, so an empty `--cutoff` argument is rejected |
| Decimal.ParseIntToString | scripts/process-reads/reads-rename.py:65 | `int()` reads the decimal text of every integer, negative ones included, back as that integer |
| Fasta.Passing | scripts/process-reads/reads-rename.py:36-37 | every record kept reaches the cutoff, and no more records are kept than were read |
| Fasta.PassingSnoc | scripts/process-reads/reads-rename.py:36-37 | reading one more record keeps it exactly when its sequence length reaches the cutoff |
| Fasta.PassingCounts | scripts/process-reads/reads-rename.py:36-37 | a record is kept as often as it occurs in the input if it reaches the cutoff, and never otherwise |
| Fasta.PassingKeepsOrder | scripts/process-reads/reads-rename.py:36-37 | the kept records appear in input order |
| Fasta.PassingAllWhenCutoffNonPositive | scripts/process-reads/reads-rename.py:57 | with the default cutoff 0 (or any cutoff below 1) every record is kept |
| Fasta.PassingAppend | scripts/ma-reads-rename.py:10-12 | filtering the records of files read one after another filters each file in turn |
| ReadsRename.Renamed | scripts/process-reads/reads-rename.py:38-42 | each kept record produces exactly two output lines |
| ReadsRename.RenamedSnoc | scripts/process-reads/reads-rename.py:38-42 | keeping one more record appends its header, numbered one past the others, and then its sequence |
| ReadsRename.RenamedAt | scripts/process-reads/reads-rename.py:38-42 | the k-th kept record is printed as lines 2k and 2k+1: its header with number k+1, then its sequence |
| ReadsRename.HeaderNumber | scripts/process-reads/reads-rename.py:33-42 | a header starts with `>` and the tag (the prefix plus `:`, or nothing), and the digits after them read back as the record's number |
| ReadsRename.HeadersDiffer | scripts/process-reads/reads-rename.py:39-42 | two headers with different numbers differ, whatever the original ids |
| ReadsRename.RenamedHeadersDistinct | scripts/process-reads/reads-rename.py:36-42 | within one file all new names are distinct |
| ReadsRename.Process | scripts/process-reads/reads-rename.py:31-45 | `process` prints the kept records under numbers 1..n in input order, with the prefix tag; it fails exactly when no record reaches the cutoff, and has then printed nothing |
| ReadsRename.ReadOptions | scripts/process-reads/reads-rename.py:57-69 | the option loop ends in the outcome `ParseOptions` defines: help, an uncaught `int()` error, or the final settings |
| ReadsRename.ContinueLastWins | scripts/process-reads/reads-rename.py:57-69 | when the loop runs to the end: no `-h` was given, the last `-c` and the last `-p` decide the cutoff and prefix (defaults otherwise), and `original` is set exactly when `-o` occurs |
| ReadsRename.ContinueFlags | scripts/process-reads/reads-rename.py:60-69 | a loop that runs to the end saw no `-h`, and sets `original` if and only if `-o` occurs |
| ReadsRename.ContinueCutoff | scripts/process-reads/reads-rename.py:64-65 | a loop that runs to the end takes the cutoff from the last `-c`, or keeps the default when there is none |
| ReadsRename.ContinuePrefix | scripts/process-reads/reads-rename.py:66-67 | a loop that runs to the end takes the prefix from the last `-p`, or keeps the default when there is none |
| ReadsRename.HelpWins | scripts/process-reads/reads-rename.py:60-63 | the first `-h` returns the usage outcome, provided every `-c` before it passes `int()`; options after it are never read |
| ReadsRename.BadCutoffWhen | scripts/process-reads/reads-rename.py:64-65 | a `-c` whose argument `int()` rejects ends the run with the uncaught ValueError, provided the loop reaches it: no `-h` and no failing `-c` before it |
| ReadsRename.ProceedsWhen | scripts/process-reads/reads-rename.py:57-69 | a list with no `-h` in which `int()` accepts every `-c` argument runs the loop to the end, so the files are processed |
| ReadsRename.FirstFailing | scripts/process-reads/reads-rename.py:72-76 | the first file in which no record reaches the cutoff: every earlier file keeps a record |
| ReadsRename.FilesStep | scripts/process-reads/reads-rename.py:72-76 | the file loop stops at a file exactly when that file keeps no record; otherwise that file's output is appended |
| ReadsRename.ProcessFiles | scripts/process-reads/reads-rename.py:71-85 | files are processed in argument order until the first one that keeps no record; the status is then 1, otherwise 0 |
| ReadsRename.Run | scripts/process-reads/reads-rename.py:57-85 | `main`: `-h` returns 0 having processed nothing; a bad `-c` raises; no file argument returns 2; otherwise the output of the files up to the first failing one, with status 1 if some file fails and 0 if none does |
| ReadsRename.FileOutputStartsAtOne | scripts/process-reads/reads-rename.py:72-76 | numbering restarts in each file: the first header printed for every processed file carries number 1 |
| MaReadsRename.Numbered | scripts/ma-reads-rename.py:12-14 | each kept record produces exactly two output lines |
| MaReadsRename.NumberedSnoc | scripts/ma-reads-rename.py:12-14 | keeping one more record appends `>n id`, with n one past the others, and then its sequence |
| MaReadsRename.NumberedAt | scripts/ma-reads-rename.py:12-14 | the k-th kept record is printed as lines 2k and 2k+1: header `>k+1 id`, then its sequence |
| MaReadsRename.HeaderNumber | scripts/ma-reads-rename.py:14 | a header starts with `>`, and the digits after it read back as the record's number |
| MaReadsRename.HeadersDiffer | scripts/ma-reads-rename.py:14 | two headers with different numbers differ, whatever the ids |
| MaReadsRename.NumberedHeadersDistinct | scripts/ma-reads-rename.py:9-14 | over the whole run all new names are distinct |
| MaReadsRename.MultiRename | scripts/ma-reads-rename.py:7-18 | the script prints the records of all files, in argument order, that reach length 200, numbered 1..n by one counter; the status is 1 exactly when no record was kept |
| MaReadsRename.RenameFile | scripts/ma-reads-rename.py:11-14 | the inner loop over one file continues the counter and the output of the files before it |
| MaReadsRename.NumbersContinueAcrossFiles | scripts/ma-reads-rename.py:9-13 | the k-th kept record of file j is numbered (the kept records of the earlier files) + k + 1: the counter is never reset |
| Coords.MaxPurityExists | scripts/validate/nucmer/stats/coords-stats.py:27-28 | every contig with an alignment has an alignment of maximal purity |
| Coords.SortByRefStart | scripts/validate/nucmer/stats/coords-stats.py:29-30 | `ORDER BY REFID, S1` yields a permutation of its input that is sorted by genome and then by start |
| Coords.KeepPurest | scripts/validate/nucmer/stats/coords-stats.py:27-29 | every row kept has maximal purity for its contig |
| Coords.KeepPurestCounts | scripts/validate/nucmer/stats/coords-stats.py:27-29 | a row is kept as often as it occurs if it has maximal purity for its contig, and never otherwise |
| Coords.SelectPurestIsSelection | scripts/validate/nucmer/stats/coords-stats.py:27-30 | keeping all tied maximal-purity rows and sorting them meets the query's contract: table rows only, maximal purity, every contig represented, `(REFID, S1)` order |
| Coords.SelectPurestKeepsTies | scripts/validate/nucmer/stats/coords-stats.py:10-12 | every alignment of maximal purity is used, ties included |
| Coverage.SortedIsSweepOrder | scripts/validate/nucmer/stats/coords-stats.py:29-30 | rows in `(REFID, S1)` order are grouped by genome, with starts ascending within a genome |
| Coverage.WeightedIsProduct | scripts/validate/nucmer/stats/coords-stats.py:35-40 | the weighted length used by the sweep is the product of length and IDY |
| Coverage.RunKeys | scripts/validate/nucmer/stats/coords-stats.py:31-40 | the coverage map has an entry for exactly the genomes of the rows seen |
| Coverage.GenomeContigCoverage | scripts/validate/nucmer/stats/coords-stats.py:25-43 | the sweep computes the map `Run` defines, keyed by exactly the genomes of the rows |
| Coverage.PrevIsGroupMaxEnd | scripts/validate/nucmer/stats/coords-stats.py:32-41 | on grouped rows `prev_e1` is the largest end of the current genome's rows so far, although skipped rows do not set it |
| Coverage.RowContribution | scripts/validate/nucmer/stats/coords-stats.py:31-41 | the four cases: a genome's first row sets `(E1-S1)*IDY+1` whatever `prev_e1` held; a contained row changes nothing; an overlapping row adds `(E1-m)*IDY`; a disjoint row adds `(E1-S1+1)*IDY`; then `prev_e1` is the genome's furthest end |
| Coverage.OtherGenomeUnchanged | scripts/validate/nucmer/stats/coords-stats.py:31-41 | a row changes neither the coverage nor the covered positions of any other genome |
| Coverage.NewPositions | scripts/validate/nucmer/stats/coords-stats.py:32-40 | each case formula's length is exactly the number of positions the row adds to its genome's covered set |
| Coverage.FirstRowGain | scripts/validate/nucmer/stats/coords-stats.py:39-40 | a genome's first row gives coverage `(E1-S1)*IDY+1` over `E1-S1+1` covered positions |
| Coverage.LaterRowGain | scripts/validate/nucmer/stats/coords-stats.py:34-38 | a later row reaching beyond the earlier ones adds k new positions and k*IDY coverage |
| Coverage.CoverageIsUnionSize | scripts/validate/nucmer/stats/coords-stats.py:12-17 | with unit weights and rows in sweep order, each genome's coverage is the number of distinct positions in the union of its spans: covered bases are counted once |
| Coverage.CoverageAtMostWeightedUnion | scripts/validate/nucmer/stats/coords-stats.py:12-14 | with every IDY at most w, a genome's coverage is at most w times the number of its distinct covered positions |
| Coverage.CoverageWithinGenome | scripts/validate/nucmer/stats/coords-stats.py:21-23 | when a genome's rows lie within 1..LENR and every IDY is at most w, its coverage is at most w*LENR (with unit weights, at most its length) |
| Coverage.PurestCoverageIsUnionSize | scripts/validate/nucmer/stats/coords-stats.py:8-43 | over any maximal-purity selection the query may return, with unit weights, every genome's coverage is the size of the union of its selected spans |
| RefTable.Split | scripts/validate/nucmer/stats/coords-stats.py:62 | `split()` yields non-empty tokens without whitespace that together are the line's non-whitespace characters |
| RefTable.SplitJoin | scripts/validate/nucmer/stats/coords-stats.py:62 | splitting tokens joined by spaces gives the tokens back |
| RefTable.SplitInterleave | scripts/validate/nucmer/stats/coords-stats.py:62 | on a line of tokens separated by whitespace runs of any kind and length (tabs included), with optional leading and trailing whitespace, `split()` returns exactly those tokens: each token is a maximal run of non-whitespace characters |
| RefTable.ReadTable | scripts/validate/nucmer/stats/coords-stats.py:46-67 | `readtable` builds the table `TableOf` defines from the header and data lines, or stops at the first line that raises IndexError |
| RefTable.ReadRow | scripts/validate/nucmer/stats/coords-stats.py:63-65 | the inner loop succeeds exactly when the line has no field beyond the last column name, and then maps name i-1 to field i |
| RefTable.TableOfStep | scripts/validate/nucmer/stats/coords-stats.py:61-65 | one more data line either fails (blank line, or too many fields) or replaces the entry under its first field |
| RefTable.FirstErrorStands | scripts/validate/nucmer/stats/coords-stats.py:61-65 | once a line fails, later lines do not change the outcome |
| RefTable.TableOfSucceeds | scripts/validate/nucmer/stats/coords-stats.py:61-65 | reading succeeds if and only if every data line has a first field and no more fields than the header has names plus one |
| RefTable.TableOfKeys | scripts/validate/nucmer/stats/coords-stats.py:61-63 | the outer keys are exactly the first fields of the data lines |
| RefTable.TableOfLastWins | scripts/validate/nucmer/stats/coords-stats.py:63-65 | a line whose first field no later line repeats is what the table holds under that key: a later line replaces an earlier one entirely |
| RefTable.RowFieldsAt | scripts/validate/nucmer/stats/coords-stats.py:64-65 | with distinct column names, field i of a line is stored under column name i-1 |
| RefTable.RowFieldsKeys | scripts/validate/nucmer/stats/coords-stats.py:64-65 | the inner map's keys are the column names of the fields after the first |
| RefTable.ZeroFill | scripts/validate/nucmer/stats/coords-stats.py:101-103 | after the loop every reference genome is a key, existing coverages are kept and new entries are 0 |
| RefTable.ZeroFillKeepsTotal | scripts/validate/nucmer/stats/coords-stats.py:112 | zero-filling leaves `sum(gconcov.values())` unchanged |
| RefTable.TotalWithinLengths | scripts/validate/nucmer/stats/coords-stats.py:112-115 | when every genome's coverage is at most its length, the total coverage is at most the total length |
| RefTable.Lengths | scripts/validate/nucmer/stats/coords-stats.py:113 | the lengths exist for exactly the reference genomes, and only when every genome has a `length` field that `int()` accepts |

## Left out

- SQLite itself is not modelled: the connection, the `.sqlite` file, the table creation and the insertion of the coordinate lines. The bare `except: pass` around them is also left out. The query is modelled as the relation `Coords.IsPurestSelection`, with `Coords.SelectPurest` as one solution.
- Which of several tied rows SQLite's `GROUP BY` returns is unspecified SQLite behaviour. The relation admits any choice.
- Floating point is not modelled: REAL columns, `COVQ * IDY / 10000` as a float, and the ratios printed at lines 110-111 and 114-115. IDY and COVQ are non-negative integers here, so `int()` truncation in the sweep is the identity.
- File I/O and printing are not modelled: reading files, printing the report, the hard-coded paths and argparse. FASTA parsing by Biopython's `SeqIO` is also left out; records are given as `(id, sequence)` pairs.
- getopt's own parsing is not modelled, including its failure (`Usage`, status 2 for an unknown option). The option loop starts from the already parsed options.
- The usage text and the stderr messages are left out. Printing the usage text is the `helped` flag of `ReadsRename.Run`; an error message is represented only by the exit status.
- `int()` on a token with surrounding whitespace is not modelled. `Decimal.ParseInt` takes whitespace-free tokens only: an optional sign and one or more digits.
- `sum_cov_bases` also counts genomes that the alignments name but the reference table lacks. `RefTable.TotalWithinLengths` therefore needs the coverage keys to equal the reference genomes.
- `scripts/validate/reference/stats/gc-content.py` is not part of this model. It only wraps a Biopython GC function.
- `Decimal.ParseInt`: its contract states only that a successful parse needs a non-empty token. What it reads is stated by `Decimal.ParseIntToString`.
