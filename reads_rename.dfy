/**
 `reads-rename.py`: renames the records of each FASTA file given on the
 command line to `>[prefix:]n[:original id]`, keeping only records whose
 sequence reaches the cutoff and numbering them 1, 2, ... afresh in every file.
 */
module ReadsRename {
  import opened Wrappers
  import opened Decimal
  import opened Fasta

  /** The header text before the number: a non-empty prefix gets a ':' appended. */
  function Tag(prefix: string): string
  {
    if prefix != "" then prefix + ":" else ""
  }

  /** The header line printed for the `n`-th kept record. */
  function Header(tag: string, n: nat, id: string, original: bool): string
  {
    ">" + tag + Digits(n) + (if original then ":" + id else "")
  }

  /** The lines printed for the kept records `recs`, numbered from 1: header, then sequence. */
  function Renamed(recs: seq<Record>, tag: string, original: bool): (lines: seq<string>)
    ensures |lines| == 2 * |recs|
  {
    if recs == [] then []
    else
      var init := recs[..|recs| - 1];
      var last := recs[|recs| - 1];
      Renamed(init, tag, original) + [Header(tag, |recs|, last.id, original), last.sequence]
  }

  /** Keeping one more record prints its header, numbered one past the others, and its sequence. */
  lemma {:induction false} RenamedSnoc(recs: seq<Record>, x: Record, tag: string, original: bool)
    ensures Renamed(recs + [x], tag, original)
      == Renamed(recs, tag, original) + [Header(tag, |recs| + 1, x.id, original), x.sequence]
  {
    assert (recs + [x])[..|recs|] == recs;
  }

  /** The `k`-th kept record is printed as lines `2k` and `2k + 1` and carries number `k + 1`. */
  lemma {:induction false} RenamedAt(recs: seq<Record>, tag: string, original: bool, k: nat)
    requires k < |recs|
    ensures |Renamed(recs, tag, original)| == 2 * |recs|
    ensures Renamed(recs, tag, original)[2 * k] == Header(tag, k + 1, recs[k].id, original)
    ensures Renamed(recs, tag, original)[2 * k + 1] == recs[k].sequence
  {
    var init := recs[..|recs| - 1];
    if k < |init| {
      RenamedAt(init, tag, original, k);
    } else if init != [] {
      RenamedAt(init, tag, original, 0);
    }
  }

  /** A header gives back its number: the digits after `>` and the tag. */
  lemma {:induction false} HeaderNumber(prefix: string, n: nat, id: string, original: bool)
    ensures var h := Header(Tag(prefix), n, id, original);
            var start := |">" + Tag(prefix)|;
            start <= |h| && h[..start] == ">" + Tag(prefix) &&
            ValueOf(LeadingDigits(h[start..])) == n
  {
    var rest: string := if original then ":" + id else "";
    var h := Header(Tag(prefix), n, id, original);
    assert h[|">" + Tag(prefix)|..] == Digits(n) + rest;
    LeadingDigitsOfNumeral(Digits(n), rest);
    ValueOfDigits(n);
  }

  /** Within one file the new names are all different. */
  lemma {:induction false} RenamedHeadersDistinct(recs: seq<Record>, prefix: string, original: bool, i: nat, j: nat)
    requires i < j < |recs|
    ensures Renamed(recs, Tag(prefix), original)[2 * i] != Renamed(recs, Tag(prefix), original)[2 * j]
  {
    HeadersDiffer(prefix, i + 1, recs[i].id, j + 1, recs[j].id, original);
    RenamedAt(recs, Tag(prefix), original, i);
    RenamedAt(recs, Tag(prefix), original, j);
  }

  /** Headers with different numbers are different lines, whatever the ids. */
  lemma {:induction false} HeadersDiffer(prefix: string, a: nat, ida: string, b: nat, idb: string, original: bool)
    requires a != b
    ensures Header(Tag(prefix), a, ida, original) != Header(Tag(prefix), b, idb, original)
  {
    HeaderNumber(prefix, a, ida, original);
    HeaderNumber(prefix, b, idb, original);
  }

  /**
   `process`: prints the kept records of one file under their new names; it
   fails (raises Error) when no record reaches the cutoff, having printed nothing.
   */
  method Process(records: seq<Record>, prefix: string, cutoff: int, original: bool)
    returns (out: seq<string>, ok: bool)
    ensures out == Renamed(Passing(records, cutoff), Tag(prefix), original)
    ensures ok <==> Passing(records, cutoff) != []
    ensures !ok ==> out == []
  {
    var n := 0;
    var tag := prefix;
    if tag != "" {
      tag := tag + ":";
    }
    out := [];
    for i := 0 to |records|
      invariant n == |Passing(records[..i], cutoff)|
      invariant out == Renamed(Passing(records[..i], cutoff), tag, original)
    {
      var record := records[i];
      ghost var kept := Passing(records[..i], cutoff);
      assert Passing(records[..i + 1], cutoff)
        == if |record.sequence| >= cutoff then kept + [record] else kept by {
        assert records[..i + 1] == records[..i] + [record];
        PassingSnoc(records[..i], record, cutoff);
      }
      if |record.sequence| >= cutoff {
        n := n + 1;
        var header := Header(tag, n, record.id, original);
        out := out + [header, record.sequence];
        assert out == Renamed(kept + [record], tag, original) by {
          RenamedSnoc(kept, record, tag, original);
        }
      }
    }
    assert records[..|records|] == records;
    ok := n != 0;
  }

  /** An option as getopt hands it over (long and short spellings alike). */
  datatype Opt = Help | Cutoff(arg: string) | Prefix(arg: string) | Original

  datatype Settings = Settings(cutoff: int, prefix: string, original: bool)

  /** What the option loop ends in. */
  datatype OptionsOutcome =
    | ShowHelp              // `-h`: print the usage text and return 0
    | BadCutoff             // `int(a)` raised ValueError, which nothing catches
    | Proceed(settings: Settings)

  const Defaults := Settings(0, "", false)

  /** The option loop run from settings `cur` over the remaining options. */
  function Continue(opts: seq<Opt>, cur: Settings): OptionsOutcome
  {
    if opts == [] then Proceed(cur)
    else
      match opts[0]
      case Help => ShowHelp
      case Cutoff(a) =>
        (match ParseInt(a)
         case None => BadCutoff
         case Some(c) => Continue(opts[1..], cur.(cutoff := c)))
      case Prefix(p) => Continue(opts[1..], cur.(prefix := p))
      case Original => Continue(opts[1..], cur.(original := true))
  }

  function ParseOptions(opts: seq<Opt>): OptionsOutcome
  {
    Continue(opts, Defaults)
  }

  /** The settings a step of the option loop moves to, when it does not stop. */
  function Next(o: Opt, cur: Settings): Settings
    requires !o.Help? && (o.Cutoff? ==> ParseInt(o.arg).Some?)
  {
    match o
    case Cutoff(a) => cur.(cutoff := ParseInt(a).value)
    case Prefix(p) => cur.(prefix := p)
    case _ => cur.(original := true)
  }

  /**
   When the loop runs to the end: no `-h` was given, the last `-c` and the
   last `-p` win (defaults 0 and ""), and `original` is set exactly when `-o`
   occurs.
   */
  lemma {:induction false} ContinueLastWins(opts: seq<Opt>, cur: Settings)
    requires Continue(opts, cur).Proceed?
    ensures var s := Continue(opts, cur).settings;
      && Help !in opts
      && (forall i :: 0 <= i < |opts| && opts[i].Cutoff? && (forall j :: i < j < |opts| ==> !opts[j].Cutoff?) ==>
            ParseInt(opts[i].arg) == Some(s.cutoff))
      && ((forall i :: 0 <= i < |opts| ==> !opts[i].Cutoff?) ==> s.cutoff == cur.cutoff)
      && (forall i :: 0 <= i < |opts| && opts[i].Prefix? && (forall j :: i < j < |opts| ==> !opts[j].Prefix?) ==>
            opts[i].arg == s.prefix)
      && ((forall i :: 0 <= i < |opts| ==> !opts[i].Prefix?) ==> s.prefix == cur.prefix)
      && (s.original <==> cur.original || Original in opts)
  {
    ContinueFlags(opts, cur);
    ContinueCutoff(opts, cur);
    ContinuePrefix(opts, cur);
  }

  /** A loop that runs to the end saw no `-h`, and sets `original` exactly when `-o` occurs. */
  lemma {:induction false} ContinueFlags(opts: seq<Opt>, cur: Settings)
    requires Continue(opts, cur).Proceed?
    ensures Help !in opts
    ensures Continue(opts, cur).settings.original <==> cur.original || Original in opts
  {
    if opts != [] {
      var next := Next(opts[0], cur);
      assert Continue(opts, cur) == Continue(opts[1..], next);
      ContinueFlags(opts[1..], next);
      assert opts == [opts[0]] + opts[1..];
    }
  }

  /** A loop that runs to the end takes its cutoff from the last `-c`, or keeps the old one. */
  lemma {:induction false} ContinueCutoff(opts: seq<Opt>, cur: Settings)
    requires Continue(opts, cur).Proceed?
    ensures var s := Continue(opts, cur).settings;
      && (forall i :: 0 <= i < |opts| && opts[i].Cutoff? && (forall j :: i < j < |opts| ==> !opts[j].Cutoff?) ==>
            ParseInt(opts[i].arg) == Some(s.cutoff))
      && ((forall i :: 0 <= i < |opts| ==> !opts[i].Cutoff?) ==> s.cutoff == cur.cutoff)
  {
    if opts != [] {
      var next := Next(opts[0], cur);
      assert Continue(opts, cur) == Continue(opts[1..], next);
      ContinueCutoff(opts[1..], next);
      var s := Continue(opts, cur).settings;
      assert forall j :: 0 <= j < |opts[1..]| ==> opts[1..][j] == opts[j + 1];
      forall i | 0 <= i < |opts| && opts[i].Cutoff? && (forall j :: i < j < |opts| ==> !opts[j].Cutoff?)
        ensures ParseInt(opts[i].arg) == Some(s.cutoff)
      {
        if i > 0 {
          assert opts[1..][i - 1] == opts[i];
        }
      }
    }
  }

  /** A loop that runs to the end takes its prefix from the last `-p`, or keeps the old one. */
  lemma {:induction false} ContinuePrefix(opts: seq<Opt>, cur: Settings)
    requires Continue(opts, cur).Proceed?
    ensures var s := Continue(opts, cur).settings;
      && (forall i :: 0 <= i < |opts| && opts[i].Prefix? && (forall j :: i < j < |opts| ==> !opts[j].Prefix?) ==>
            opts[i].arg == s.prefix)
      && ((forall i :: 0 <= i < |opts| ==> !opts[i].Prefix?) ==> s.prefix == cur.prefix)
  {
    if opts != [] {
      var next := Next(opts[0], cur);
      assert Continue(opts, cur) == Continue(opts[1..], next);
      ContinuePrefix(opts[1..], next);
      var s := Continue(opts, cur).settings;
      assert forall j :: 0 <= j < |opts[1..]| ==> opts[1..][j] == opts[j + 1];
      forall i | 0 <= i < |opts| && opts[i].Prefix? && (forall j :: i < j < |opts| ==> !opts[j].Prefix?)
        ensures opts[i].arg == s.prefix
      {
        if i > 0 {
          assert opts[1..][i - 1] == opts[i];
        }
      }
    }
  }

  /**
   The first `-h` ends the loop with the usage outcome, provided every `-c`
   before it parses; options after it are never looked at.
   */
  lemma {:induction false} HelpWins(opts: seq<Opt>, cur: Settings, h: nat)
    requires h < |opts| && opts[h] == Help
    requires forall i :: 0 <= i < h && opts[i].Cutoff? ==> ParseInt(opts[i].arg).Some?
    ensures Continue(opts, cur) == ShowHelp
  {
    if h > 0 && opts[0] != Help {
      forall i | 0 <= i < h - 1 && opts[1..][i].Cutoff?
        ensures ParseInt(opts[1..][i].arg).Some?
      {
        assert opts[1..][i] == opts[i + 1];
      }
      HelpWins(opts[1..], Next(opts[0], cur), h - 1);
    }
  }

  /**
   A `-c` whose argument `int()` rejects raises ValueError, provided the loop
   reaches it: no `-h` before it and every earlier `-c` parses.
   */
  lemma {:induction false} BadCutoffWhen(opts: seq<Opt>, cur: Settings, b: nat)
    requires b < |opts| && opts[b].Cutoff? && ParseInt(opts[b].arg).None?
    requires forall i :: 0 <= i < b ==> !opts[i].Help? && (opts[i].Cutoff? ==> ParseInt(opts[i].arg).Some?)
    ensures Continue(opts, cur) == BadCutoff
  {
    if b > 0 {
      forall i | 0 <= i < b - 1
        ensures !opts[1..][i].Help? && (opts[1..][i].Cutoff? ==> ParseInt(opts[1..][i].arg).Some?)
      {
        assert opts[1..][i] == opts[i + 1];
      }
      BadCutoffWhen(opts[1..], Next(opts[0], cur), b - 1);
    }
  }

  /** Without `-h` and with every `-c` argument accepted by `int()`, the loop runs to the end. */
  lemma {:induction false} ProceedsWhen(opts: seq<Opt>, cur: Settings)
    requires forall i :: 0 <= i < |opts| ==> !opts[i].Help? && (opts[i].Cutoff? ==> ParseInt(opts[i].arg).Some?)
    ensures Continue(opts, cur).Proceed?
  {
    if opts != [] {
      forall i | 0 <= i < |opts| - 1
        ensures !opts[1..][i].Help? && (opts[1..][i].Cutoff? ==> ParseInt(opts[1..][i].arg).Some?)
      {
        assert opts[1..][i] == opts[i + 1];
      }
      ProceedsWhen(opts[1..], Next(opts[0], cur));
    }
  }

  /** The index of the first file in which no record reaches the cutoff, or |files|. */
  function FirstFailing(files: seq<seq<Record>>, cutoff: int): (j: nat)
    ensures j <= |files|
    ensures forall i :: 0 <= i < j ==> Passing(files[i], cutoff) != []
    ensures j < |files| ==> Passing(files[j], cutoff) == []
  {
    if files == [] then 0
    else if Passing(files[0], cutoff) == [] then 0
    else
      var j := 1 + FirstFailing(files[1..], cutoff);
      assert forall i :: 1 <= i < j ==> files[i] == files[1..][i - 1];
      j
  }

  /** The output of `process` for each file in turn, each numbered from 1. */
  function RenamedFiles(files: seq<seq<Record>>, s: Settings): seq<string>
  {
    if files == [] then []
    else
      RenamedFiles(files[..|files| - 1], s)
        + Renamed(Passing(files[|files| - 1], s.cutoff), Tag(s.prefix), s.original)
  }

  /** One more file: `main` stops there exactly when it keeps no record, else appends its output. */
  lemma {:induction false} FilesStep(files: seq<seq<Record>>, s: Settings, j: nat)
    requires j < |files| && j <= FirstFailing(files, s.cutoff)
    ensures FirstFailing(files, s.cutoff) == j <==> Passing(files[j], s.cutoff) == []
    ensures RenamedFiles(files[..j + 1], s)
      == RenamedFiles(files[..j], s) + Renamed(Passing(files[j], s.cutoff), Tag(s.prefix), s.original)
  {
    assert files[..j + 1][..j] == files[..j];
  }

  /** The exit status `sys.exit(main())` produces (`main` falling off its end gives 0), or the uncaught exception. */
  datatype Exit = Returned(code: int) | Raised

  /**
   `main` over getopt's options and the files named as arguments: the option
   loop, then `process` on each file until one fails.
   */
  method Run(opts: seq<Opt>, files: seq<seq<Record>>) returns (exit: Exit, out: seq<string>, helped: bool)
    ensures ParseOptions(opts) == ShowHelp ==> exit == Returned(0) && out == [] && helped
    ensures ParseOptions(opts) == BadCutoff ==> exit == Raised && out == [] && !helped
    ensures ParseOptions(opts).Proceed? && files == [] ==> exit == Returned(2) && out == [] && !helped
    ensures ParseOptions(opts).Proceed? && files != [] ==>
      var s := ParseOptions(opts).settings;
      var j := FirstFailing(files, s.cutoff);
      && exit == Returned(if j < |files| then 1 else 0)
      && out == RenamedFiles(files[..j], s)
      && !helped
  {
    out, helped := [], false;
    var outcome := ReadOptions(opts);
    match outcome
    case ShowHelp =>
      helped := true;
      exit := Returned(0);
    case BadCutoff =>
      exit := Raised;
    case Proceed(s) =>
      if |files| >= 1 {
        exit, out := ProcessFiles(files, s);
      } else {
        exit := Returned(2);
      }
  }

  /**
   The option loop of `main`: `-h` prints the usage and returns at once, a
   `-c` argument that is not an integer raises, and every other option
   overwrites its setting.
   */
  method ReadOptions(opts: seq<Opt>) returns (r: OptionsOutcome)
    ensures r == ParseOptions(opts)
  {
    var cutoff := 0;
    var prefix := "";
    var original := false;
    for i := 0 to |opts|
      invariant ParseOptions(opts) == Continue(opts[i..], Settings(cutoff, prefix, original))
    {
      assert opts[i..][1..] == opts[i + 1..];
      match opts[i]
      case Help =>
        return ShowHelp;
      case Cutoff(a) =>
        var c := ParseInt(a);
        if c.None? {
          return BadCutoff;
        }
        cutoff := c.value;
      case Prefix(p) =>
        prefix := p;
      case Original =>
        original := true;
    }
    assert opts[|opts|..] == [];
    r := Proceed(Settings(cutoff, prefix, original));
  }

  /**
   The file loop of `main`: `process` on each file in argument order; the
   first file with no record reaching the cutoff ends the run with status 1.
   */
  method ProcessFiles(files: seq<seq<Record>>, s: Settings) returns (exit: Exit, out: seq<string>)
    ensures var j := FirstFailing(files, s.cutoff);
      && exit == Returned(if j < |files| then 1 else 0)
      && out == RenamedFiles(files[..j], s)
  {
    out := [];
    for j := 0 to |files|
      invariant j <= FirstFailing(files, s.cutoff)
      invariant out == RenamedFiles(files[..j], s)
    {
      var o, ok := Process(files[j], s.prefix, s.cutoff, s.original);
      FilesStep(files, s, j);
      out := out + o;
      if !ok {
        return Returned(1), out;
      }
    }
    assert files[..|files|] == files;
    exit := Returned(0);
  }

  /** Numbering restarts in every file: each processed file's first new name carries number 1. */
  lemma {:induction false} FileOutputStartsAtOne(files: seq<seq<Record>>, s: Settings, j: nat)
    requires j < FirstFailing(files, s.cutoff)
    ensures var offset := |RenamedFiles(files[..j], s)|;
      && offset < |RenamedFiles(files[..j + 1], s)|
      && RenamedFiles(files[..j + 1], s)[offset]
         == Header(Tag(s.prefix), 1, Passing(files[j], s.cutoff)[0].id, s.original)
  {
    assert files[..j + 1][..j] == files[..j];
    RenamedAt(Passing(files[j], s.cutoff), Tag(s.prefix), s.original, 0);
  }
}
