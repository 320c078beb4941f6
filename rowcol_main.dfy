/**
 * The two C++ drivers of the row–column matcher: rowcolmatch/main.cpp
 * (command line, payload/location filter, per-(layer, chip) grouping,
 * output file name) and the `main` of rowcolmatch/astropix3rowcol.cpp
 * (location filter and the same grouping with fixed bounds). The CSV file
 * itself is not read here: the half-hits it holds are a parameter.
 */
module RowColMain {
  import opened Wrappers
  import opened RowCol

  // ---------------------------------------------------------------------
  // std::stoi

  /** Why a run stops early: the usage message (exit status 1), or an abnormal termination. */
  datatype Failure =
    | Usage          // usage() and return 1
    | MissingValue   // an option that takes a value is the last argument: argv[argc] is null
    | NotANumber     // std::stoi throws std::invalid_argument
    | OutOfRange     // std::stoi throws std::out_of_range

  const INT_MIN: int := -0x8000_0000
  const INT_MAX: int := 0x7fff_ffff

  /** The C locale's white space: blank, tab, line feed, vertical tab, form feed, carriage return. */
  predicate IsSpace(c: char) { c == ' ' || '\t' <= c <= '\r' }

  predicate IsDigit(c: char) { '0' <= c <= '9' }

  /** `s` without its leading white space. */
  function SkipSpaces(s: string): (r: string)
    ensures r == [] || !IsSpace(r[0])
  {
    if s != [] && IsSpace(s[0]) then SkipSpaces(s[1..]) else s
  }

  /** The length of the longest prefix of `s` made of decimal digits. */
  function DigitRun(s: string): (n: nat)
    ensures n <= |s| && (n < |s| ==> !IsDigit(s[n]))
  {
    if s == [] || !IsDigit(s[0]) then 0 else 1 + DigitRun(s[1..])
  }

  /** The value of a decimal digit (a digit run holds nothing else). */
  function DigitValue(c: char): nat
  {
    if IsDigit(c) then c as int - '0' as int else 0
  }

  /** The value of the first `n` characters of `s`, decimal digits, most significant first. */
  function DigitsValue(s: string, n: nat): nat
    requires n <= |s|
  {
    if n == 0 then 0 else 10 * DigitsValue(s, n - 1) + DigitValue(s[n - 1])
  }

  /** The value of the run of digits `u` starts with, if there is one. */
  function Unsigned(u: string): Option<nat>
  {
    var n := DigitRun(u);
    if n == 0 then None else Some(DigitsValue(u, n))
  }

  /** A value std::stoi can return, or std::out_of_range. */
  function InIntRange(v: int): (r: Result<int, Failure>)
    ensures r.Ok? <==> INT_MIN <= v <= INT_MAX
    ensures r.Ok? ==> r.value == v
  {
    if v < INT_MIN || INT_MAX < v then Err(OutOfRange) else Ok(v)
  }

  /** An optional sign, then the digits: what std::stoi reads after the white space. */
  function ReadInt(t: string): (r: Result<int, Failure>)
    ensures r.Ok? ==> INT_MIN <= r.value <= INT_MAX
    ensures r.Err? ==> r.error == NotANumber || r.error == OutOfRange
  {
    var negative := t != [] && t[0] == '-';
    var u := if t != [] && (t[0] == '-' || t[0] == '+') then t[1..] else t;
    match Unsigned(u)
    case None => Err(NotANumber)
    case Some(k) => InIntRange(if negative then -(k as int) else k)
  }

  /**
   * std::stoi in base 10: skip white space, take an optional sign and the
   * longest run of digits after it, ignore the rest; no digit is
   * std::invalid_argument, a value outside int is std::out_of_range.
   */
  function Stoi(s: string): (r: Result<int, Failure>)
    ensures r.Ok? ==> INT_MIN <= r.value <= INT_MAX
    ensures r.Err? ==> r.error == NotANumber || r.error == OutOfRange
  {
    ReadInt(SkipSpaces(s))
  }

  /** The decimal digits of `k`, most significant first, as std::to_string writes them. */
  function DecimalDigits(k: nat): (d: string)
    ensures d != [] && forall i :: 0 <= i < |d| ==> IsDigit(d[i])
  {
    if k < 10 then ['0' + k as char] else DecimalDigits(k / 10) + ['0' + (k % 10) as char]
  }

  /** `n` written in decimal, with a minus sign when negative. */
  function Decimal(n: int): string
  {
    if n < 0 then "-" + DecimalDigits(-n) else DecimalDigits(n)
  }

  /** Whatever follows them, the digits of `k` read back as `k`. */
  lemma {:induction false} DigitsValueOfDecimal(k: nat, tail: string)
    ensures var d := DecimalDigits(k);
      DigitsValue(d + tail, |d|) == k
  {
    var d := DecimalDigits(k);
    if 10 <= k {
      var init := DecimalDigits(k / 10);
      assert d + tail == init + ([d[|d| - 1]] + tail);
      DigitsValueOfDecimal(k / 10, [d[|d| - 1]] + tail);
      DigitsPrefixValue(init + ([d[|d| - 1]] + tail), d + tail, |init|);
    }
  }

  /** The value of a digit prefix depends on that prefix only. */
  lemma {:induction false} DigitsPrefixValue(s: string, t: string, n: nat)
    requires n <= |s| && n <= |t| && s[..n] == t[..n]
    ensures DigitsValue(s, n) == DigitsValue(t, n)
  {
    if n > 0 {
      assert s[n - 1] == s[..n][n - 1] == t[n - 1];
      assert s[..n - 1] == s[..n][..n - 1];
      DigitsPrefixValue(s, t, n - 1);
    }
  }

  /** The digit run of digits followed by a non-digit is exactly those digits. */
  lemma {:induction false} DigitRunOf(d: string, tail: string)
    requires forall k :: 0 <= k < |d| ==> IsDigit(d[k])
    requires tail == [] || !IsDigit(tail[0])
    ensures DigitRun(d + tail) == |d|
  {
    if d != [] {
      assert (d + tail)[1..] == d[1..] + tail;
      DigitRunOf(d[1..], tail);
    }
  }

  /** The decimal digits of `k` followed by a non-digit read back as `k`. */
  lemma ReadsDigits(k: nat, tail: string)
    requires tail == [] || !IsDigit(tail[0])
    ensures Unsigned(DecimalDigits(k) + tail) == Some(k)
  {
    DigitRunOf(DecimalDigits(k), tail);
    DigitsValueOfDecimal(k, tail);
  }

  /** The digits of `k`, then a non-digit or nothing: std::stoi reads `k`, or fails on a too large value. */
  lemma StoiReadsDigits(k: nat, tail: string)
    requires tail == [] || !IsDigit(tail[0])
    ensures Stoi(DecimalDigits(k) + tail) == InIntRange(k)
  {
    var u := DecimalDigits(k) + tail;
    ReadsDigits(k, tail);
    assert u[0] == DecimalDigits(k)[0];
    assert SkipSpaces(u) == u;
  }

  /** A minus sign and the digits of `k`, then a non-digit or nothing: std::stoi reads −k, if it fits. */
  lemma StoiReadsNegative(k: nat, tail: string)
    requires tail == [] || !IsDigit(tail[0])
    ensures Stoi("-" + (DecimalDigits(k) + tail)) == InIntRange(-(k as int))
  {
    var u := DecimalDigits(k) + tail;
    var t := "-" + u;
    ReadsDigits(k, tail);
    assert t[0] == '-' && t[1..] == u;
    assert SkipSpaces(t) == t;
  }

  /** std::stoi reads back any int written in decimal, whatever non-digit text follows it. */
  lemma StoiReadsDecimal(n: int, tail: string)
    requires INT_MIN <= n <= INT_MAX
    requires tail == [] || !IsDigit(tail[0])
    ensures Stoi(Decimal(n) + tail) == Ok(n)
  {
    if n < 0 {
      assert Decimal(n) + tail == "-" + (DecimalDigits(-n) + tail);
      StoiReadsNegative(-n, tail);
      assert InIntRange(n) == Ok(n);
    } else {
      assert Decimal(n) == DecimalDigits(n);
      StoiReadsDigits(n, tail);
      assert InIntRange(n) == Ok(n);
    }
  }

  /** Leading white space does not change what std::stoi reads. */
  lemma {:induction false} StoiSkipsSpaces(ws: string, s: string)
    requires forall k :: 0 <= k < |ws| ==> IsSpace(ws[k])
    requires s == [] || !IsSpace(s[0])
    ensures Stoi(ws + s) == Stoi(s)
  {
    SkipSpacesOver(ws, s);
  }

  lemma {:induction false} SkipSpacesOver(ws: string, s: string)
    requires forall k :: 0 <= k < |ws| ==> IsSpace(ws[k])
    requires s == [] || !IsSpace(s[0])
    ensures SkipSpaces(ws + s) == s
  {
    if ws != [] {
      assert (ws + s)[1..] == ws[1..] + s;
      SkipSpacesOver(ws[1..], s);
    }
  }

  // ---------------------------------------------------------------------
  // The command line of rowcolmatch/main.cpp

  /** The settings the command line chooses. */
  datatype Options = Options(filename: string, quiet: bool, layers: int, chips: int,
                             mints: int, maxts: int, mintot: int, maxtot: int)

  /** No file name, not quiet, 3 layers of 4 chips, timestamp bounds 0..1, ToT bounds 6..15. */
  const DEFAULTS := Options("", false, 3, 4, 0, 1, 6, 15)

  /** The options that take the next argument as an integer. */
  predicate TakesValue(arg: string)
  {
    arg == "-l" || arg == "--layers" || arg == "-c" || arg == "--chips"
    || arg == "--mints" || arg == "--maxts" || arg == "--mintot" || arg == "--maxtot"
  }

  /** The setting an option with a value overwrites. */
  function SetOption(o: Options, arg: string, v: int): (r: Options)
    requires TakesValue(arg)
    ensures r.filename == o.filename && r.quiet == o.quiet
  {
    if arg == "-l" || arg == "--layers" then o.(layers := v)
    else if arg == "-c" || arg == "--chips" then o.(chips := v)
    else if arg == "--mints" then o.(mints := v)
    else if arg == "--maxts" then o.(maxts := v)
    else if arg == "--mintot" then o.(mintot := v)
    else o.(maxtot := v)
  }

  /** A file name argument: empty, or not starting with a dash (`arg[0]` of an empty string is the terminator). */
  predicate IsFileArg(arg: string) { arg == [] || arg[0] != '-' }

  /**
   * One turn of the argument loop: how many arguments it consumes and the
   * settings after them. Only a file name argument changes the file name.
   */
  function Step(args: seq<string>, o: Options): (r: Result<(nat, Options), Failure>)
    requires args != []
    ensures r.Ok? ==> 1 <= r.value.0 <= |args|
    ensures r.Ok? ==> r.value.1.filename == o.filename || (r.value.1.filename == args[0] && IsFileArg(args[0]))
  {
    var arg := args[0];
    if arg == "-q" || arg == "--quiet" then Ok((1, o.(quiet := true)))
    else if TakesValue(arg) then
      if |args| == 1 then Err(MissingValue)
      else
        match Stoi(args[1])
        case Err(e) => Err(e)
        case Ok(v) => Ok((2, SetOption(o, arg, v)))
    else if IsFileArg(arg) then Ok((1, o.(filename := arg)))
    else Err(Usage)
  }

  /** The arguments `args` applied in order to the settings `o`. */
  function Parse(args: seq<string>, o: Options): Result<Options, Failure>
    decreases |args|
  {
    if args == [] then Ok(o)
    else
      match Step(args, o)
      case Err(e) => Err(e)
      case Ok((n, next)) => Parse(args[n..], next)
  }

  /** The whole command line: the program name, then at least one argument, and a file name among them. */
  function Configure(argv: seq<string>): (r: Result<Options, Failure>)
    ensures r.Ok? ==> r.value.filename != []
  {
    if |argv| < 2 then Err(Usage)
    else
      match Parse(argv[1..], DEFAULTS)
      case Err(e) => Err(e)
      case Ok(o) => if o.filename == [] then Err(Usage) else Ok(o)
  }

  /** The argument loop of rowcolmatch/main.cpp. */
  method ParseArgs(argv: seq<string>) returns (r: Result<Options, Failure>)
    ensures r == Configure(argv)
  {
    if |argv| < 2 {
      return Err(Usage);
    }
    var o := DEFAULTS;
    var i := 1;
    while i < |argv|
      invariant 1 <= i <= |argv|
      invariant Parse(argv[i..], o) == Parse(argv[1..], DEFAULTS)
    {
      var arg := argv[i];
      ghost var args := argv[i..];
      assert args[0] == arg;
      if arg == "-q" || arg == "--quiet" {
        o := o.(quiet := true);
      } else if TakesValue(arg) {
        i := i + 1;
        if i == |argv| {
          return Err(MissingValue);
        }
        assert args[1] == argv[i];
        var v :- Stoi(argv[i]);
        o := SetOption(o, arg, v);
      } else if IsFileArg(arg) {
        o := o.(filename := arg);
      } else {
        return Err(Usage);
      }
      i := i + 1;
      assert args[|args| - (|argv| - i)..] == argv[i..];
    }
    if o.filename == [] {
      return Err(Usage);
    }
    return Ok(o);
  }

  /** A turn of the argument loop looks at most at the arguments it consumes. */
  lemma StepConcat(a: seq<string>, b: seq<string>, o: Options)
    requires a != [] && Step(a, o).Ok?
    ensures Step(a + b, o) == Step(a, o)
  {
    assert (a + b)[0] == a[0];
    if TakesValue(a[0]) {
      assert (a + b)[1] == a[1];
    }
  }

  /** Parsing arguments one after the other: once the first ones parse, the rest start from their settings. */
  lemma {:induction false} ParseConcat(a: seq<string>, b: seq<string>, o: Options)
    requires Parse(a, o).Ok?
    ensures Parse(a + b, o) == Parse(b, Parse(a, o).value)
    decreases |a|
  {
    if a != [] {
      var (n, next) := Step(a, o).value;
      StepConcat(a, b, o);
      assert (a + b)[n..] == a[n..] + b;
      ParseConcat(a[n..], b, next);
    } else {
      assert a + b == b;
    }
  }

  /** A later file name argument replaces an earlier one. */
  lemma LastFileNameWins(args: seq<string>, f: string, o: Options)
    requires Parse(args, o).Ok? && IsFileArg(f) && f != "-q" && f != "--quiet" && !TakesValue(f)
    ensures Parse(args + [f], o) == Ok(Parse(args, o).value.(filename := f))
  {
    ParseConcat(args, [f], o);
  }

  /** A later option with a value overwrites its setting and leaves the others alone. */
  lemma OptionOverwrites(args: seq<string>, arg: string, v: string, o: Options)
    requires Parse(args, o).Ok? && TakesValue(arg) && Stoi(v).Ok?
    ensures Parse(args + [arg, v], o) == Ok(SetOption(Parse(args, o).value, arg, Stoi(v).value))
  {
    ParseConcat(args, [arg, v], o);
    assert [arg, v][2..] == [];
  }

  /** An option with a value as the last argument stops the run. */
  lemma DanglingOption(args: seq<string>, arg: string, o: Options)
    requires Parse(args, o).Ok? && TakesValue(arg)
    ensures Parse(args + [arg], o) == Err(MissingValue)
  {
    ParseConcat(args, [arg], o);
  }

  /** Any other argument starting with a dash stops the run with the usage message, whatever follows. */
  lemma UnknownOptionRejected(args: seq<string>, arg: string, rest: seq<string>, o: Options)
    requires Parse(args, o).Ok? && !IsFileArg(arg) && arg != "-q" && arg != "--quiet" && !TakesValue(arg)
    ensures Parse(args + [arg] + rest, o) == Err(Usage)
  {
    assert args + [arg] + rest == args + ([arg] + rest);
    ParseConcat(args, [arg] + rest, o);
  }

  /** The file name parsed is the starting one or a file name argument. */
  lemma {:induction false} ParsedFileName(args: seq<string>, o: Options)
    requires Parse(args, o).Ok?
    ensures var f := Parse(args, o).value.filename;
      f == o.filename || (f in args && IsFileArg(f))
    decreases |args|
  {
    if args != [] {
      var (n, next) := Step(args, o).value;
      ParsedFileName(args[n..], next);
      var f := Parse(args, o).value.filename;
      if f in args[n..] {
        var k :| 0 <= k < |args[n..]| && args[n..][k] == f;
        assert args[n + k] == f;
      }
    }
  }

  /** The output path: the file name minus its last four characters, then `_matched.csv`. */
  function OutputName(filename: string): (r: string)
    ensures |r| == (if |filename| < 4 then |filename| else |filename| - 4) + |"_matched.csv"|
    ensures r[..|r| - |"_matched.csv"|] <= filename && r[|r| - |"_matched.csv"|..] == "_matched.csv"
  {
    // size() - 4 wraps around for a name shorter than four characters, and substr keeps it whole.
    var stem := if |filename| < 4 then filename else filename[..|filename| - 4];
    stem + "_matched.csv"
  }

  /** A `.csv` input file is written beside itself with `_matched` before the extension. */
  lemma CsvOutputName(stem: string)
    ensures OutputName(stem + ".csv") == stem + "_matched.csv"
  {
    assert (stem + ".csv")[..|stem|] == stem;
  }

  // ---------------------------------------------------------------------
  // Filtering and grouping

  /** The elements of `hits` that `keep` accepts, in their order. */
  function Filter(hits: seq<HalfHit>, keep: HalfHit -> bool): (r: seq<HalfHit>)
    ensures |r| <= |hits|
  {
    if hits == [] then []
    else Filter(hits[..|hits| - 1], keep) + (if keep(hits[|hits| - 1]) then [hits[|hits| - 1]] else [])
  }

  /** The filter keeps exactly the accepted elements. */
  lemma {:induction false} FilterMembers(hits: seq<HalfHit>, keep: HalfHit -> bool, h: HalfHit)
    ensures h in Filter(hits, keep) <==> h in hits && keep(h)
    decreases |hits|
  {
    if hits != [] {
      var init := hits[..|hits| - 1];
      FilterMembers(init, keep, h);
      assert hits == init + [hits[|hits| - 1]];
    }
  }

  /** Filtering keeps order: the filter of two runs is the filter of the first, then of the second. */
  lemma {:induction false} FilterAppend(a: seq<HalfHit>, b: seq<HalfHit>, keep: HalfHit -> bool)
    ensures Filter(a + b, keep) == Filter(a, keep) + Filter(b, keep)
    decreases |b|
  {
    if b != [] {
      var init, last := b[..|b| - 1], b[|b| - 1];
      var tail := if keep(last) then [last] else [];
      assert (a + b)[..|a + b| - 1] == a + init && (a + b)[|a + b| - 1] == last;
      FilterAppend(a, init, keep);
      calc {
        Filter(a + b, keep);
        Filter(a + init, keep) + tail;
        Filter(a, keep) + Filter(init, keep) + tail;
        Filter(a, keep) + (Filter(init, keep) + tail);
        Filter(a, keep) + Filter(b, keep);
      }
    } else {
      assert a + b == a;
    }
  }

  /** The filter loop of both drivers and the group loop inside the layer/chip loops. */
  method FilterHits(hits: seq<HalfHit>, keep: HalfHit -> bool) returns (kept: seq<HalfHit>)
    ensures kept == Filter(hits, keep)
  {
    kept := [];
    for i := 0 to |hits|
      invariant kept == Filter(hits[..i], keep)
    {
      assert hits[..i + 1][..i] == hits[..i];
      if keep(hits[i]) {
        kept := kept + [hits[i]];
      }
    }
    assert hits[..|hits|] == hits;
  }

  /** rowcolmatch/main.cpp keeps payload 4 with a location below 35. */
  predicate IsValid(h: HalfHit) { h.payload == 4 && h.location < 35 }

  /** rowcolmatch/astropix3rowcol.cpp keeps a location below 35. */
  predicate InLocationRange(h: HalfHit) { h.location < 35 }

  /** The half-hits of one chip of one layer. */
  function InGroup(layer: int, chip: int): HalfHit -> bool
  {
    (h: HalfHit) => h.layer == layer && h.chipId == chip
  }

  /** The matches of each (layer, chip) group, as rowcolmatch finds them with the tests `fts` and `ftot`. */
  function GroupMatches(hits: seq<HalfHit>, fts: Test, ftot: Test): (int, int) -> seq<MatchedHit>
  {
    (layer, chip) => RowColMatch(Filter(hits, InGroup(layer, chip)), fts, ftot)
  }

  /** The matches of chips 0 to chips − 1 of one layer, chip after chip. */
  function LayerMatches(layer: int, chips: int, results: (int, int) -> seq<MatchedHit>): seq<MatchedHit>
    decreases chips
  {
    if chips <= 0 then [] else LayerMatches(layer, chips - 1, results) + results(layer, chips - 1)
  }

  /** The matches of layers 0 to layers − 1, layer after layer. */
  function AllMatches(layers: int, chips: int, results: (int, int) -> seq<MatchedHit>): seq<MatchedHit>
    decreases layers
  {
    if layers <= 0 then [] else AllMatches(layers - 1, chips, results) + LayerMatches(layers - 1, chips, results)
  }

  /** The layer and chip loops: collect each group, match it, and append its matches. */
  method MatchGroups(hits: seq<HalfHit>, layers: int, chips: int, fts: Test, ftot: Test)
    returns (allMatches: seq<MatchedHit>)
    ensures allMatches == AllMatches(layers, chips, GroupMatches(hits, fts, ftot))
  {
    allMatches := [];
    var layer := 0;
    while layer < layers
      invariant layer == 0 || layer <= layers
      invariant allMatches == AllMatches(layer, chips, GroupMatches(hits, fts, ftot))
    {
      allMatches := MatchLayer(hits, layer, chips, fts, ftot, allMatches);
      layer := layer + 1;
    }
  }

  /** The chip loop of one layer, appending to the matches of the layers before it. */
  method MatchLayer(hits: seq<HalfHit>, layer: int, chips: int, fts: Test, ftot: Test, before: seq<MatchedHit>)
    returns (allMatches: seq<MatchedHit>)
    ensures allMatches == before + LayerMatches(layer, chips, GroupMatches(hits, fts, ftot))
  {
    allMatches := before;
    var chip := 0;
    while chip < chips
      invariant chip == 0 || chip <= chips
      invariant LayerSoFar(allMatches, before, layer, chip, GroupMatches(hits, fts, ftot))
    {
      var datac := FilterHits(hits, InGroup(layer, chip));
      var matches := MatchRowsCols(datac, fts, ftot);
      ChipAppended(allMatches, before, layer, chip, GroupMatches(hits, fts, ftot));
      allMatches := allMatches + matches;
      chip := chip + 1;
    }
  }

  /** The chip loop's output so far: the earlier layers' matches, then those of chips 0 to chip − 1. */
  predicate LayerSoFar(allMatches: seq<MatchedHit>, before: seq<MatchedHit>, layer: int, chip: int,
                       results: (int, int) -> seq<MatchedHit>)
  {
    allMatches == before + LayerMatches(layer, chip, results)
  }

  /** One more chip appends the matches of its group. */
  lemma ChipAppended(allMatches: seq<MatchedHit>, before: seq<MatchedHit>, layer: int, chip: int,
                     results: (int, int) -> seq<MatchedHit>)
    requires 0 <= chip && LayerSoFar(allMatches, before, layer, chip, results)
    ensures LayerSoFar(allMatches + results(layer, chip), before, layer, chip + 1, results)
  {
  }

  /** A match of one layer comes from one chip in range. */
  lemma {:induction false} LayerMatchesFrom(layer: int, chips: int, results: (int, int) -> seq<MatchedHit>,
                                            m: MatchedHit) returns (chip: int)
    requires m in LayerMatches(layer, chips, results)
    ensures 0 <= chip < chips && m in results(layer, chip)
    decreases chips
  {
    assert 0 < chips;
    var earlier := LayerMatches(layer, chips - 1, results);
    assert m in earlier + results(layer, chips - 1);
    if m in earlier {
      chip := LayerMatchesFrom(layer, chips - 1, results, m);
    } else {
      chip := chips - 1;
    }
  }

  /** A match of the whole run comes from one chip of one layer, both in range. */
  lemma {:induction false} AllMatchesFrom(layers: int, chips: int, results: (int, int) -> seq<MatchedHit>,
                                          m: MatchedHit) returns (layer: int, chip: int)
    requires m in AllMatches(layers, chips, results)
    ensures 0 <= layer < layers && 0 <= chip < chips && m in results(layer, chip)
    decreases layers
  {
    assert 0 < layers;
    var earlier := AllMatches(layers - 1, chips, results);
    assert m in earlier + LayerMatches(layers - 1, chips, results);
    if m in earlier {
      layer, chip := AllMatchesFrom(layers - 1, chips, results, m);
    } else {
      layer := layers - 1;
      chip := LayerMatchesFrom(layer, chips, results, m);
    }
  }

  /**
   * Every match of the grouped run is the pair of a row and a column that
   * both pass `keep`, share the match's layer and chip, lie in the layer
   * and chip ranges looped over, and pass both tests.
   */
  lemma GroupedMatchSound(hits: seq<HalfHit>, keep: HalfHit -> bool, layers: int, chips: int,
                          fts: Test, ftot: Test, m: MatchedHit)
    requires m in AllMatches(layers, chips, GroupMatches(Filter(hits, keep), fts, ftot))
    ensures 0 <= m.layer < layers && 0 <= m.chipId < chips
    ensures exists r, c ::
      && r in hits && c in hits && keep(r) && keep(c) && IsRow(r) && IsColumn(c)
      && r.layer == c.layer == m.layer && r.chipId == c.chipId == m.chipId
      && fts(r.timestamp, c.timestamp) && ftot(r.totTotal, c.totTotal) && m == Pair(r, c)
  {
    var dataf := Filter(hits, keep);
    var layer, chip := AllMatchesFrom(layers, chips, GroupMatches(dataf, fts, ftot), m);
    var group := Filter(dataf, InGroup(layer, chip));
    MatchedIff(group, |group|, fts, ftot, m);
    var k: nat, j: nat :| k < |group| && Witnessed(group, k, j, fts, ftot, m);
    var r, c := group[k], group[j];
    FilterMembers(dataf, InGroup(layer, chip), r);
    FilterMembers(dataf, InGroup(layer, chip), c);
    FilterMembers(hits, keep, r);
    FilterMembers(hits, keep, c);
  }

  // ---------------------------------------------------------------------
  // The two drivers

  /** What a successful run writes: the output path and the matches, in order. */
  datatype Outcome = Outcome(path: string, matches: seq<MatchedHit>)

  /** The tests both drivers build: lo <= row − column <= hi. */
  function Window(lo: int, hi: int): Test { (x, y) => Within(lo, hi, x, y) }

  /** What rowcolmatch/main.cpp does with the command line `argv` and the half-hits its file holds. */
  function Run(argv: seq<string>, hits: seq<HalfHit>): Result<Outcome, Failure>
  {
    match Configure(argv)
    case Err(e) => Err(e)
    case Ok(o) =>
      Ok(Outcome(OutputName(o.filename), AllMatches(o.layers, o.chips,
        GroupMatches(Filter(hits, IsValid), Window(o.mints, o.maxts), Window(o.mintot, o.maxtot)))))
  }

  /** The body of rowcolmatch/main.cpp, with the file's half-hits given and the CSV writing left out. */
  method RowColMatchMain(argv: seq<string>, hits: seq<HalfHit>) returns (r: Result<Outcome, Failure>)
    ensures r == Run(argv, hits)
  {
    var o :- ParseArgs(argv);
    var dataf := FilterHits(hits, IsValid);
    var allMatches := MatchGroups(dataf, o.layers, o.chips, Window(o.mints, o.maxts), Window(o.mintot, o.maxtot));
    return Ok(Outcome(OutputName(o.filename), allMatches));
  }

  /**
   * A successful run of rowcolmatch/main.cpp writes beside its input file,
   * and each match it writes pairs a valid row with a valid column of the
   * same layer and chip within the loop ranges, whose differences lie
   * within both inclusive windows.
   */
  lemma RunSound(argv: seq<string>, hits: seq<HalfHit>, m: MatchedHit)
    requires Run(argv, hits).Ok?
    ensures var o := Configure(argv).value;
      Run(argv, hits).value.path == OutputName(o.filename)
      && (m in Run(argv, hits).value.matches ==>
        && 0 <= m.layer < o.layers && 0 <= m.chipId < o.chips
        && m.row < 35 && m.col < 35
        && Within(o.mints, o.maxts, m.rowTimestamp, m.colTimestamp)
        && Within(o.mintot, o.maxtot, m.rowTot, m.colTot))
  {
    var o := Configure(argv).value;
    if m in Run(argv, hits).value.matches {
      GroupedMatchSound(hits, IsValid, o.layers, o.chips, Window(o.mints, o.maxts), Window(o.mintot, o.maxtot), m);
    }
  }

  /** A plain command line: program name and file name, every other setting at its default. */
  lemma FileNameOnly(f: string)
    requires f != [] && f[0] != '-'
    ensures Configure(["rowcolmatch", f]) == Ok(DEFAULTS.(filename := f))
  {
    assert ["rowcolmatch", f][1..] == [f];
    assert [f][0] == f && [f][1..] == [];
    assert f != "-q" && f != "--quiet" && !TakesValue(f) by {
      assert "-q"[0] == "--quiet"[0] == "-l"[0] == "--layers"[0] == "-c"[0] == "--chips"[0] == '-';
      assert "--mints"[0] == "--maxts"[0] == "--mintot"[0] == "--maxtot"[0] == '-';
    }
    assert Parse([f], DEFAULTS) == Parse([], DEFAULTS.(filename := f));
  }

  /** What the `main` of rowcolmatch/astropix3rowcol.cpp computes from its arguments and half-hits. */
  function AstropixRun(argv: seq<string>, hits: seq<HalfHit>): Result<seq<MatchedHit>, Failure>
  {
    if |argv| < 2 then Err(Usage)
    else Ok(AllMatches(3, 4, GroupMatches(Filter(hits, InLocationRange), Window(0, 1), Window(6, 15))))
  }

  /** The body of the `main` of rowcolmatch/astropix3rowcol.cpp, with its half-hits given. */
  method AstropixMain(argv: seq<string>, hits: seq<HalfHit>) returns (r: Result<seq<MatchedHit>, Failure>)
    ensures r == AstropixRun(argv, hits)
  {
    if |argv| < 2 {
      return Err(Usage);
    }
    var layers, chips := 3, 4;
    var mints, maxts := 0, 1;
    var mintot, maxtot := 6, 15;
    var dataf := FilterHits(hits, InLocationRange);
    var allMatches := MatchGroups(dataf, layers, chips, Window(mints, maxts), Window(mintot, maxtot));
    return Ok(allMatches);
  }

  /**
   * With no half-hits, as in the `main` of rowcolmatch/astropix3rowcol.cpp
   * where `data` is declared and never filled, a run matches nothing.
   */
  lemma AstropixNoData(argv: seq<string>)
    requires |argv| >= 2
    ensures AstropixRun(argv, []) == Ok([])
  {
    var results := GroupMatches(Filter([], InLocationRange), Window(0, 1), Window(6, 15));
    assert Filter([], InLocationRange) == [];
    forall layer, chip
      ensures results(layer, chip) == []
    {
      assert Filter([], InGroup(layer, chip)) == [];
    }
  }
}
