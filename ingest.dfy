/** The bronze-to-silver ingest driver: which bronze CSV names it accepts,
    what it reads out of them, where it writes each one, and the loop that
    counts successes and failures. The per-file ingest call is a parameter. */
module Ingest {
  import opened Wrappers
  import opened Sorting

  // ---------------------------------------------------------------------
  // File names

  /** The fixed text between the market type and the symbol. */
  const Infix: string := "_ohlcv_1d__cryptoquant_agg__"
  const Extension: string := ".csv"

  /** What a matching name yields: `market_type` and `symbol`. */
  datatype Parsed = Parsed(marketType: string, symbol: string)

  predicate ValidMarketType(mt: string) {
    mt == "spot" || mt == "perp"
  }

  /** A symbol the pattern's `.+` can capture: non-empty, no line break. */
  predicate ValidSymbol(symbol: string) {
    |symbol| > 0 && '\n' !in symbol
  }

  /** The bronze name of a market type and symbol. */
  function FileName(p: Parsed): string {
    p.marketType + Infix + p.symbol + Extension
  }

  /** The pattern after the infix: a non-empty symbol without a line break,
      then `ext` at the end of `body` or just before a final line break
      (where the pattern's `$` also matches). */
  function MatchSymbol(body: string, ext: string): (r: Option<string>)
    requires |ext| > 0 && ext[|ext| - 1] != '\n'
    ensures r.Some? ==> ValidSymbol(r.value)
    ensures r.Some? ==> body == r.value + ext || body == r.value + ext + "\n"
  {
    var tail := if |body| > 0 && body[|body| - 1] == '\n' then |ext| + 1 else |ext|;
    if |body| < tail || body[|body| - tail..|body| - tail + |ext|] != ext then None
    else
      var symbol := body[..|body| - tail];
      if !ValidSymbol(symbol) then None
      else
        assert body == symbol + body[|body| - tail..];
        Some(symbol)
  }

  /** The pattern with its fixed infix and extension as parameters: `spot`
      or `perp`, then `infix`, then what `MatchSymbol` accepts. */
  function MatchParts(name: string, infix: string, ext: string): (r: Option<Parsed>)
    requires |ext| > 0 && ext[|ext| - 1] != '\n'
    ensures r.Some? ==> ValidMarketType(r.value.marketType) && ValidSymbol(r.value.symbol)
    ensures r.Some? ==>
      var named := r.value.marketType + infix + r.value.symbol + ext;
      name == named || name == named + "\n"
  {
    if |name| < 4 || !ValidMarketType(name[..4]) then None
    else
      var rest := name[4..];
      if |rest| < |infix| || rest[..|infix|] != infix then None
      else
        match MatchSymbol(rest[|infix|..], ext)
        case None => None
        case Some(symbol) =>
          assert name == name[..4] + infix + rest[|infix|..];
          Some(Parsed(name[..4], symbol))
  }

  /** `PATTERN.match(name)`. */
  function MatchName(name: string): (r: Option<Parsed>)
    ensures r.Some? ==> ValidMarketType(r.value.marketType) && ValidSymbol(r.value.symbol)
    ensures r.Some? ==> name == FileName(r.value) || name == FileName(r.value) + "\n"
  {
    MatchParts(name, Infix, Extension)
  }

  /** `name` is the bronze name of the valid `p`, possibly followed by one
      line break. */
  predicate Encodes(name: string, p: Parsed) {
    && ValidMarketType(p.marketType) && ValidSymbol(p.symbol)
    && (name == FileName(p) || name == FileName(p) + "\n")
  }

  lemma SplitAt(x: string, y: string)
    ensures (x + y)[..|x|] == x && (x + y)[|x|..] == y
  {
  }

  /** `MatchSymbol` recovers the symbol a body was built from, whatever
      the symbol contains. */
  lemma ParseSymbol(symbol: string, ext: string, suffix: string)
    requires |ext| > 0 && ext[|ext| - 1] != '\n'
    requires ValidSymbol(symbol)
    requires suffix == ext || suffix == ext + "\n"
    ensures MatchSymbol(symbol + suffix, ext) == Some(symbol)
  {
    var body := symbol + suffix;
    var tail := |suffix|;
    assert body[|body| - 1] == suffix[|suffix| - 1];
    assert tail == if |body| > 0 && body[|body| - 1] == '\n' then |ext| + 1 else |ext|;
    SplitAt(symbol, suffix);
    assert body[|body| - tail..|body| - tail + |ext|] == suffix[..|ext|] == ext;
  }

  /** `MatchParts` recovers the market type and symbol a name was built
      from. */
  lemma ParseParts(name: string, infix: string, ext: string, p: Parsed, suffix: string)
    requires |ext| > 0 && ext[|ext| - 1] != '\n'
    requires ValidMarketType(p.marketType) && ValidSymbol(p.symbol)
    requires suffix == ext || suffix == ext + "\n"
    requires name == p.marketType + infix + p.symbol + suffix
    ensures MatchParts(name, infix, ext) == Some(p)
  {
    var body := p.symbol + suffix;
    assert |p.marketType| == 4;
    assert name == p.marketType + (infix + body);
    SplitAt(p.marketType, infix + body);
    SplitAt(infix, body);
    ParseSymbol(p.symbol, ext, suffix);
  }

  /** Every such name parses back to the market type and symbol it was made
      from (a symbol may itself contain `.csv`). */
  lemma ParseEncoded(name: string, p: Parsed)
    requires Encodes(name, p)
    ensures MatchName(name) == Some(p)
  {
    if name == FileName(p) {
      ParseParts(name, Infix, Extension, p, Extension);
    } else {
      assert name == p.marketType + Infix + p.symbol + (Extension + "\n");
      ParseParts(name, Infix, Extension, p, Extension + "\n");
    }
  }

  /** A name matches iff it is the bronze name of some market type and
      symbol, possibly followed by one line break. */
  lemma MatchIffFileName(name: string)
    ensures MatchName(name).Some? <==> exists p: Parsed :: Encodes(name, p)
  {
    if p: Parsed :| Encodes(name, p) {
      ParseEncoded(name, p);
    }
    if MatchName(name).Some? {
      assert Encodes(name, MatchName(name).value);
    }
  }

  // ---------------------------------------------------------------------
  // Output paths

  const SilverRoot: seq<string> := ["data", "silver", "bars"]

  /** The partition path of a parsed name, one path component per entry. */
  function OutPath(p: Parsed): (path: seq<string>)
    ensures |path| == 8 && path[..3] == SilverRoot
    ensures path[3] == "exchange=cryptoquant_agg" && path[5] == "timeframe=1d"
    ensures path[4] == "market_type=" + p.marketType && path[6] == "symbol=" + p.symbol
    ensures path[7] == "part-000.parquet"
  {
    SilverRoot + ["exchange=cryptoquant_agg", "market_type=" + p.marketType,
                  "timeframe=1d", "symbol=" + p.symbol, "part-000.parquet"]
  }

  lemma DropPrefix(prefix: string, a: string, b: string)
    requires prefix + a == prefix + b
    ensures a == b
  {
    assert a == (prefix + a)[|prefix|..];
    assert b == (prefix + b)[|prefix|..];
  }

  /** Two different market types or symbols never share an output file. */
  lemma OutPathInjective(p: Parsed, q: Parsed)
    requires OutPath(p) == OutPath(q)
    ensures p == q
  {
    DropPrefix("market_type=", p.marketType, q.marketType);
    DropPrefix("symbol=", p.symbol, q.symbol);
  }

  // ---------------------------------------------------------------------
  // `sorted`: names in code-point order

  /** Lexicographic order on names, character by character. */
  predicate LexLe(a: string, b: string)
    decreases |a|
  {
    a == [] || (b != [] && (a[0] < b[0] || (a[0] == b[0] && LexLe(a[1..], b[1..]))))
  }

  lemma {:induction false} LexLeTotal(a: string, b: string)
    ensures LexLe(a, b) || LexLe(b, a)
    decreases |a|
  {
    if a != [] && b != [] && a[0] == b[0] {
      LexLeTotal(a[1..], b[1..]);
    }
  }

  lemma {:induction false} LexLeTransitive(a: string, b: string, c: string)
    requires LexLe(a, b) && LexLe(b, c)
    ensures LexLe(a, c)
    decreases |a|
  {
    if a != [] && a[0] == b[0] && b[0] == c[0] {
      LexLeTransitive(a[1..], b[1..], c[1..]);
    }
  }

  /** Two names ordered both ways are the same name, so the sorted order of
      distinct names is unique. */
  lemma {:induction false} LexLeAntisymmetric(a: string, b: string)
    requires LexLe(a, b) && LexLe(b, a)
    ensures a == b
    decreases |a|
  {
    if a != [] {
      LexLeAntisymmetric(a[1..], b[1..]);
      assert a == [a[0]] + a[1..] && b == [b[0]] + b[1..];
    }
  }

  lemma LexLeIsTotalPreorder()
    ensures TotalPreorder(LexLe)
  {
    forall a, b ensures LexLe(a, b) || LexLe(b, a) {
      LexLeTotal(a, b);
    }
    forall a, b, c | LexLe(a, b) && LexLe(b, c) ensures LexLe(a, c) {
      LexLeTransitive(a, b, c);
    }
  }

  function Matching(names: seq<string>): (r: seq<string>)
    ensures forall x :: x in r ==> MatchName(x).Some?
    ensures multiset(r) <= multiset(names)
    ensures forall i :: 0 <= i < |names| && MatchName(names[i]).Some? ==> names[i] in r
    ensures forall x :: multiset(r)[x] == if MatchName(x).Some? then multiset(names)[x] else 0
  {
    if names == [] then []
    else
      assert names == [names[0]] + names[1..];
      (if MatchName(names[0]).Some? then [names[0]] else []) + Matching(names[1..])
  }

  /** `sorted([p for p in listing if PATTERN.match(p.name)])`: the matching
      names, each as often as it is listed, in code-point order. */
  function MatchingFiles(listing: seq<string>): (r: seq<string>)
    ensures multiset(r) == multiset(Matching(listing))
    ensures forall x :: multiset(r)[x] == if MatchName(x).Some? then multiset(listing)[x] else 0
    ensures forall x :: x in r <==> x in listing && MatchName(x).Some?
    ensures SortedBy(r, LexLe)
  {
    LexLeIsTotalPreorder();
    var r := InsertionSort(Matching(listing), LexLe);
    assert forall x :: x in r <==> x in Matching(listing) by {
      forall x ensures x in r <==> x in Matching(listing) {
        assert x in r <==> x in multiset(r);
      }
    }
    assert forall x :: x in Matching(listing) ==> x in listing by {
      forall x | x in Matching(listing) ensures x in listing {
        assert x in multiset(Matching(listing));
      }
    }
    r
  }

  // ---------------------------------------------------------------------
  // `main`

  /** One line of the run's log: the file, where it was written and whether
      the ingest call returned normally. */
  datatype Attempt = Attempt(name: string, outPath: seq<string>, succeeded: bool)

  datatype Tally = Tally(ok: nat, failed: nat, log: seq<Attempt>)

  /** The `SystemExit` raised when nothing matches. */
  datatype IngestError = NoMatchingFiles

  /** The attempt the loop makes for a matching name. */
  function AttemptFor(name: string, ingest: (string, seq<string>) -> bool): Attempt
    requires MatchName(name).Some?
  {
    var out := OutPath(MatchName(name).value);
    Attempt(name, out, ingest(name, out))
  }

  function Successes(log: seq<Attempt>): (n: nat)
    ensures n <= |log|
  {
    if log == [] then 0
    else (if log[0].succeeded then 1 else 0) + Successes(log[1..])
  }

  lemma SuccessesAppend(log: seq<Attempt>, a: Attempt)
    ensures Successes(log + [a]) == Successes(log) + (if a.succeeded then 1 else 0)
  {
    if log != [] {
      assert (log + [a])[1..] == log[1..] + [a];
      SuccessesAppend(log[1..], a);
    }
  }

  /** All names of a listing match the pattern. */
  predicate AllMatch(files: seq<string>) {
    forall x :: x in files ==> MatchName(x).Some?
  }

  /** The attempts for `files`, one per name and in order. */
  predicate LogsAttempts(log: seq<Attempt>, files: seq<string>, ingest: (string, seq<string>) -> bool)
    requires AllMatch(files) && |log| <= |files|
  {
    forall k :: 0 <= k < |log| ==> files[k] in files && log[k] == AttemptFor(files[k], ingest)
  }

  lemma LogsAttemptsAppend(log: seq<Attempt>, files: seq<string>, ingest: (string, seq<string>) -> bool, a: Attempt)
    requires AllMatch(files) && |log| < |files| && LogsAttempts(log, files, ingest)
    requires files[|log|] in files && a == AttemptFor(files[|log|], ingest)
    ensures LogsAttempts(log + [a], files, ingest)
  {
  }

  /** The `for` loop of `main`: one attempt per file, in order, each counted
      as exactly one success or one failure. */
  method TryAll(files: seq<string>, ingest: (string, seq<string>) -> bool) returns (t: Tally)
    requires AllMatch(files)
    ensures |t.log| == |files| && LogsAttempts(t.log, files, ingest)
    ensures t.ok == Successes(t.log) && t.ok + t.failed == |files|
  {
    var ok, failed := 0, 0;
    var log: seq<Attempt> := [];
    for i := 0 to |files|
      invariant |log| == i && LogsAttempts(log, files, ingest)
      invariant ok == Successes(log)
      invariant ok + failed == i
    {
      var name := files[i];
      assert name in files;
      var parsed := MatchName(name).value;
      var out := OutPath(parsed);
      var attempt := Attempt(name, out, ingest(name, out));
      LogsAttemptsAppend(log, files, ingest, attempt);
      SuccessesAppend(log, attempt);
      if attempt.succeeded {
        ok := ok + 1;
      } else {
        failed := failed + 1;
      }
      log := log + [attempt];
    }
    return Tally(ok, failed, log);
  }

  /** `main` over a directory listing: stops when nothing matches; otherwise
      tries every matching file once, in sorted order, and counts each try as
      exactly one success or one failure. `ingest` stands for
      `ingest_spot_csv_to_parquet` returning normally. */
  method IngestAll(listing: seq<string>, ingest: (string, seq<string>) -> bool) returns (r: Result<Tally, IngestError>)
    ensures MatchingFiles(listing) == [] <==> r == Failure(NoMatchingFiles)
    ensures r.Success? ==>
      && |r.value.log| == |MatchingFiles(listing)|
      && AllMatch(MatchingFiles(listing))
      && LogsAttempts(r.value.log, MatchingFiles(listing), ingest)
      && r.value.ok == Successes(r.value.log)
      && r.value.ok + r.value.failed == |MatchingFiles(listing)|
  {
    var files := MatchingFiles(listing);
    if files == [] {
      return Failure(NoMatchingFiles);
    }
    var t := TryAll(files, ingest);
    return Success(t);
  }
}
