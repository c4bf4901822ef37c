/**
 * The line parser: the class-keyed pattern repository loaded from the
 * pattern file, the six-field log-line tokenizer, and the matcher that
 * picks the first full match from the class's bucket or, when that bucket
 * is empty, from the default-class bucket.
 */
module LogParser {
  import opened Wrappers
  import opened JavaText
  import opened LogStatements

  /** The ordered multimap `logStatements`: class name to its statements in load order. */
  type Repository = map<string, seq<LogStatement>>

  /** `get` of the multimap: the empty bucket for a class never put. */
  function Bucket(repo: Repository, clazz: string): seq<LogStatement>
  {
    if clazz in repo then repo[clazz] else []
  }

  /** Every statement sits in the bucket of its own class. */
  predicate KeyedByClass(repo: Repository)
  {
    forall k, i :: k in repo && 0 <= i < |repo[k]| ==> repo[k][i].clazz == k
  }

  /**
   * The record of one pattern-file line: kept only when it splits into
   * exactly three tokens.
   */
  function LoadRecord(line: string): (r: Option<LogStatement>)
    ensures r.Some? <==> |Split(line)| == 3
    ensures r.Some? ==> Bar !in r.value.level && Bar !in r.value.clazz && Bar !in r.value.pattern
    ensures r.Some? ==> r.value.pattern != ""
    ensures r.Some? ==> r.value == LogStatement(Split(line)[0], Split(line)[1], Split(line)[2])
  {
    var tokens := Split(line);
    if |tokens| == 3 then Some(LogStatement(tokens[0], tokens[1], tokens[2])) else None
  }

  /**
   * The converse of reloading a written record: a line that loads is the
   * written form of its statement, followed only by the trailing delimiters
   * that `split` drops.
   */
  lemma LoadedLineIsSerialized(line: string)
    ensures LoadRecord(line).Some? ==> exists m: nat :: line == Serialize(LoadRecord(line).value) + Bars(m)
  {
    var tokens := Split(line);
    if |tokens| == 3 {
      SplitRejoins(line);
      assert tokens[1..][1..] == [tokens[2]];
      assert Join(tokens[1..]) == tokens[1] + [Bar] + Join([tokens[2]]);
      assert Join(tokens) == tokens[0] + [Bar] + (tokens[1] + [Bar] + tokens[2]);
      assert Join(tokens) == Serialize(LoadRecord(line).value);
    }
  }

  /** `put` of the multimap: the statement joins the end of its class's bucket. */
  function Append(repo: Repository, s: LogStatement): Repository
  {
    repo[s.clazz := Bucket(repo, s.clazz) + [s]]
  }

  /**
   * `split` drops a trailing empty field, so a pattern line with an empty
   * pattern, such as `info|Foo|`, is two tokens and is skipped.
   */
  lemma EmptyPatternLineSkipped(level: string, clazz: string)
    requires Bar !in level && Bar !in clazz && clazz != ""
    ensures Split(level + [Bar] + clazz + [Bar]) == [level, clazz]
    ensures LoadRecord(level + [Bar] + clazz + [Bar]).None?
  {
    var line := level + [Bar] + clazz + [Bar];
    PiecesOfEmptyPattern(level, clazz);
    assert line[|level|] == Bar;
    assert DropTrailingEmpty([level, clazz, ""]) == [level, clazz];
  }

  /** The pieces of such a line: level, class and an empty last one. */
  lemma PiecesOfEmptyPattern(level: string, clazz: string)
    requires Bar !in level && Bar !in clazz
    ensures Pieces(level + [Bar] + clazz + [Bar]) == [level, clazz, ""]
  {
    assert Pieces("") == [""];
    assert clazz + [Bar] == clazz + [Bar] + "";
    PiecesAfterBarFreePrefix(clazz, "");
    assert level + [Bar] + clazz + [Bar] == level + [Bar] + (clazz + [Bar]);
    PiecesAfterBarFreePrefix(level, clazz + [Bar]);
  }

  /** The repository after loading one line: its statement, if any, joins its bucket. */
  function Load(repo: Repository, line: string): Repository
  {
    match LoadRecord(line)
    case Some(s) => Append(repo, s)
    case None => repo
  }

  /** The repository after loading `lines` in order, every pattern compiling. */
  function Populate(repo: Repository, lines: seq<string>): Repository
  {
    if |lines| == 0 then repo
    else Load(Populate(repo, lines[..|lines| - 1]), lines[|lines| - 1])
  }

  /** One more line of the file: the repository grows by that line's statement, if any. */
  lemma PopulateStep(repo: Repository, lines: seq<string>, i: nat)
    requires i < |lines|
    ensures Populate(repo, lines[..i + 1]) == Load(Populate(repo, lines[..i]), lines[i])
  {
    assert lines[..i + 1][..i] == lines[..i];
  }

  /** Appending a statement to its own class's bucket keeps the repository keyed by class. */
  lemma AppendKeyed(repo: Repository, s: LogStatement)
    requires KeyedByClass(repo)
    ensures KeyedByClass(Append(repo, s))
  {
  }

  /** The statement of `line`, if it has one and it belongs to `clazz`. */
  function KeptLine(line: string, clazz: string): seq<LogStatement>
  {
    var r := LoadRecord(line);
    if r.Some? && r.value.clazz == clazz then [r.value] else []
  }

  /** The statements of `lines` that belong to `clazz`, in line order. */
  function Kept(lines: seq<string>, clazz: string): seq<LogStatement>
  {
    if |lines| == 0 then [] else Kept(lines[..|lines| - 1], clazz) + KeptLine(lines[|lines| - 1], clazz)
  }

  /** Loading one line adds to the bucket of `clazz` exactly that line's statement of that class. */
  lemma BucketAfterLoad(repo: Repository, line: string, clazz: string)
    ensures Bucket(Load(repo, line), clazz) == Bucket(repo, clazz) + KeptLine(line, clazz)
  {
  }

  /** A line the load gets past: malformed, or with a pattern that compiles. */
  predicate Loadable(line: string, compiles: string -> bool)
  {
    LoadRecord(line).None? || compiles(LoadRecord(line).value.pattern)
  }

  /**
   * The first line kept for loading whose pattern `Pattern.compile` rejects;
   * its exception ends the load.
   */
  function FirstUncompilable(lines: seq<string>, compiles: string -> bool): (r: Option<nat>)
    ensures r.Some? ==> r.value < |lines| && !Loadable(lines[r.value], compiles)
    ensures r.Some? ==> LoadsPast(lines, compiles, r.value)
    ensures r.None? ==> LoadsPast(lines, compiles, |lines|)
  {
    if |lines| == 0 then None
    else if !Loadable(lines[0], compiles) then Some(0)
    else
      match FirstUncompilable(lines[1..], compiles)
      case None => None
      case Some(i) => Some(i + 1)
  }

  /** The load gets past each of the first `i` lines. */
  predicate LoadsPast(lines: seq<string>, compiles: string -> bool, i: nat)
  {
    forall k :: 0 <= k < i && k < |lines| ==> Loadable(lines[k], compiles)
  }

  /** Getting past line `i` as well extends `LoadsPast` by one line. */
  lemma LoadsPastStep(lines: seq<string>, compiles: string -> bool, i: nat)
    requires i < |lines| && LoadsPast(lines, compiles, i) && Loadable(lines[i], compiles)
    ensures LoadsPast(lines, compiles, i + 1)
  {
  }

  /** The load stops at line `i` when it gets past every line before it and not past `i`. */
  lemma FirstUncompilableAt(lines: seq<string>, compiles: string -> bool, i: nat)
    requires i < |lines| && !Loadable(lines[i], compiles) && LoadsPast(lines, compiles, i)
    ensures FirstUncompilable(lines, compiles) == Some(i)
  {
  }

  /** The load gets past every line: nothing stops it. */
  lemma FirstUncompilableNone(lines: seq<string>, compiles: string -> bool)
    requires LoadsPast(lines, compiles, |lines|)
    ensures FirstUncompilable(lines, compiles) == None
  {
  }

  /**
   * Loading appends each kept statement to its own class's bucket in line
   * order and changes nothing else.
   */
  lemma {:induction false} PopulateBucket(repo: Repository, lines: seq<string>, clazz: string)
    ensures Bucket(Populate(repo, lines), clazz) == Bucket(repo, clazz) + Kept(lines, clazz)
  {
    if |lines| > 0 {
      var n := |lines| - 1;
      var before := Populate(repo, lines[..n]);
      calc {
        Bucket(Populate(repo, lines), clazz);
        Bucket(Load(before, lines[n]), clazz);
        { BucketAfterLoad(before, lines[n], clazz); }
        Bucket(before, clazz) + KeptLine(lines[n], clazz);
        { PopulateBucket(repo, lines[..n], clazz); }
        Bucket(repo, clazz) + Kept(lines[..n], clazz) + KeptLine(lines[n], clazz);
        Bucket(repo, clazz) + Kept(lines, clazz);
      }
    }
  }

  /** Loading keeps every statement in the bucket of its own class. */
  lemma {:induction false} PopulateKeyed(repo: Repository, lines: seq<string>)
    requires KeyedByClass(repo)
    ensures KeyedByClass(Populate(repo, lines))
  {
    if |lines| > 0 {
      PopulateKeyed(repo, lines[..|lines| - 1]);
    }
  }

  /** The class and message columns of a raw log line. */
  datatype LineFields = LineFields(message: string, clazz: string)

  /**
   * `parseLogLine` up to its call of `parse`: only a line of exactly six
   * tokens is used, its message and class trimmed.
   */
  function LogLineFields(line: string): (r: Option<LineFields>)
    ensures r.Some? <==> |Split(line)| == 6
    ensures r.Some? ==> r.value.message == Trim(Split(line)[5]) && r.value.clazz == Trim(Split(line)[3])
    ensures r.Some? ==> Trimmed(r.value.message) && Trimmed(r.value.clazz)
    ensures r.Some? ==> Bar !in r.value.message && Bar !in r.value.clazz
  {
    var tokens := Split(line);
    if |tokens| == 6 then Some(LineFields(Trim(tokens[5]), Trim(tokens[3]))) else None
  }

  /**
   * What the regular-expression engine reports for a full match: the
   * pattern's group count and each group's text, null for a group that took
   * no part in the match.
   */
  datatype MatchResult = MatchResult(groupCount: nat, group: nat -> Option<string>)

  /** `Pattern.compile(pattern).matcher(message).matches()`, left abstract. */
  type FullMatcher = (string, string) -> Option<MatchResult>

  /** The parse result; the three optional fields are null when nothing matched. */
  datatype ParsedLog = ParsedLog(log: string, clazz: Option<string>, regEx: Option<string>,
                                 matches: Option<seq<Option<string>>>)

  /** The bucket searched: the class's own, or the default class's when that is empty. */
  function Candidates(repo: Repository, clazz: string): (r: seq<LogStatement>)
    ensures |Bucket(repo, clazz)| > 0 ==> r == Bucket(repo, clazz)
    ensures |Bucket(repo, clazz)| == 0 ==> r == Bucket(repo, DefaultClass)
    ensures |r| == 0 <==> |Bucket(repo, clazz)| == 0 && |Bucket(repo, DefaultClass)| == 0
  {
    if |Bucket(repo, clazz)| > 0 then Bucket(repo, clazz) else Bucket(repo, DefaultClass)
  }

  /** The position of the first statement whose pattern fully matches. */
  function FirstMatch(bucket: seq<LogStatement>, message: string, fullMatch: FullMatcher): (r: Option<nat>)
    ensures r.Some? ==> r.value < |bucket| && fullMatch(bucket[r.value].pattern, message).Some?
    ensures r.Some? ==> forall k :: 0 <= k < r.value ==> fullMatch(bucket[k].pattern, message).None?
    ensures r.None? ==> forall k :: 0 <= k < |bucket| ==> fullMatch(bucket[k].pattern, message).None?
  {
    if |bucket| == 0 then None
    else if fullMatch(bucket[0].pattern, message).Some? then Some(0)
    else
      match FirstMatch(bucket[1..], message, fullMatch)
      case None => None
      case Some(i) => Some(i + 1)
  }

  /** Groups 1 to n at positions 0 to n - 1, or null for a pattern without groups. */
  function Captures(m: MatchResult): (r: Option<seq<Option<string>>>)
    ensures r.None? <==> m.groupCount == 0
    ensures r.Some? ==> |r.value| == m.groupCount
  {
    if m.groupCount > 0 then Some(seq(m.groupCount, k requires 0 <= k => m.group(k + 1))) else None
  }

  /**
   * The group array of a match in `parse`: groups 1 to n copied into a new
   * array at positions 0 to n - 1, or null when the pattern has no groups.
   */
  method Groups(m: MatchResult) returns (matches: Option<seq<Option<string>>>)
    ensures matches == Captures(m)
  {
    matches := None;
    if m.groupCount > 0 {
      var groups := new Option<string>[m.groupCount];
      for g := 1 to m.groupCount + 1
        invariant forall k :: 0 <= k < g - 1 ==> groups[k] == m.group(k + 1)
      {
        groups[g - 1] := m.group(g);
      }
      assert |Captures(m).value| == m.groupCount;
      assert groups[..] == Captures(m).value;
      matches := Some(groups[..]);
    }
  }

  /** The record of a message matched by `s`. */
  function MatchedRecord(message: string, s: LogStatement, m: MatchResult): ParsedLog
  {
    ParsedLog(message, Some(s.clazz), Some(s.pattern), Captures(m))
  }

  /** The record left when the bucket is not empty but nothing in it matched. */
  function UnmatchedRecord(message: string): ParsedLog
  {
    ParsedLog(message, None, None, None)
  }

  /** What `parse` returns for a message and class. */
  function ParseResult(repo: Repository, message: string, clazz: string, fullMatch: FullMatcher): (r: Option<ParsedLog>)
    ensures r.None? <==> |Candidates(repo, clazz)| == 0
    ensures r.Some? ==> r.value.log == message
    ensures r.Some? ==> (r.value.clazz.Some? <==> r.value.regEx.Some?)
    ensures r.Some? && r.value.regEx.None? ==> r.value.matches.None?
  {
    var bucket := Candidates(repo, clazz);
    if |bucket| == 0 then None
    else
      match FirstMatch(bucket, message, fullMatch)
      case None => Some(UnmatchedRecord(message))
      case Some(i) => Some(MatchedRecord(message, bucket[i], fullMatch(bucket[i].pattern, message).value))
  }

  /** What `parseLogLine` returns for a raw line. */
  function ParseLine(repo: Repository, line: string, fullMatch: FullMatcher): Option<ParsedLog>
  {
    match LogLineFields(line)
    case None => None
    case Some(f) => ParseResult(repo, f.message, f.clazz, fullMatch)
  }

  /** What one line adds to the parsed logs: its result when it is not null. */
  function Contribution(repo: Repository, line: string, fullMatch: FullMatcher): seq<ParsedLog>
  {
    var r := ParseLine(repo, line, fullMatch);
    if r.Some? then [r.value] else []
  }

  /** What `part` adds for each of `lines`, in line order. */
  function Collect(part: string -> seq<ParsedLog>, lines: seq<string>): seq<ParsedLog>
  {
    if |lines| == 0 then [] else Collect(part, lines[..|lines| - 1]) + part(lines[|lines| - 1])
  }

  /** The records of the non-null results of `lines`, in line order. */
  function ParsedAll(repo: Repository, lines: seq<string>, fullMatch: FullMatcher): seq<ParsedLog>
  {
    Collect(line => Contribution(repo, line, fullMatch), lines)
  }

  /** The lines of the files, file after file. */
  function Flatten(files: seq<seq<string>>): seq<string>
  {
    if |files| == 0 then [] else Flatten(files[..|files| - 1]) + files[|files| - 1]
  }

  /**
   * The result is null exactly when both the class's bucket and the
   * default-class bucket are empty; it always carries the message.
   */
  lemma ParseNullExactlyWithoutCandidates(repo: Repository, message: string, clazz: string, fullMatch: FullMatcher)
    ensures ParseResult(repo, message, clazz, fullMatch).None? <==>
              |Bucket(repo, clazz)| == 0 && |Bucket(repo, DefaultClass)| == 0
    ensures ParseResult(repo, message, clazz, fullMatch).Some? ==>
              ParseResult(repo, message, clazz, fullMatch).value.log == message
  {
  }

  /**
   * A result always carries the message, and a matched one names the
   * searched bucket's class: the class itself, or `Default-Class` under
   * fallback.
   */
  lemma ParseResultClass(repo: Repository, message: string, clazz: string, fullMatch: FullMatcher)
    requires KeyedByClass(repo)
    ensures var r := ParseResult(repo, message, clazz, fullMatch);
            && (r.Some? ==> r.value.log == message)
            && (r.Some? && r.value.regEx.Some? ==>
                  r.value.clazz == Some(if |Bucket(repo, clazz)| > 0 then clazz else DefaultClass))
  {
    var key := if |Bucket(repo, clazz)| > 0 then clazz else DefaultClass;
    var bucket := Bucket(repo, key);
    assert bucket == Candidates(repo, clazz);
    var f := FirstMatch(bucket, message, fullMatch);
    if f.Some? {
      assert key in repo;
      assert bucket[f.value].clazz == key;
    }
  }

  /**
   * First match wins: a result with a pattern reports the first statement
   * of the searched bucket that fully matches, attributed to the bucket's
   * key, which is the default class under fallback; a result has a pattern
   * exactly when some statement of that bucket matches.
   */
  lemma FirstMatchWins(repo: Repository, message: string, clazz: string, fullMatch: FullMatcher)
    requires KeyedByClass(repo)
    ensures var r := ParseResult(repo, message, clazz, fullMatch);
            var key := if |Bucket(repo, clazz)| > 0 then clazz else DefaultClass;
            var bucket := Bucket(repo, key);
            (r.Some? && r.value.regEx.Some? <==>
               exists i :: 0 <= i < |bucket| && fullMatch(bucket[i].pattern, message).Some?)
            && (r.Some? && r.value.regEx.Some? ==>
               exists i :: 0 <= i < |bucket| && fullMatch(bucket[i].pattern, message).Some?
                        && (forall k :: 0 <= k < i ==> fullMatch(bucket[k].pattern, message).None?)
                        && r.value.regEx == Some(bucket[i].pattern)
                        && r.value.clazz == Some(key)
                        && r.value.matches == Captures(fullMatch(bucket[i].pattern, message).value))
  {
    var key := if |Bucket(repo, clazz)| > 0 then clazz else DefaultClass;
    var bucket := Bucket(repo, key);
    assert bucket == Candidates(repo, clazz);
    var f := FirstMatch(bucket, message, fullMatch);
    if f.Some? {
      assert key in repo;
      assert bucket[f.value].clazz == key;
    }
  }

  /**
   * A non-empty bucket in which nothing matches still yields a record: the
   * message with a null class, pattern and group array.
   */
  lemma UnmatchedStillRecorded(repo: Repository, message: string, clazz: string, fullMatch: FullMatcher)
    requires |Candidates(repo, clazz)| > 0
    requires forall k :: 0 <= k < |Candidates(repo, clazz)| ==>
               fullMatch(Candidates(repo, clazz)[k].pattern, message).None?
    ensures ParseResult(repo, message, clazz, fullMatch) == Some(ParsedLog(message, None, None, None))
  {
  }

  /** The group array holds groups 1 to n at positions 0 to n - 1, and is null when n is 0. */
  lemma CapturesAreGroups(m: MatchResult)
    ensures m.groupCount == 0 <==> Captures(m).None?
    ensures Captures(m).Some? ==>
              |Captures(m).value| == m.groupCount
              && forall k :: 0 <= k < m.groupCount ==> Captures(m).value[k] == m.group(k + 1)
  {
  }

  /**
   * Parsing the lines of a directory keeps, in order, every non-null result:
   * the results of a line sequence are those of its parts, and a line with a
   * non-null result (the unmatched record included) contributes exactly it.
   */
  lemma {:induction false} ParsedAllAppend(repo: Repository, a: seq<string>, b: seq<string>, fullMatch: FullMatcher)
    ensures ParsedAll(repo, a + b, fullMatch) == ParsedAll(repo, a, fullMatch) + ParsedAll(repo, b, fullMatch)
  {
    CollectAppend(line => Contribution(repo, line, fullMatch), a, b);
  }

  /** `Collect` distributes over concatenation, whatever `part` is. */
  lemma {:induction false} CollectAppend(part: string -> seq<ParsedLog>, a: seq<string>, b: seq<string>)
    ensures Collect(part, a + b) == Collect(part, a) + Collect(part, b)
  {
    if |b| == 0 {
      assert a + b == a;
    } else {
      var n := |b| - 1;
      var ab := a + b;
      CollectAppend(part, a, b[..n]);
      assert ab[..|ab| - 1] == a + b[..n] && ab[|ab| - 1] == b[n];
      calc {
        Collect(part, ab);
        Collect(part, a + b[..n]) + part(b[n]);
        (Collect(part, a) + Collect(part, b[..n])) + part(b[n]);
        Collect(part, a) + (Collect(part, b[..n]) + part(b[n]));
        Collect(part, a) + Collect(part, b);
      }
    }
  }

  /** One more line: its result joins the end when it is not null. */
  lemma ParsedAllSnoc(repo: Repository, lines: seq<string>, line: string, fullMatch: FullMatcher)
    ensures ParsedAll(repo, lines + [line], fullMatch) ==
              ParsedAll(repo, lines, fullMatch) + Contribution(repo, line, fullMatch)
  {
    assert (lines + [line])[..|lines|] == lines;
  }

  /** The next line of a file adds its result, when it is not null, to those of the lines before it. */
  lemma ParsedAllStep(repo: Repository, lines: seq<string>, j: nat, fullMatch: FullMatcher)
    requires j < |lines|
    ensures ParsedAll(repo, lines[..j + 1], fullMatch) ==
              ParsedAll(repo, lines[..j], fullMatch)
                + (if ParseLine(repo, lines[j], fullMatch).Some? then [ParseLine(repo, lines[j], fullMatch).value] else [])
  {
    assert lines[..j + 1] == lines[..j] + [lines[j]];
    ParsedAllSnoc(repo, lines[..j], lines[j], fullMatch);
  }

  /** A single line contributes its result when it is not null, and nothing otherwise. */
  lemma ParsedAllOfLine(repo: Repository, line: string, fullMatch: FullMatcher)
    ensures ParsedAll(repo, [line], fullMatch) ==
              (if ParseLine(repo, line, fullMatch).Some? then [ParseLine(repo, line, fullMatch).value] else [])
  {
    assert [line] == [] + [line];
    ParsedAllSnoc(repo, [], line, fullMatch);
  }

  /** The parser's repository of statements, filled once by `populatePatterns`. */
  class LogParser {
    var statements: Repository

    ghost predicate Valid()
      reads this
    {
      KeyedByClass(statements)
    }

    /** A parser with an empty repository; the source then loads the pattern file into it. */
    constructor ()
      ensures Valid() && statements == map[]
    {
      statements := map[];
    }

    /**
     * The body of the `forEach` lambda of `populatePatterns`: a line of three
     * tokens is appended to its class's bucket once its pattern compiles.
     */
    method LoadLine(line: string, compiles: string -> bool) returns (compiled: bool)
      requires Valid()
      modifies this
      ensures Valid()
      ensures compiled <==> Loadable(line, compiles)
      ensures compiled ==> statements == Load(old(statements), line)
      ensures !compiled ==> statements == old(statements)
    {
      compiled := true;
      var tokens := Split(line);
      if |tokens| == 3 {
        if !compiles(tokens[2]) {
          compiled := false;
          return;
        }
        var logStatement := LogStatement(tokens[0], tokens[1], tokens[2]);
        AppendKeyed(statements, logStatement);
        statements := Append(statements, logStatement);
      }
    }

    /**
     * `populatePatterns` over the lines of the pattern file: each line of
     * three tokens is appended to its class's bucket; a pattern that does
     * not compile stops the load at its line, reported as `failure`.
     */
    method PopulatePatterns(lines: seq<string>, compiles: string -> bool) returns (failure: Option<nat>)
      requires Valid()
      modifies this
      ensures Valid()
      ensures failure == FirstUncompilable(lines, compiles)
      ensures statements == Populate(old(statements), if failure.Some? then lines[..failure.value] else lines)
    {
      failure := None;
      var i := 0;
      while i < |lines|
        invariant 0 <= i <= |lines|
        invariant statements == Populate(old(statements), lines[..i])
        invariant LoadsPast(lines, compiles, i)
        invariant Valid()
      {
        var compiled := LoadLine(lines[i], compiles);
        if !compiled {
          failure := Some(i);
          FirstUncompilableAt(lines, compiles, i);
          return;
        }
        PopulateStep(old(statements), lines, i);
        LoadsPastStep(lines, compiles, i);
        i := i + 1;
      }
      FirstUncompilableNone(lines, compiles);
      assert lines[..|lines|] == lines;
    }

    /**
     * `parse`: search the class's bucket, or the default-class bucket when
     * that is empty, and stop at the first full match.
     */
    method Parse(message: string, clazz: string, fullMatch: FullMatcher) returns (parsedLog: Option<ParsedLog>)
      requires Valid()
      ensures parsedLog == ParseResult(statements, message, clazz, fullMatch)
      ensures parsedLog.Some? ==> parsedLog.value.log == message
      ensures parsedLog.Some? && parsedLog.value.regEx.Some? ==>
                parsedLog.value.clazz == Some(if |Bucket(statements, clazz)| > 0 then clazz else DefaultClass)
    {
      ParseResultClass(statements, message, clazz, fullMatch);
      parsedLog := None;
      var logs := Bucket(statements, clazz);
      if |logs| == 0 {
        logs := Bucket(statements, DefaultClass);
      }
      if |logs| > 0 {
        var i := 0;
        while i < |logs|
          invariant 0 <= i <= |logs|
          invariant forall k :: 0 <= k < i ==> fullMatch(logs[k].pattern, message).None?
          invariant parsedLog == if i == 0 then None else Some(UnmatchedRecord(message))
        {
          var logStmt := logs[i];
          var matcher := fullMatch(logStmt.pattern, message);
          parsedLog := Some(UnmatchedRecord(message));
          if matcher.Some? {
            var matches := Groups(matcher.value);
            parsedLog := Some(ParsedLog(message, Some(logStmt.clazz), Some(logStmt.pattern), matches));
            assert logs == Candidates(statements, clazz);
            assert FirstMatch(logs, message, fullMatch) == Some(i);
            return;
          }
          i := i + 1;
        }
      }
    }

    /** `parseLogLine`: a six-token line is parsed on its trimmed message and class. */
    method ParseLogLine(line: string, fullMatch: FullMatcher) returns (parsedLog: Option<ParsedLog>)
      requires Valid()
      ensures parsedLog == ParseLine(statements, line, fullMatch)
    {
      parsedLog := None;
      var tokens := Split(line);
      if |tokens| == 6 {
        var message := Trim(tokens[5]);
        var clazz := Trim(tokens[3]);
        parsedLog := Parse(message, clazz, fullMatch);
      }
    }

    /**
     * The `forEach` over the lines of one log file in `parseLogsInDir`: the
     * non-null result of each line is added, in line order.
     */
    method ParseLines(lines: seq<string>, fullMatch: FullMatcher) returns (parsedLogs: seq<ParsedLog>)
      requires Valid()
      ensures parsedLogs == ParsedAll(statements, lines, fullMatch)
    {
      parsedLogs := [];
      for j := 0 to |lines|
        invariant parsedLogs == ParsedAll(statements, lines[..j], fullMatch)
      {
        var parsedLog := ParseLogLine(lines[j], fullMatch);
        ParsedAllStep(statements, lines, j, fullMatch);
        if parsedLog != None {
          parsedLogs := parsedLogs + [parsedLog.value];
        }
      }
      assert lines[..|lines|] == lines;
    }

    /** `parseLogsInDir` over the lines of each file of the directory, in stream order. */
    method ParseLogsInDir(files: seq<seq<string>>, fullMatch: FullMatcher) returns (parsedLogs: seq<ParsedLog>)
      requires Valid()
      ensures parsedLogs == ParsedAll(statements, Flatten(files), fullMatch)
    {
      parsedLogs := [];
      for f := 0 to |files|
        invariant parsedLogs == ParsedAll(statements, Flatten(files[..f]), fullMatch)
      {
        var parsed := ParseLines(files[f], fullMatch);
        ParsedAllAppend(statements, Flatten(files[..f]), files[f], fullMatch);
        assert files[..f + 1][..f] == files[..f];
        parsedLogs := parsedLogs + parsed;
      }
      assert files[..|files|] == files;
    }
  }
}
