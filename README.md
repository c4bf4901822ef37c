# logminer core in Dafny

logminer has two halves that meet in a pattern file.

The **source analyzer** (`JavaSrcAnalyzer`) walks the call sites of a Java
file. Each call to `debug`, `trace`, `info`, `warn` or `error` whose first
argument is a string literal is a candidate. It becomes a record
`level|class|pattern` only when `Pattern.compile` accepts the compiled
template; otherwise it is counted but nothing is written:

- the level is the method name;
- the class is the innermost enclosing class that declares a field named
  like the call's receiver, or `Default-Class`;
- the pattern is the template compiled to a regular-expression source.

The compiler makes two passes. The first puts a backslash before every
special character. The second replaces every `{}` placeholder with a
capturing group.

The **log parser** (`LogParser`) loads that file into a multimap. The map
goes from class name to statements, in load order. For each raw log line of
six `|`-separated columns, the parser trims the message and class columns.
It then looks for the first statement whose pattern fully matches the
message. It searches the class's own bucket, or the `Default-Class` bucket
when the class's bucket is empty.

The model has these modules:

- `JavaText`: `String.split("\\|")` (pieces between delimiters, trailing
  empty pieces dropped, a string without a delimiter returned whole) and
  `String.trim()`.
- `LogStatements`: the record and the line the analyzer writes for it.
- `RegexTemplate`: the template compiler and what it preserves.
- `SourceAnalyzer`: the field map, the declaring-class walk, and the
  per-file loop, as the class `Analyzer` with the `logCount` counter and
  the written output.
- `LogParser`: the repository as a `map` from class name to a sequence of
  statements, and the class `LogParser` that loads it, parses one message,
  one line, and a directory of files.
- `RoundTrip`: what happens when the parser loads what the analyzer wrote.

Boundaries of the model:

- The regular-expression engine is abstract. Whether `Pattern.compile`
  accepts a source is a parameter `compiles`. A full match is a parameter
  `fullMatch` that returns the group count and each group's text.
- The Java syntax tree comes in as plain values: call sites (name,
  arguments, receiver, enclosing class names innermost first) and class
  declarations with their field declarations.
- Files and directories come in as sequences of lines.
- Strings are sequences of Unicode scalar values.

Three points read directly off the code:

- The special-character class holds 19 characters, the braces not among
  them. Two of them are invisible: U+200C and U+200B.
- After Java's replacement-string unescaping, each placeholder becomes the
  8-character text `([\\w]+)`. It holds two backslashes, so its bracket
  class admits only a backslash and the letter `w`, not word characters.
  `RegexTemplate.GroupText` is that text, and the model follows it.
- The field map is keyed by simple class name. Two classes of one file with
  the same name share their fields.

## Model

| member | source | states |
|---|---|---|
| JavaText.Split | logparser/src/main/java/LogParser.java:107 | no token holds the delimiter; a line without a delimiter is one token, itself (even when empty); otherwise the last token, if any, is not empty |
| JavaText.JoinPieces | logparser/src/main/java/LogParser.java:107 | joining the pieces between delimiters, with the delimiter between neighbours, gives the line back |
| JavaText.SplitRejoins | logparser/src/main/java/LogParser.java:107 | `split` loses only trailing delimiters: the line is its tokens joined by `|` followed by some number of `|` |
| JavaText.Trim | logparser/src/main/java/LogParser.java:62-64 | the result neither starts nor ends with a character at or below U+0020, is an infix of the input with only such characters around it, and holds no character the input lacks |
| LogStatements.Serialize | sourceanalyzer/src/main/java/com/github/logminer/sourceanalyzer/JavaSrcAnalyzer.java:181-183 | `toString`: the written line is the level, `|`, the class, `|` and the pattern, two characters longer than its fields |
| LogStatements.SerializePieces | sourceanalyzer/src/main/java/com/github/logminer/sourceanalyzer/JavaSrcAnalyzer.java:181-183 | when no field holds the delimiter, the pieces between delimiters of the written line are exactly the level, the class and the pattern (`split` then drops an empty pattern; see `EmptyPatternLineSkipped`) |
| LogStatements.PiecesOfBarFree | logparser/src/main/java/LogParser.java:107 | a string without a delimiter is a single piece |
| LogStatements.PiecesAfterBarFreePrefix | logparser/src/main/java/LogParser.java:107 | a delimiter-free prefix followed by a delimiter is the first piece, and the pieces of the rest follow it |
| RegexTemplate.Escape | sourceanalyzer/src/main/java/com/github/logminer/sourceanalyzer/JavaSrcAnalyzer.java:140 | the first pass grows the template by one character per special character, and leaves a leading brace a brace |
| RegexTemplate.EscapeRoundTrip | sourceanalyzer/src/main/java/com/github/logminer/sourceanalyzer/JavaSrcAnalyzer.java:140 | deleting each escaping backslash gives the template back |
| RegexTemplate.EscapeIsEscaped | sourceanalyzer/src/main/java/com/github/logminer/sourceanalyzer/JavaSrcAnalyzer.java:140 | after the first pass every special character stands escaped, and every backslash escapes a special character |
| RegexTemplate.EscapedIsEscapeOfUnescape | sourceanalyzer/src/main/java/com/github/logminer/sourceanalyzer/JavaSrcAnalyzer.java:140 | every fully escaped string is the first pass applied to its unescaping, so the first pass is a bijection onto escaped strings |
| RegexTemplate.EscapeAtPlaceholder | sourceanalyzer/src/main/java/com/github/logminer/sourceanalyzer/JavaSrcAnalyzer.java:42 | proof helper: braces are not special: a leading placeholder passes the first pass unchanged |
| RegexTemplate.EscapeKeepsPlaceholders | sourceanalyzer/src/main/java/com/github/logminer/sourceanalyzer/JavaSrcAnalyzer.java:42 | the first pass keeps the number of `{}` placeholders |
| RegexTemplate.Substitute | sourceanalyzer/src/main/java/com/github/logminer/sourceanalyzer/JavaSrcAnalyzer.java:141 | the second pass grows the string by 6 characters per placeholder, and keeps a leading `}` exactly when there was one |
| RegexTemplate.SubstituteLeavesNoPlaceholder | sourceanalyzer/src/main/java/com/github/logminer/sourceanalyzer/JavaSrcAnalyzer.java:141 | no `{}` is left anywhere after the second pass |
| RegexTemplate.ConvertToRegEx | sourceanalyzer/src/main/java/com/github/logminer/sourceanalyzer/JavaSrcAnalyzer.java:139-143 | the compiled source is as long as the template plus one per special character plus 6 per placeholder |
| RegexTemplate.ConvertAtPlaceholder | sourceanalyzer/src/main/java/com/github/logminer/sourceanalyzer/JavaSrcAnalyzer.java:140-141 | a leading placeholder compiles to the group text followed by the compiled rest |
| RegexTemplate.ConvertSpecial | sourceanalyzer/src/main/java/com/github/logminer/sourceanalyzer/JavaSrcAnalyzer.java:140-141 | a leading special character compiles to itself escaped, followed by the compiled rest |
| RegexTemplate.ConvertPlain | sourceanalyzer/src/main/java/com/github/logminer/sourceanalyzer/JavaSrcAnalyzer.java:140-141 | proof helper: any other leading character compiles to itself, followed by the compiled rest |
| RegexTemplate.ConvertLeavesNoPlaceholder | sourceanalyzer/src/main/java/com/github/logminer/sourceanalyzer/JavaSrcAnalyzer.java:139-143 | a compiled template holds no `{}` |
| RegexTemplate.GroupTextOpensOneGroup | sourceanalyzer/src/main/java/com/github/logminer/sourceanalyzer/JavaSrcAnalyzer.java:141 | the group text opens exactly one capturing group, whatever follows it |
| RegexTemplate.ConvertGroupCount | sourceanalyzer/src/main/java/com/github/logminer/sourceanalyzer/JavaSrcAnalyzer.java:139-143 | the compiled pattern opens exactly one capturing group per placeholder of the template |
| RegexTemplate.EscapeKeepsBar | sourceanalyzer/src/main/java/com/github/logminer/sourceanalyzer/JavaSrcAnalyzer.java:140 | the first pass output holds `|` exactly when the template does |
| RegexTemplate.SubstituteKeepsBar | sourceanalyzer/src/main/java/com/github/logminer/sourceanalyzer/JavaSrcAnalyzer.java:141 | the second pass output holds `|` exactly when its input does |
| RegexTemplate.ConvertKeepsBar | sourceanalyzer/src/main/java/com/github/logminer/sourceanalyzer/JavaSrcAnalyzer.java:139-143 | the compiled pattern holds `|` exactly when the template does |
| SourceAnalyzer.PutVariablesFields | sourceanalyzer/src/main/java/com/github/logminer/sourceanalyzer/JavaSrcAnalyzer.java:101-103 | putting a declaration's variables adds exactly those names under the class and changes no other class |
| SourceAnalyzer.PutFieldsFields | sourceanalyzer/src/main/java/com/github/logminer/sourceanalyzer/JavaSrcAnalyzer.java:99-104 | putting a class's declarations adds exactly the variables they declare under that class |
| SourceAnalyzer.FieldMapOfSpec | sourceanalyzer/src/main/java/com/github/logminer/sourceanalyzer/JavaSrcAnalyzer.java:96-105 | a name lists field `v` exactly when some class of the file with that name declares `v` |
| SourceAnalyzer.CollectFields | sourceanalyzer/src/main/java/com/github/logminer/sourceanalyzer/JavaSrcAnalyzer.java:96-105 | the three nested loops build the file's field map |
| SourceAnalyzer.InnermostDeclaring | sourceanalyzer/src/main/java/com/github/logminer/sourceanalyzer/JavaSrcAnalyzer.java:161-172 | the result is the first enclosing class, innermost first, whose fields include the name; none when no enclosing class has it |
| SourceAnalyzer.DeclarationClass | sourceanalyzer/src/main/java/com/github/logminer/sourceanalyzer/JavaSrcAnalyzer.java:146-174 | the class is `Default-Class` or an enclosing class; for a simple-name receiver it is the innermost enclosing class declaring that field; with no such class, or any other receiver, it is `Default-Class` |
| SourceAnalyzer.ResolveDeclarationClass | sourceanalyzer/src/main/java/com/github/logminer/sourceanalyzer/JavaSrcAnalyzer.java:146-174 | the `while (true)` walk returns the declaring class as specified above |
| SourceAnalyzer.IsLiteralLogCall | sourceanalyzer/src/main/java/com/github/logminer/sourceanalyzer/JavaSrcAnalyzer.java:110-118 | definition: a call to `debug`, `trace`, `info`, `warn` or `error` with at least one argument, the first a string literal |
| SourceAnalyzer.Recorded | sourceanalyzer/src/main/java/com/github/logminer/sourceanalyzer/JavaSrcAnalyzer.java:108-135 | definition: the statements written for a file, one per literal logging call whose compiled template compiles, in call order |
| SourceAnalyzer.Lines | sourceanalyzer/src/main/java/com/github/logminer/sourceanalyzer/JavaSrcAnalyzer.java:125 | one written line per record, in order, each the record's serialization |
| SourceAnalyzer.LinesSnoc | sourceanalyzer/src/main/java/com/github/logminer/sourceanalyzer/JavaSrcAnalyzer.java:125 | proof helper: writing one more record appends exactly its line |
| SourceAnalyzer.RecordedStep | sourceanalyzer/src/main/java/com/github/logminer/sourceanalyzer/JavaSrcAnalyzer.java:108-135 | proof helper: one more call site adds its record exactly when it is a literal logging call whose template compiles, and adds one to the count exactly when it is a literal logging call |
| SourceAnalyzer.RecordedPlusUncompiled | sourceanalyzer/src/main/java/com/github/logminer/sourceanalyzer/JavaSrcAnalyzer.java:121-129 | every literal logging call is counted, and either writes a record or has a template that does not compile |
| SourceAnalyzer.UncompiledNone | sourceanalyzer/src/main/java/com/github/logminer/sourceanalyzer/JavaSrcAnalyzer.java:121-129 | no literal logging call fails to compile exactly when every one compiles |
| SourceAnalyzer.RecordedWithinLogCount | sourceanalyzer/src/main/java/com/github/logminer/sourceanalyzer/JavaSrcAnalyzer.java:115-130 | a file writes at most as many records as `logCount` grows by, and exactly as many precisely when every literal template compiles |
| SourceAnalyzer.RecordedFromLogCalls | sourceanalyzer/src/main/java/com/github/logminer/sourceanalyzer/JavaSrcAnalyzer.java:108-128 | every record's level is a logging method, and the record comes from a literal logging call of the file whose template compiled |
| SourceAnalyzer.Analyzer.constructor | sourceanalyzer/src/main/java/com/github/logminer/sourceanalyzer/JavaSrcAnalyzer.java:40 | a fresh analyzer has written nothing and counted nothing |
| SourceAnalyzer.Analyzer.AnalyzeFile | sourceanalyzer/src/main/java/com/github/logminer/sourceanalyzer/JavaSrcAnalyzer.java:91-136 | the file's records are appended to the output in call order, and `logCount` grows by the number of literal logging calls, compiled or not |
| LogParser.LoadRecord | logparser/src/main/java/LogParser.java:107-113 | a pattern-file line gives a statement exactly when it splits into three tokens; the statement's level, class and pattern are tokens 0, 1 and 2, none holds the delimiter, and the pattern is not empty |
| LogParser.LoadedLineIsSerialized | logparser/src/main/java/LogParser.java:107-113 | every line that loads is the written form of its statement followed only by delimiters, so `a|b|c|` loads as the record of `a|b|c` |
| LogParser.EmptyPatternLineSkipped | logparser/src/main/java/LogParser.java:107-108 | a line such as `info|Foo|` splits into two tokens and is skipped |
| LogParser.PiecesOfEmptyPattern | logparser/src/main/java/LogParser.java:107 | such a line has three pieces, the last one empty |
| LogParser.PopulateStep | logparser/src/main/java/LogParser.java:106-115 | proof helper: loading one more line adds that line's statement, if any, to the repository |
| LogParser.BucketAfterLoad | logparser/src/main/java/LogParser.java:107-113 | proof helper: loading one line appends to a class's bucket the line's statement when it is of that class, and nothing otherwise |
| LogParser.AppendKeyed | logparser/src/main/java/LogParser.java:113 | putting a statement under its own class keeps every bucket holding only its own class's statements |
| LogParser.FirstUncompilable | logparser/src/main/java/LogParser.java:112 | the load stops at the first three-token line whose pattern does not compile, after getting past every line before it; with no such line it gets past them all |
| LogParser.LoadsPastStep | logparser/src/main/java/LogParser.java:106-115 | proof helper: getting past one more line extends the prefix the load gets past |
| LogParser.FirstUncompilableAt | logparser/src/main/java/LogParser.java:112 | the load stops at line `i` when it gets past every earlier line and not past line `i` |
| LogParser.FirstUncompilableNone | logparser/src/main/java/LogParser.java:112 | when the load gets past every line, nothing stops it |
| LogParser.PopulateBucket | logparser/src/main/java/LogParser.java:104-116 | loading appends to each class's bucket exactly the statements of that class, in line order, and changes nothing else |
| LogParser.PopulateKeyed | logparser/src/main/java/LogParser.java:113 | after loading, every statement sits in the bucket of its own class |
| LogParser.LogLineFields | logparser/src/main/java/LogParser.java:59-69 | a log line is used exactly when it splits into six tokens; the message is token 5 and the class token 3, both trimmed and free of the delimiter |
| LogParser.Candidates | logparser/src/main/java/LogParser.java:73-76 | the bucket searched is the class's own when it is not empty, otherwise the `Default-Class` bucket; it is empty exactly when both are |
| LogParser.FirstMatch | logparser/src/main/java/LogParser.java:78-99 | the result is the first statement of the bucket whose pattern fully matches; none when no statement matches |
| LogParser.Captures | logparser/src/main/java/LogParser.java:87-93 | the group array is null exactly when the pattern has no groups, and otherwise has one entry per group |
| LogParser.ParseResult | logparser/src/main/java/LogParser.java:71-102 | `parse`: null exactly when the searched bucket is empty; a record always carries the message, its class and pattern are null together, and an unmatched record has no groups |
| LogParser.ParseNullExactlyWithoutCandidates | logparser/src/main/java/LogParser.java:71-101 | `parse` returns null exactly when both the class's bucket and the default bucket are empty; otherwise its record carries the message |
| LogParser.FirstMatchWins | logparser/src/main/java/LogParser.java:73-99 | a record has a pattern exactly when some statement of the searched bucket matches; it then reports the first such statement's pattern, its groups, and the bucket's class, which is `Default-Class` under fallback |
| LogParser.UnmatchedStillRecorded | logparser/src/main/java/LogParser.java:77-101 | a non-empty bucket in which nothing matches still yields a record: the message with null class, pattern and groups |
| LogParser.CapturesAreGroups | logparser/src/main/java/LogParser.java:87-93 | the group array is null exactly when the pattern has no groups; otherwise it holds group `k + 1` at position `k` |
| LogParser.CollectAppend | logparser/src/main/java/LogParser.java:38-48 | collecting per-line results over two runs of lines concatenates their results |
| LogParser.ParsedAllAppend | logparser/src/main/java/LogParser.java:38-48 | the parsed logs of lines from several files are those of each file's lines, file after file |
| LogParser.ParsedAllSnoc | logparser/src/main/java/LogParser.java:41-46 | proof helper: one more line adds its result at the end when that result is not null |
| LogParser.ParsedAllStep | logparser/src/main/java/LogParser.java:41-46 | proof helper: the next line of a file adds its non-null result after the results of the lines before it |
| LogParser.ParsedAllOfLine | logparser/src/main/java/LogParser.java:42-45 | a single line contributes its result, the unmatched record included, and nothing when it is null |
| LogParser.LogParser.constructor | logparser/src/main/java/LogParser.java:28 | a new parser has an empty repository |
| LogParser.LogParser.LoadLine | logparser/src/main/java/LogParser.java:106-115 | the load gets past the line exactly when the line is not a three-token line with an uncompilable pattern; then the line's statement joins its bucket, otherwise nothing changes |
| LogParser.LogParser.PopulatePatterns | logparser/src/main/java/LogParser.java:104-116 | the lines before the first uncompilable pattern are loaded in order, and that line's index is reported; every bucket keeps only its own class's statements |
| LogParser.ParseResultClass | logparser/src/main/java/LogParser.java:73-95 | on a repository keyed by class, a record carries the message, and a matched record names the searched class: the class itself, or `Default-Class` under fallback |
| LogParser.Groups | logparser/src/main/java/LogParser.java:87-93 | the loop fills the group array with the match's groups in order, or leaves it null when the pattern has none |
| LogParser.LogParser.Parse | logparser/src/main/java/LogParser.java:71-102 | the loop returns the `parse` result specified above; its record carries the message, and a matched record's class is the searched class |
| LogParser.LogParser.ParseLogLine | logparser/src/main/java/LogParser.java:59-69 | a six-token line is parsed on its trimmed message and class, any other line gives null |
| LogParser.LogParser.ParseLines | logparser/src/main/java/LogParser.java:41-46 | the non-null results of a file's lines, in line order |
| LogParser.LogParser.ParseLogsInDir | logparser/src/main/java/LogParser.java:35-50 | the non-null results of every line of every file, in stream order |
| RoundTrip.SerializeReloads | logparser/src/main/java/LogParser.java:107-113 | a written record loads back as the same statement exactly when no field holds the delimiter and the pattern is not empty |
| RoundTrip.StatementHeadBarFree | sourceanalyzer/src/main/java/com/github/logminer/sourceanalyzer/JavaSrcAnalyzer.java:123-124 | the level and class of a record hold no delimiter when the enclosing class names hold none |
| RoundTrip.AnalyzerRecordReloads | sourceanalyzer/src/main/java/com/github/logminer/sourceanalyzer/JavaSrcAnalyzer.java:119-125 | the record of a literal logging call loads back unchanged exactly when its template is not empty and holds no `|` |
| RoundTrip.KeptOfReloadingLines | logparser/src/main/java/LogParser.java:106-115 | when every written record loads back unchanged, each class keeps exactly its own records, in order |
| RoundTrip.RecordedReload | sourceanalyzer/src/main/java/com/github/logminer/sourceanalyzer/JavaSrcAnalyzer.java:118-125 | under those conditions every record of a file loads back unchanged, and its pattern compiles |
| RoundTrip.AnalyzedFileReloads | logparser/src/main/java/LogParser.java:104-116 | loading what the analyzer wrote for such a file never stops early, and leaves each bucket holding that class's records in call order |

## Left out

- Directory walking, file reading and writing, the `.java` suffix filter and `fileCount` are not modelled. Files come in as sequences of lines, and the analyzer's output is a sequence of written lines.
- Line terminators are not modelled. A template holding a line break would split its written record across two lines of the pattern file; the model assumes every record is one line.
- The Java parser is not modelled. A file arrives already parsed, as call sites and class declarations. The `ParseProblemException` that skips a file is outside the model.
- The regular-expression engine is not modelled. `Pattern.compile` acceptance and full matching are parameters. The lemma about capturing groups counts unescaped `(` not followed by `?`.
- Logging, printing, `MessageFormat`, `ParsedLog.toString` and both `main` methods are not modelled. They only produce text for people.
- The warning for a logging call with no arguments is not modelled. It only logs.
- `parseLogLine` also computes a lower-cased level that nothing uses. The model leaves it out.
- SourceAnalyzer.ResolveDeclarationClass: requires an enclosing class for a call whose receiver is a simple name. The source then calls `get()` on an empty `Optional`, and the resulting `NoSuchElementException` ends the whole run.
- SourceAnalyzer.DeclarationClass: for a simple-name receiver outside every class it gives `Default-Class`, where the source throws; the lemmas built on it (`RecordedReload`, `AnalyzedFileReloads`) thus also cover files the source never finishes.
- SourceAnalyzer.Analyzer.AnalyzeFile: requires an enclosing class for each compiled name-scoped logging call, for the same reason.
- LogParser.LogParser.PopulatePatterns: reports the first pattern that does not compile and keeps the lines loaded before it. In the source the `PatternSyntaxException` escapes the constructor and no parser object is returned.
- The `LogParser` constructor is split into the model's `constructor` and `PopulatePatterns`, because the pattern file's lines are an input.
- SourceAnalyzer.Analyzer.AnalyzeFile: `logCount` is a Java `int` that wraps after 2^31 - 1 calls; the model counts with an unbounded `nat`, so the overflow is not modelled.
- Java strings are UTF-16. The model uses Unicode scalar values, so a supplementary character is one character here and two in Java.
