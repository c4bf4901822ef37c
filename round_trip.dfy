/**
 * The analyzer writes the pattern file the parser loads: when a written
 * record loads back unchanged, and what the parser's repository holds after
 * loading the records of a file.
 */
module RoundTrip {
  import opened Wrappers
  import opened JavaText
  import opened LogStatements
  import opened RegexTemplate
  import opened SourceAnalyzer
  import opened LogParser

  /**
   * A written record loads back as the same statement exactly when none of
   * its fields holds the delimiter and its pattern is not empty: an escaped
   * `\|` still splits, and an empty last field is dropped by `split`.
   */
  lemma SerializeReloads(s: LogStatement)
    ensures LoadRecord(Serialize(s)) == Some(s) <==>
              Bar !in s.level && Bar !in s.clazz && Bar !in s.pattern && s.pattern != ""
  {
    var line := Serialize(s);
    if Bar !in s.level && Bar !in s.clazz && Bar !in s.pattern && s.pattern != "" {
      SerializePieces(s);
      assert line[|s.level|] == Bar;
      assert Split(line) == DropTrailingEmpty([s.level, s.clazz, s.pattern]);
    }
  }

  /**
   * The record of a literal logging call, in a file whose class names are
   * free of the delimiter, loads back unchanged exactly when its template is
   * not empty and holds no `|`.
   */
  lemma AnalyzerRecordReloads(c: CallSite, fields: FieldMap)
    requires IsLiteralLogCall(c)
    requires forall k :: 0 <= k < |c.enclosing| ==> Bar !in c.enclosing[k]
    ensures LoadRecord(Serialize(StatementOf(c, fields))) == Some(StatementOf(c, fields)) <==>
              Bar !in c.arguments[0].value && c.arguments[0].value != ""
  {
    StatementHeadBarFree(c, fields);
    ConvertKeepsBar(c.arguments[0].value);
    SerializeReloads(StatementOf(c, fields));
  }

  /** The level and class of such a call's record hold no delimiter. */
  lemma StatementHeadBarFree(c: CallSite, fields: FieldMap)
    requires IsLiteralLogCall(c)
    requires forall k :: 0 <= k < |c.enclosing| ==> Bar !in c.enclosing[k]
    ensures Bar !in StatementOf(c, fields).level && Bar !in StatementOf(c, fields).clazz
  {
    var clazz := DeclarationClass(c.scope, c.enclosing, fields);
    assert forall m :: m in LogMethods ==> Bar !in m;
    assert Bar !in DefaultClass;
    if clazz != DefaultClass {
      var k :| 0 <= k < |c.enclosing| && c.enclosing[k] == clazz;
    }
  }

  /** The statements of class `clazz`, in order. */
  function ForClass(stmts: seq<LogStatement>, clazz: string): seq<LogStatement>
  {
    if |stmts| == 0 then []
    else
      var s := stmts[|stmts| - 1];
      ForClass(stmts[..|stmts| - 1], clazz) + (if s.clazz == clazz then [s] else [])
  }

  /** Records that each load back unchanged fill each bucket with that class's statements, in order. */
  lemma {:induction false} KeptOfReloadingLines(stmts: seq<LogStatement>, clazz: string)
    requires forall k :: 0 <= k < |stmts| ==> LoadRecord(Serialize(stmts[k])) == Some(stmts[k])
    ensures Kept(Lines(stmts), clazz) == ForClass(stmts, clazz)
  {
    if |stmts| > 0 {
      var n := |stmts| - 1;
      KeptOfReloadingLines(stmts[..n], clazz);
      assert Lines(stmts)[..n] == Lines(stmts[..n]);
      assert Lines(stmts)[n] == Serialize(stmts[n]);
    }
  }

  /** Under the same conditions each record of a file loads back unchanged, its pattern compiling. */
  lemma RecordedReload(calls: seq<CallSite>, fields: FieldMap, compiles: string -> bool)
    requires forall i :: 0 <= i < |calls| && Compiled(calls[i], compiles) ==>
               Bar !in calls[i].arguments[0].value && calls[i].arguments[0].value != ""
               && forall k :: 0 <= k < |calls[i].enclosing| ==> Bar !in calls[i].enclosing[k]
    ensures forall k :: 0 <= k < |Recorded(calls, fields, compiles)| ==>
              && LoadRecord(Serialize(Recorded(calls, fields, compiles)[k])) == Some(Recorded(calls, fields, compiles)[k])
              && compiles(Recorded(calls, fields, compiles)[k].pattern)
  {
    var stmts := Recorded(calls, fields, compiles);
    RecordedFromLogCalls(calls, fields, compiles);
    forall k | 0 <= k < |stmts|
      ensures LoadRecord(Serialize(stmts[k])) == Some(stmts[k])
      ensures compiles(stmts[k].pattern)
    {
      assert stmts[k].level in LogMethods;
      var i :| 0 <= i < |calls| && Compiled(calls[i], compiles) && stmts[k] == StatementOf(calls[i], fields);
      AnalyzerRecordReloads(calls[i], fields);
    }
  }

  /**
   * Loading what the analyzer wrote for a file whose templates are not empty
   * and hold no `|` (and whose class names hold none) never fails, and
   * leaves each class's bucket holding exactly that class's records in the
   * order the analyzer met their calls. The statement also covers files
   * the source stops on (a name-scoped logging call outside every class);
   * see `DeclarationClass`.
   */
  lemma AnalyzedFileReloads(calls: seq<CallSite>, classes: seq<ClassDeclaration>, compiles: string -> bool,
                            clazz: string)
    requires forall i :: 0 <= i < |calls| && Compiled(calls[i], compiles) ==>
               Bar !in calls[i].arguments[0].value && calls[i].arguments[0].value != ""
               && forall k :: 0 <= k < |calls[i].enclosing| ==> Bar !in calls[i].enclosing[k]
    ensures var stmts := Recorded(calls, FieldMapOf(classes), compiles);
            && FirstUncompilable(Lines(stmts), compiles).None?
            && Bucket(Populate(map[], Lines(stmts)), clazz) == ForClass(stmts, clazz)
  {
    var stmts := Recorded(calls, FieldMapOf(classes), compiles);
    RecordedReload(calls, FieldMapOf(classes), compiles);
    var lines := Lines(stmts);
    KeptOfReloadingLines(stmts, clazz);
    PopulateBucket(map[], lines, clazz);
  }
}
