/**
 * The source analyzer: which logging call sites yield a pattern record,
 * which class a record is attributed to, and the per-file bookkeeping of
 * written records and the `logCount` counter. The syntax tree comes in as
 * plain values: the call sites of a file and its class declarations.
 */
module SourceAnalyzer {
  import opened Wrappers
  import opened JavaText
  import opened LogStatements
  import opened RegexTemplate

  /** The method names treated as logging calls. */
  const LogMethods: set<string> := {"debug", "trace", "info", "warn", "error"}

  /** The receiver of a call: absent, a simple name, or any other expression. */
  datatype Scope = NoScope | NameScope(name: string) | OtherScope

  /** An argument of a call: a string literal (with its value) or any other expression. */
  datatype Argument = StringLiteral(value: string) | OtherArgument

  /**
   * A method call of a file: the called method's name, its arguments, its
   * receiver, and the names of its enclosing classes, innermost first.
   */
  datatype CallSite = CallSite(name: string, arguments: seq<Argument>, scope: Scope, enclosing: seq<string>)

  /** A field declaration, which may declare several variables. */
  datatype FieldDeclaration = FieldDeclaration(variables: seq<string>)

  /** A class or interface of a file, with its own field declarations. */
  datatype ClassDeclaration = ClassDeclaration(name: string, fields: seq<FieldDeclaration>)

  /** `classToFieldsMap`: class name to the field names declared under that name. */
  type FieldMap = map<string, set<string>>

  /** `get` of the multimap: the empty set for a name never put. */
  function FieldsOf(m: FieldMap, clazz: string): set<string>
  {
    if clazz in m then m[clazz] else {}
  }

  /** `put` of the multimap. */
  function Put(m: FieldMap, clazz: string, v: string): FieldMap
  {
    m[clazz := FieldsOf(m, clazz) + {v}]
  }

  /** The map after putting each of `vs` under `clazz`, in order. */
  function PutVariables(m: FieldMap, clazz: string, vs: seq<string>): FieldMap
  {
    if |vs| == 0 then m else Put(PutVariables(m, clazz, vs[..|vs| - 1]), clazz, vs[|vs| - 1])
  }

  /** The map after putting the variables of each declaration of `ds` under `clazz`. */
  function PutFields(m: FieldMap, clazz: string, ds: seq<FieldDeclaration>): FieldMap
  {
    if |ds| == 0 then m else PutVariables(PutFields(m, clazz, ds[..|ds| - 1]), clazz, ds[|ds| - 1].variables)
  }

  /** The field map of a file's classes, filled class by class. */
  function FieldMapOf(classes: seq<ClassDeclaration>): FieldMap
  {
    if |classes| == 0 then map[]
    else
      var c := classes[|classes| - 1];
      PutFields(FieldMapOf(classes[..|classes| - 1]), c.name, c.fields)
  }

  /** Whether one of the class's field declarations declares `v`. */
  predicate Declares(c: ClassDeclaration, v: string)
  {
    exists j :: 0 <= j < |c.fields| && v in c.fields[j].variables
  }

  lemma {:induction false} PutVariablesFields(m: FieldMap, clazz: string, vs: seq<string>, c: string, v: string)
    ensures v in FieldsOf(PutVariables(m, clazz, vs), c) <==> v in FieldsOf(m, c) || (c == clazz && v in vs)
  {
    if |vs| > 0 {
      PutVariablesFields(m, clazz, vs[..|vs| - 1], c, v);
      assert vs == vs[..|vs| - 1] + [vs[|vs| - 1]];
    }
  }

  lemma {:induction false} PutFieldsFields(m: FieldMap, clazz: string, ds: seq<FieldDeclaration>, c: string, v: string)
    ensures v in FieldsOf(PutFields(m, clazz, ds), c) <==>
              v in FieldsOf(m, c) || (c == clazz && exists j :: 0 <= j < |ds| && v in ds[j].variables)
  {
    if |ds| > 0 {
      var n := |ds| - 1;
      PutFieldsFields(m, clazz, ds[..n], c, v);
      PutVariablesFields(PutFields(m, clazz, ds[..n]), clazz, ds[n].variables, c, v);
      if c == clazz && v in ds[n].variables {
      } else if c == clazz && exists j :: 0 <= j < |ds| && v in ds[j].variables {
        var j :| 0 <= j < |ds| && v in ds[j].variables;
        assert j < n && ds[..n][j] == ds[j];
      }
    }
  }

  /**
   * A name lists `v` in the field map exactly when some class of that name
   * declares a field `v`.
   */
  lemma {:induction false} FieldMapOfSpec(classes: seq<ClassDeclaration>, c: string, v: string)
    ensures v in FieldsOf(FieldMapOf(classes), c) <==>
              exists i :: 0 <= i < |classes| && classes[i].name == c && Declares(classes[i], v)
  {
    if |classes| > 0 {
      var n := |classes| - 1;
      var last := classes[n];
      FieldMapOfSpec(classes[..n], c, v);
      PutFieldsFields(FieldMapOf(classes[..n]), last.name, last.fields, c, v);
      if exists i :: 0 <= i < |classes| && classes[i].name == c && Declares(classes[i], v) {
        var i :| 0 <= i < |classes| && classes[i].name == c && Declares(classes[i], v);
        if i < n {
          assert classes[..n][i] == classes[i];
        } else {
          var j :| 0 <= j < |last.fields| && v in last.fields[j].variables;
        }
      }
      if v in FieldsOf(FieldMapOf(classes[..n]), c) {
        var i :| 0 <= i < n && classes[..n][i].name == c && Declares(classes[..n][i], v);
        assert classes[i] == classes[..n][i];
      }
    }
  }

  /** The nested loops of `analyzeFile` that fill `classToFieldsMap`. */
  method CollectFields(classes: seq<ClassDeclaration>) returns (m: FieldMap)
    ensures m == FieldMapOf(classes)
  {
    m := map[];
    for i := 0 to |classes|
      invariant m == FieldMapOf(classes[..i])
    {
      var c := classes[i];
      ghost var before := FieldMapOf(classes[..i]);
      for j := 0 to |c.fields|
        invariant m == PutFields(before, c.name, c.fields[..j])
      {
        var vs := c.fields[j].variables;
        for k := 0 to |vs|
          invariant m == PutVariables(PutFields(before, c.name, c.fields[..j]), c.name, vs[..k])
        {
          m := Put(m, c.name, vs[k]);
          assert vs[..k + 1][..k] == vs[..k];
        }
        assert vs[..|vs|] == vs;
        assert c.fields[..j + 1][..j] == c.fields[..j];
      }
      assert c.fields[..|c.fields|] == c.fields;
      assert classes[..i + 1][..i] == classes[..i];
    }
    assert classes[..|classes|] == classes;
  }

  /** The position of the innermost enclosing class whose fields include `v`. */
  function InnermostDeclaring(chain: seq<string>, fields: FieldMap, v: string): (r: Option<nat>)
    ensures r.Some? ==> r.value < |chain| && v in FieldsOf(fields, chain[r.value])
    ensures r.Some? ==> forall k :: 0 <= k < r.value ==> v !in FieldsOf(fields, chain[k])
    ensures r.None? ==> forall k :: 0 <= k < |chain| ==> v !in FieldsOf(fields, chain[k])
  {
    if |chain| == 0 then None
    else if v in FieldsOf(fields, chain[0]) then Some(0)
    else
      match InnermostDeclaring(chain[1..], fields, v)
      case None => None
      case Some(i) => Some(i + 1)
  }

  /**
   * `getLogDeclarationClass`: a call whose receiver is a simple name is
   * attributed to the innermost enclosing class declaring a field of that
   * name; every other call to the default class. A call with a simple-name
   * receiver and no enclosing class lies outside the source's domain (it
   * reads the missing class and throws); the value given for it here is
   * `Default-Class`, which no run of the source produces.
   */
  function DeclarationClass(scope: Scope, chain: seq<string>, fields: FieldMap): (r: string)
    ensures r == DefaultClass || r in chain
    ensures scope.NameScope? && (exists i :: 0 <= i < |chain| && scope.name in FieldsOf(fields, chain[i])) ==>
              exists i :: 0 <= i < |chain| && r == chain[i] && scope.name in FieldsOf(fields, chain[i])
                       && forall k :: 0 <= k < i ==> scope.name !in FieldsOf(fields, chain[k])
    ensures (!scope.NameScope? || forall i :: 0 <= i < |chain| ==> scope.name !in FieldsOf(fields, chain[i])) ==>
              r == DefaultClass
  {
    match scope
    case NameScope(v) =>
      (match InnermostDeclaring(chain, fields, v)
       case Some(i) => chain[i]
       case None => DefaultClass)
    case _ => DefaultClass
  }

  /**
   * The `while (true)` walk of `getLogDeclarationClass`. The source reads
   * the innermost enclosing class without checking that there is one, so a
   * name-scoped call needs at least one.
   */
  method ResolveDeclarationClass(scope: Scope, chain: seq<string>, fields: FieldMap) returns (logClass: string)
    requires scope.NameScope? ==> |chain| > 0
    ensures logClass == DeclarationClass(scope, chain, fields)
  {
    logClass := DefaultClass;
    if !scope.NameScope? {
      return;
    }
    var varName := scope.name;
    var i := 0;
    while true
      invariant 0 <= i < |chain|
      invariant forall k :: 0 <= k < i ==> varName !in FieldsOf(fields, chain[k])
      invariant logClass == DefaultClass
      decreases |chain| - i
    {
      if varName in FieldsOf(fields, chain[i]) {
        logClass := chain[i];
        break;
      } else {
        i := i + 1;
        if i == |chain| {
          break;
        }
      }
    }
  }

  /** A call to a logging method whose first argument is a string literal. */
  predicate IsLiteralLogCall(c: CallSite)
  {
    c.name in LogMethods && |c.arguments| > 0 && c.arguments[0].StringLiteral?
  }

  /** A literal logging call whose compiled template `Pattern.compile` accepts. */
  predicate Compiled(c: CallSite, compiles: string -> bool)
  {
    IsLiteralLogCall(c) && compiles(ConvertToRegEx(c.arguments[0].value))
  }

  /** The statement recorded for a literal logging call. */
  function StatementOf(c: CallSite, fields: FieldMap): LogStatement
    requires IsLiteralLogCall(c)
  {
    LogStatement(c.name, DeclarationClass(c.scope, c.enclosing, fields), ConvertToRegEx(c.arguments[0].value))
  }

  /** The statements recorded for a file's calls, in call order. */
  function Recorded(calls: seq<CallSite>, fields: FieldMap, compiles: string -> bool): seq<LogStatement>
  {
    if |calls| == 0 then []
    else
      var c := calls[|calls| - 1];
      Recorded(calls[..|calls| - 1], fields, compiles)
        + (if Compiled(c, compiles) then [StatementOf(c, fields)] else [])
  }

  /** The number of literal logging calls, the amount `logCount` grows by. */
  function LiteralLogCalls(calls: seq<CallSite>): nat
  {
    if |calls| == 0 then 0
    else LiteralLogCalls(calls[..|calls| - 1]) + (if IsLiteralLogCall(calls[|calls| - 1]) then 1 else 0)
  }

  /** The lines written for the statements, one each. */
  function Lines(stmts: seq<LogStatement>): (r: seq<string>)
    ensures |r| == |stmts|
    ensures forall k :: 0 <= k < |stmts| ==> r[k] == Serialize(stmts[k])
  {
    if |stmts| == 0 then [] else Lines(stmts[..|stmts| - 1]) + [Serialize(stmts[|stmts| - 1])]
  }

  /** Every literal logging call of `calls` has a template that compiles. */
  predicate AllCompiled(calls: seq<CallSite>, compiles: string -> bool)
  {
    forall i :: 0 <= i < |calls| && IsLiteralLogCall(calls[i]) ==> Compiled(calls[i], compiles)
  }

  /** The number of literal logging calls whose template does not compile. */
  function Uncompiled(calls: seq<CallSite>, compiles: string -> bool): nat
  {
    if |calls| == 0 then 0
    else
      var c := calls[|calls| - 1];
      Uncompiled(calls[..|calls| - 1], compiles) + (if IsLiteralLogCall(c) && !Compiled(c, compiles) then 1 else 0)
  }

  /** One more call, in terms of the calls before it and that call. */
  lemma RecordedStep(calls: seq<CallSite>, i: nat, fields: FieldMap, compiles: string -> bool)
    requires i < |calls|
    ensures Recorded(calls[..i + 1], fields, compiles) ==
              Recorded(calls[..i], fields, compiles)
                + (if Compiled(calls[i], compiles) then [StatementOf(calls[i], fields)] else [])
    ensures LiteralLogCalls(calls[..i + 1]) == LiteralLogCalls(calls[..i]) + (if IsLiteralLogCall(calls[i]) then 1 else 0)
  {
    assert calls[..i + 1][..i] == calls[..i];
  }

  /** Each literal logging call either writes a record or is counted as uncompiled. */
  lemma {:induction false} RecordedPlusUncompiled(calls: seq<CallSite>, fields: FieldMap, compiles: string -> bool)
    ensures |Recorded(calls, fields, compiles)| + Uncompiled(calls, compiles) == LiteralLogCalls(calls)
  {
    if |calls| > 0 {
      RecordedPlusUncompiled(calls[..|calls| - 1], fields, compiles);
    }
  }

  /** No uncompiled literal logging call is the same as all of them compiling. */
  lemma {:induction false} UncompiledNone(calls: seq<CallSite>, compiles: string -> bool)
    ensures Uncompiled(calls, compiles) == 0 <==> AllCompiled(calls, compiles)
  {
    if |calls| > 0 {
      var n := |calls| - 1;
      UncompiledNone(calls[..n], compiles);
      assert forall i :: 0 <= i < n ==> calls[..n][i] == calls[i];
      if AllCompiled(calls[..n], compiles) && (IsLiteralLogCall(calls[n]) ==> Compiled(calls[n], compiles)) {
        assert AllCompiled(calls, compiles);
      }
    }
  }

  /** One more statement writes one more line. */
  lemma LinesSnoc(stmts: seq<LogStatement>, s: LogStatement)
    ensures Lines(stmts + [s]) == Lines(stmts) + [Serialize(s)]
  {
    assert (stmts + [s])[..|stmts|] == stmts;
  }

  /**
   * A file writes at most one record per literal logging call, and exactly
   * one per such call precisely when every one of their templates compiles.
   */
  lemma RecordedWithinLogCount(calls: seq<CallSite>, fields: FieldMap, compiles: string -> bool)
    ensures |Recorded(calls, fields, compiles)| <= LiteralLogCalls(calls)
    ensures |Recorded(calls, fields, compiles)| == LiteralLogCalls(calls) <==>
              forall i :: 0 <= i < |calls| && IsLiteralLogCall(calls[i]) ==> Compiled(calls[i], compiles)
  {
    RecordedPlusUncompiled(calls, fields, compiles);
    UncompiledNone(calls, compiles);
  }

  /**
   * Every record comes from a literal logging call whose template compiled;
   * its level is the called method's name, one of the logging methods.
   */
  lemma {:induction false} RecordedFromLogCalls(calls: seq<CallSite>, fields: FieldMap, compiles: string -> bool)
    ensures forall k :: 0 <= k < |Recorded(calls, fields, compiles)| ==>
              Recorded(calls, fields, compiles)[k].level in LogMethods
              && exists i :: 0 <= i < |calls| && Compiled(calls[i], compiles)
                          && Recorded(calls, fields, compiles)[k] == StatementOf(calls[i], fields)
  {
    if |calls| > 0 {
      var n := |calls| - 1;
      RecordedFromLogCalls(calls[..n], fields, compiles);
      var prev := Recorded(calls[..n], fields, compiles);
      var r := Recorded(calls, fields, compiles);
      forall k | 0 <= k < |r|
        ensures r[k].level in LogMethods
        ensures exists i :: 0 <= i < |calls| && Compiled(calls[i], compiles) && r[k] == StatementOf(calls[i], fields)
      {
        if k < |prev| {
          var i :| 0 <= i < n && Compiled(calls[..n][i], compiles) && prev[k] == StatementOf(calls[..n][i], fields);
          assert calls[i] == calls[..n][i];
        } else {
          assert r[k] == StatementOf(calls[n], fields);
        }
      }
    }
  }

  /** The analyzer's run-wide state: the records written so far and `logCount`. */
  class Analyzer {
    var logCount: nat
    var output: seq<string>

    constructor ()
      ensures logCount == 0 && output == []
    {
      logCount := 0;
      output := [];
    }

    /**
     * `analyzeFile` once the file is parsed: a record is written for every
     * literal logging call whose template compiles, and `logCount` grows by
     * one for every literal logging call, compiled or not.
     */
    method AnalyzeFile(calls: seq<CallSite>, classes: seq<ClassDeclaration>, compiles: string -> bool)
      requires forall i :: 0 <= i < |calls| && Compiled(calls[i], compiles) && calls[i].scope.NameScope? ==>
                 |calls[i].enclosing| > 0
      modifies this
      ensures output == old(output) + Lines(Recorded(calls, FieldMapOf(classes), compiles))
      ensures logCount == old(logCount) + LiteralLogCalls(calls)
    {
      var fields := CollectFields(classes);
      for i := 0 to |calls|
        invariant output == old(output) + Lines(Recorded(calls[..i], fields, compiles))
        invariant logCount == old(logCount) + LiteralLogCalls(calls[..i])
      {
        var c := calls[i];
        RecordedStep(calls, i, fields, compiles);
        if c.name in LogMethods {
          if |c.arguments| > 0 {
            if c.arguments[0].StringLiteral? {
              var logString := c.arguments[0].value;
              var regEx := ConvertToRegEx(logString);
              if compiles(regEx) {
                var clazz := ResolveDeclarationClass(c.scope, c.enclosing, fields);
                var logStatement := LogStatement(c.name, clazz, regEx);
                LinesSnoc(Recorded(calls[..i], fields, compiles), logStatement);
                output := output + [Serialize(logStatement)];
              }
              logCount := logCount + 1;
            }
          }
        }
      }
      assert calls[..|calls|] == calls;
    }
  }
}
