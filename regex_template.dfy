/**
 * The template compiler of the source analyzer: a logging template such as
 * "Application {} has been installed" becomes a regular-expression source in
 * two passes, first a backslash before every special character, then a
 * capturing group in place of every `{}` placeholder.
 */
module RegexTemplate {

  /**
   * The characters of the class REGEX_SPECIAL_CHARS, among them two
   * invisible ones (U+200C and U+200B). The braces are not among them.
   */
  const SpecialChars: set<char> :=
    {'<', '(', '[', '\\', '^', '-', '=', '$', '!', '|', ']', ')',
     '\U{200C}', '\U{200B}', '?', '*', '+', '.', '>'}

  /**
   * The text put in place of each placeholder once Java's replacement
   * string has been unescaped: `([\\w]+)`, with two backslashes, so the
   * bracket class holds a backslash and the letter w.
   */
  const GroupText: string := "([\\\\w]+)"

  /** The escaped form of one template character. */
  function EscapeChar(c: char): string
  {
    if c in SpecialChars then ['\\', c] else [c]
  }

  /** The number of special characters in `t`. */
  function SpecialCount(t: string): nat
  {
    if |t| == 0 then 0 else (if t[0] in SpecialChars then 1 else 0) + SpecialCount(t[1..])
  }

  /** First pass: one backslash before every special character. */
  function Escape(t: string): (r: string)
    ensures |r| == |t| + SpecialCount(t)
    ensures |t| > 0 ==> (r[0] == '}' <==> t[0] == '}') && (r[0] == '{' <==> t[0] == '{')
  {
    if |t| == 0 then [] else EscapeChar(t[0]) + Escape(t[1..])
  }

  /** Deletes the backslash in front of each escaped character. */
  function Unescape(s: string): string
  {
    if |s| == 0 then []
    else if s[0] == '\\' && |s| >= 2 then [s[1]] + Unescape(s[2..])
    else [s[0]] + Unescape(s[1..])
  }

  /**
   * Every special character of `s` stands escaped, and a backslash only
   * ever escapes a special character.
   */
  predicate Escaped(s: string)
  {
    if |s| == 0 then true
    else if s[0] == '\\' then |s| >= 2 && s[1] in SpecialChars && Escaped(s[2..])
    else s[0] !in SpecialChars && Escaped(s[1..])
  }

  /** Whether a placeholder starts at the head of `s`. */
  predicate AtPlaceholder(s: string)
  {
    |s| >= 2 && s[0] == '{' && s[1] == '}'
  }

  /** The placeholders of `s`, taken left to right without overlap. */
  function Placeholders(s: string): nat
  {
    if |s| == 0 then 0
    else if AtPlaceholder(s) then 1 + Placeholders(s[2..])
    else Placeholders(s[1..])
  }

  /** Second pass: every placeholder, left to right, becomes `GroupText`. */
  function Substitute(s: string): (r: string)
    ensures |r| == |s| + Placeholders(s) * (|GroupText| - 2)
    ensures |s| > 0 ==> |r| > 0 && (r[0] == '}' <==> s[0] == '}')
  {
    if |s| == 0 then []
    else if AtPlaceholder(s) then GroupText + Substitute(s[2..])
    else [s[0]] + Substitute(s[1..])
  }

  /** `convertToRegEx` up to the call of `Pattern.compile`. */
  function ConvertToRegEx(t: string): (r: string)
    ensures |r| == |t| + SpecialCount(t) + Placeholders(t) * (|GroupText| - 2)
  {
    EscapeKeepsPlaceholders(t);
    Substitute(Escape(t))
  }

  /**
   * The capturing groups a pattern opens: an unescaped `(` not followed by
   * `?`. Bracket classes are not tracked, so the count is exact for
   * sources whose classes hold no `(`, as every compiled template's are.
   */
  function CapturingGroups(s: string): nat
  {
    if |s| == 0 then 0
    else if s[0] == '\\' then (if |s| >= 2 then CapturingGroups(s[2..]) else 0)
    else if s[0] == '(' && !(|s| >= 2 && s[1] == '?') then 1 + CapturingGroups(s[1..])
    else CapturingGroups(s[1..])
  }

  /** Deleting the inserted backslashes gives back the template. */
  lemma {:induction false} EscapeRoundTrip(t: string)
    ensures Unescape(Escape(t)) == t
  {
    if |t| > 0 {
      EscapeRoundTrip(t[1..]);
      var e := Escape(t[1..]);
      if t[0] in SpecialChars {
        assert (['\\', t[0]] + e)[2..] == e;
      } else {
        assert ([t[0]] + e)[1..] == e;
      }
      assert [t[0]] + t[1..] == t;
    }
  }

  /** The output of the first pass leaves no special character unescaped. */
  lemma {:induction false} EscapeIsEscaped(t: string)
    ensures Escaped(Escape(t))
  {
    if |t| > 0 {
      EscapeIsEscaped(t[1..]);
      var e := Escape(t[1..]);
      if t[0] in SpecialChars {
        assert (['\\', t[0]] + e)[2..] == e;
      } else {
        assert ([t[0]] + e)[1..] == e;
      }
    }
  }

  /** Escaping is onto the escaped strings: each is the escaped form of its unescaping. */
  lemma {:induction false} EscapedIsEscapeOfUnescape(s: string)
    requires Escaped(s)
    ensures Escape(Unescape(s)) == s
  {
    if |s| > 0 {
      if s[0] == '\\' {
        EscapedIsEscapeOfUnescape(s[2..]);
        assert Unescape(s) == [s[1]] + Unescape(s[2..]);
        assert ([s[1]] + Unescape(s[2..]))[1..] == Unescape(s[2..]);
        assert s == ['\\', s[1]] + s[2..];
      } else {
        EscapedIsEscapeOfUnescape(s[1..]);
        assert ([s[0]] + Unescape(s[1..]))[1..] == Unescape(s[1..]);
        assert s == [s[0]] + s[1..];
      }
    }
  }

  /** A placeholder at the head of the template passes the first pass unchanged. */
  lemma EscapeAtPlaceholder(t: string)
    requires AtPlaceholder(t)
    ensures Escape(t) == "{}" + Escape(t[2..])
  {
    var u := t[1..];
    assert u[0] == '}' && u[1..] == t[2..];
    assert EscapeChar('{') == "{" && EscapeChar('}') == "}";
    assert Escape(u) == "}" + Escape(t[2..]);
  }

  /** Braces are not special, so the first pass keeps every placeholder. */
  lemma {:induction false} EscapeKeepsPlaceholders(t: string)
    ensures Placeholders(Escape(t)) == Placeholders(t)
  {
    if |t| > 0 {
      if AtPlaceholder(t) {
        EscapeKeepsPlaceholders(t[2..]);
        EscapeAtPlaceholder(t);
        var e := Escape(t[2..]);
        assert ("{}" + e)[2..] == e;
      } else {
        EscapeKeepsPlaceholders(t[1..]);
        var e := Escape(t[1..]);
        var tail := [t[0]] + e;
        assert tail[1..] == e;
        assert !AtPlaceholder(tail);
        if t[0] in SpecialChars {
          var s := ['\\', t[0]] + e;
          assert Escape(t) == s;
          assert s[1..] == tail;
        } else {
          assert Escape(t) == tail;
        }
      }
    }
  }

  /** No placeholder survives the second pass. */
  lemma {:induction false} SubstituteLeavesNoPlaceholder(s: string)
    ensures forall i :: 0 <= i < |Substitute(s)| - 1 ==> !AtPlaceholder(Substitute(s)[i..])
  {
    if |s| > 0 {
      var r := Substitute(s);
      if AtPlaceholder(s) {
        SubstituteLeavesNoPlaceholder(s[2..]);
        var rest := Substitute(s[2..]);
        forall i | 0 <= i < |r| - 1 ensures !AtPlaceholder(r[i..]) {
          if i >= |GroupText| {
            assert r[i..] == rest[i - |GroupText|..];
          } else {
            assert r[i] == GroupText[i];
          }
        }
      } else {
        SubstituteLeavesNoPlaceholder(s[1..]);
        var rest := Substitute(s[1..]);
        forall i | 0 <= i < |r| - 1 ensures !AtPlaceholder(r[i..]) {
          if i >= 1 {
            assert r[i..] == rest[i - 1..];
          } else {
            assert r[1] == rest[0];
          }
        }
      }
    }
  }

  /** A compiled template holds no `{}`. */
  lemma ConvertLeavesNoPlaceholder(t: string)
    ensures forall i :: 0 <= i < |ConvertToRegEx(t)| - 1 ==> !AtPlaceholder(ConvertToRegEx(t)[i..])
  {
    SubstituteLeavesNoPlaceholder(Escape(t));
  }

  /** The group text opens exactly one capturing group and closes it. */
  lemma GroupTextOpensOneGroup(x: string)
    ensures CapturingGroups(GroupText + x) == 1 + CapturingGroups(x)
  {
    var s := GroupText + x;
    var s1 := "[\\\\w]+)" + x;
    var s2 := "\\\\w]+)" + x;
    var s4 := "w]+)" + x;
    var s5 := "]+)" + x;
    var s6 := "+)" + x;
    var s7 := ")" + x;
    assert s[1..] == s1 && s1[1..] == s2 && s2[2..] == s4;
    assert s4[1..] == s5 && s5[1..] == s6 && s6[1..] == s7 && s7[1..] == x;
    assert CapturingGroups(s) == 1 + CapturingGroups(s1);
    assert CapturingGroups(s1) == CapturingGroups(s2);
    assert CapturingGroups(s2) == CapturingGroups(s4);
    assert CapturingGroups(s4) == CapturingGroups(s5);
    assert CapturingGroups(s5) == CapturingGroups(s6);
    assert CapturingGroups(s6) == CapturingGroups(s7);
    assert CapturingGroups(s7) == CapturingGroups(x);
  }

  /** A placeholder at the head of the template becomes the group text. */
  lemma ConvertAtPlaceholder(t: string)
    requires AtPlaceholder(t)
    ensures ConvertToRegEx(t) == GroupText + ConvertToRegEx(t[2..])
  {
    var e := Escape(t[2..]);
    EscapeAtPlaceholder(t);
    assert ("{}" + e)[2..] == e;
  }

  /** A special character at the head of the template comes out escaped. */
  lemma ConvertSpecial(t: string)
    requires |t| > 0 && t[0] in SpecialChars
    ensures ConvertToRegEx(t) == ['\\', t[0]] + ConvertToRegEx(t[1..])
  {
    var e := Escape(t[1..]);
    var s := ['\\', t[0]] + e;
    assert Escape(t) == s;
    assert s[1..] == [t[0]] + e;
    assert ([t[0]] + e)[1..] == e;
    assert Substitute(s) == ['\\'] + Substitute([t[0]] + e);
  }

  /** Any other character at the head of the template comes out as it is. */
  lemma ConvertPlain(t: string)
    requires |t| > 0 && !AtPlaceholder(t) && t[0] !in SpecialChars
    ensures ConvertToRegEx(t) == [t[0]] + ConvertToRegEx(t[1..])
  {
    var e := Escape(t[1..]);
    assert Escape(t) == [t[0]] + e;
    assert ([t[0]] + e)[1..] == e;
  }

  /**
   * The compiled pattern opens one capturing group per placeholder of the
   * template, and no other.
   */
  lemma {:induction false} ConvertGroupCount(t: string)
    ensures CapturingGroups(ConvertToRegEx(t)) == Placeholders(t)
  {
    if |t| > 0 {
      if AtPlaceholder(t) {
        ConvertGroupCount(t[2..]);
        ConvertAtPlaceholder(t);
        GroupTextOpensOneGroup(ConvertToRegEx(t[2..]));
      } else if t[0] in SpecialChars {
        ConvertGroupCount(t[1..]);
        ConvertSpecial(t);
        var r := ConvertToRegEx(t[1..]);
        assert (['\\', t[0]] + r)[2..] == r;
      } else {
        ConvertGroupCount(t[1..]);
        ConvertPlain(t);
        var r := ConvertToRegEx(t[1..]);
        assert ([t[0]] + r)[1..] == r;
      }
    }
  }

  /** Escaping adds backslashes only, so it neither adds nor removes a `|`. */
  lemma {:induction false} EscapeKeepsBar(t: string)
    ensures '|' in Escape(t) <==> '|' in t
  {
    if |t| > 0 {
      EscapeKeepsBar(t[1..]);
      assert Escape(t) == EscapeChar(t[0]) + Escape(t[1..]);
      assert t == [t[0]] + t[1..];
    }
  }

  /** Neither a placeholder nor the group text holds a `|`. */
  lemma {:induction false} SubstituteKeepsBar(s: string)
    ensures '|' in Substitute(s) <==> '|' in s
  {
    if |s| > 0 {
      if AtPlaceholder(s) {
        SubstituteKeepsBar(s[2..]);
        assert s == s[..2] + s[2..] && s[..2] == "{}";
        assert '|' !in GroupText;
      } else {
        SubstituteKeepsBar(s[1..]);
        assert s == [s[0]] + s[1..];
      }
    }
  }

  /** The pattern holds the delimiter exactly when the template does. */
  lemma ConvertKeepsBar(t: string)
    ensures '|' in ConvertToRegEx(t) <==> '|' in t
  {
    EscapeKeepsBar(t);
    SubstituteKeepsBar(Escape(t));
  }
}
