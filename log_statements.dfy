/**
 * The record both halves share: a logging statement's level, the class it
 * is attributed to, and the source text of its pattern, plus the one-line
 * text form the analyzer writes and the parser reads back.
 */
module LogStatements {
  import opened JavaText

  /** The class name used when a call site's owner cannot be resolved, and the fallback bucket. */
  const DefaultClass: string := "Default-Class"

  /** A compiled pattern is represented by its source text (`Pattern.pattern()`). */
  datatype LogStatement = LogStatement(level: string, clazz: string, pattern: string)

  /** `LogStatement.toString`: the three fields separated by the delimiter. */
  function Serialize(s: LogStatement): (r: string)
    ensures |r| == |s.level| + |s.clazz| + |s.pattern| + 2
  {
    s.level + [Bar] + s.clazz + [Bar] + s.pattern
  }

  /**
   * When no field holds the delimiter, the pieces between the delimiters of
   * the written line are exactly the level, the class and the pattern.
   */
  lemma SerializePieces(s: LogStatement)
    requires Bar !in s.level && Bar !in s.clazz && Bar !in s.pattern
    ensures Pieces(Serialize(s)) == [s.level, s.clazz, s.pattern]
  {
    PiecesAfterBarFreePrefix(s.level, s.clazz + [Bar] + s.pattern);
    PiecesAfterBarFreePrefix(s.clazz, s.pattern);
    PiecesOfBarFree(s.pattern);
    assert Serialize(s) == s.level + [Bar] + (s.clazz + [Bar] + s.pattern);
  }

  /** A string without a delimiter is one piece. */
  lemma {:induction false} PiecesOfBarFree(s: string)
    requires Bar !in s
    ensures Pieces(s) == [s]
  {
    if |s| > 0 {
      assert s[0] in s && Bar !in s[1..];
      PiecesOfBarFree(s[1..]);
      assert [s[0]] + s[1..] == s;
    }
  }

  /** A delimiter-free prefix followed by the delimiter becomes the first piece. */
  lemma {:induction false} PiecesAfterBarFreePrefix(a: string, b: string)
    requires Bar !in a
    ensures Pieces(a + [Bar] + b) == [a] + Pieces(b)
  {
    var s := a + [Bar] + b;
    if |a| == 0 {
      assert s[0] == Bar && s[1..] == b;
    } else {
      PiecesAfterBarFreePrefix(a[1..], b);
      assert s[0] == a[0] != Bar;
      assert s[1..] == a[1..] + [Bar] + b;
      var rest := Pieces(s[1..]);
      assert rest == [a[1..]] + Pieces(b);
      assert Pieces(s) == [[a[0]] + rest[0]] + rest[1..];
      assert [a[0]] + a[1..] == a;
    }
  }
}
