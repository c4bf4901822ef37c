/**
 * The two java.lang.String operations both halves rely on:
 * `split("\\|")` (with its default limit of zero) and `trim()`.
 */
module JavaText {

  /** The field delimiter of the pattern file and of raw log lines. */
  const Bar: char := '|'

  /** The pieces joined back with the delimiter between neighbours. */
  function Join(pieces: seq<string>): string
  {
    if |pieces| == 0 then ""
    else if |pieces| == 1 then pieces[0]
    else pieces[0] + [Bar] + Join(pieces[1..])
  }

  /** `n` delimiters in a row. */
  function Bars(n: nat): (r: string)
    ensures |r| == n && forall k :: 0 <= k < n ==> r[k] == Bar
  {
    if n == 0 then "" else [Bar] + Bars(n - 1)
  }

  /** Every piece between two delimiters, the empty ones included. */
  function Pieces(s: string): (r: seq<string>)
    ensures |r| >= 1
    ensures forall k :: 0 <= k < |r| ==> Bar !in r[k]
  {
    if |s| == 0 then [""]
    else if s[0] == Bar then
      var rest := Pieces(s[1..]);
      [""] + rest
    else
      var rest := Pieces(s[1..]);
      [[s[0]] + rest[0]] + rest[1..]
  }

  /** Joining the pieces gives the string back. */
  lemma {:induction false} JoinPieces(s: string)
    ensures Join(Pieces(s)) == s
  {
    if |s| > 0 {
      var rest := Pieces(s[1..]);
      JoinPieces(s[1..]);
      if s[0] == Bar {
        assert ([""] + rest)[1..] == rest;
        assert s == [Bar] + s[1..];
      } else if |rest| == 1 {
        assert s == [s[0]] + s[1..];
      } else {
        var ps := [[s[0]] + rest[0]] + rest[1..];
        assert ps[1..] == rest[1..];
        assert Join(rest) == rest[0] + [Bar] + Join(rest[1..]);
        assert Join(ps) == [s[0]] + rest[0] + [Bar] + Join(rest[1..]);
        assert s == [s[0]] + s[1..];
      }
    }
  }

  /** The pieces without their run of trailing empty ones. */
  function DropTrailingEmpty(ps: seq<string>): (r: seq<string>)
    ensures r <= ps
    ensures r == [] || r[|r| - 1] != ""
    ensures forall k :: |r| <= k < |ps| ==> ps[k] == ""
  {
    if |ps| == 0 then []
    else if ps[|ps| - 1] == "" then DropTrailingEmpty(ps[..|ps| - 1])
    else ps
  }

  /**
   * `s.split("\\|")`: a string without a delimiter comes back whole (even
   * the empty string); otherwise every piece is kept except the trailing
   * empty ones, so "info|Foo|" gives two tokens and "|" gives none.
   */
  function Split(s: string): (r: seq<string>)
    ensures forall k :: 0 <= k < |r| ==> Bar !in r[k]
    ensures Bar !in s ==> r == [s]
    ensures Bar in s ==> r == [] || r[|r| - 1] != ""
  {
    if Bar !in s then [s] else DropTrailingEmpty(Pieces(s))
  }

  /** `Join` of pieces that end in `n` empty ones ends in `n` delimiters. */
  lemma {:induction false} JoinTrailingEmpty(ps: seq<string>, n: nat)
    requires n <= |ps|
    requires forall k :: |ps| - n <= k < |ps| ==> ps[k] == ""
    ensures |ps| - n > 0 ==> Join(ps) == Join(ps[..|ps| - n]) + Bars(n)
    ensures |ps| - n == 0 && n > 0 ==> Join(ps) == Bars(n - 1)
  {
    if |ps| == 0 {
    } else if |ps| == 1 {
    } else {
      if |ps| - n > 0 {
        JoinTrailingEmpty(ps[1..], if |ps| - n == 1 then n - 1 else n);
        if |ps| - n == 1 {
          assert Join(ps[1..]) == Bars(n - 1);
          assert ps[..|ps| - n] == [ps[0]];
        } else {
          assert ps[1..][..|ps| - 1 - n] == ps[1..|ps| - n];
          assert Join(ps[..|ps| - n]) == ps[0] + [Bar] + Join(ps[1..|ps| - n]);
        }
      } else {
        JoinTrailingEmpty(ps[1..], n - 1);
      }
    }
  }

  /**
   * What `Split` keeps: tokens free of the delimiter that, joined back,
   * give the input up to a run of trailing delimiters.
   */
  lemma SplitRejoins(s: string)
    ensures exists m: nat :: s == Join(Split(s)) + Bars(m)
  {
    if Bar !in s {
      assert s == Join(Split(s)) + Bars(0);
    } else {
      var ps := Pieces(s);
      JoinPieces(s);
      var r := DropTrailingEmpty(ps);
      var n := |ps| - |r|;
      assert r == ps[..|ps| - n];
      JoinTrailingEmpty(ps, n);
      if |r| == 0 {
        if n == 0 { assert false; }
        assert s == Join(r) + Bars(n - 1);
      } else {
        assert s == Join(r) + Bars(n);
      }
    }
  }

  /** The characters `trim()` removes: every code point up to U+0020. */
  predicate Blank(c: char)
  {
    c <= ' '
  }

  /** The number of leading blanks. */
  function LeadingBlanks(s: string): (n: nat)
    ensures n <= |s|
    ensures forall k :: 0 <= k < n ==> Blank(s[k])
    ensures n < |s| ==> !Blank(s[n])
  {
    if |s| == 0 || !Blank(s[0]) then 0 else 1 + LeadingBlanks(s[1..])
  }

  /** The number of trailing blanks. */
  function TrailingBlanks(s: string): (n: nat)
    ensures n <= |s|
    ensures forall k :: |s| - n <= k < |s| ==> Blank(s[k])
    ensures n < |s| ==> !Blank(s[|s| - 1 - n])
  {
    if |s| == 0 || !Blank(s[|s| - 1]) then 0 else 1 + TrailingBlanks(s[..|s| - 1])
  }

  /** `r` is the infix of `s` starting at `i`, with only blanks around it. */
  predicate BlankBoundedInfix(s: string, r: string, i: int)
  {
    && 0 <= i <= |s| - |r| && r == s[i..i + |r|]
    && (forall k :: 0 <= k < i ==> Blank(s[k]))
    && (forall k :: i + |r| <= k < |s| ==> Blank(s[k]))
  }

  /** Neither starts nor ends with a blank. */
  predicate Trimmed(r: string)
  {
    r == [] || (!Blank(r[0]) && !Blank(r[|r| - 1]))
  }

  /**
   * `s.trim()`: the infix of `s` that neither starts nor ends with a blank
   * and has only blanks around it.
   */
  function Trim(s: string): (r: string)
    ensures Trimmed(r)
    ensures exists i :: BlankBoundedInfix(s, r, i)
    ensures forall c :: c in r ==> c in s
  {
    var i := LeadingBlanks(s);
    var j := |s| - TrailingBlanks(s[i..]);
    assert forall k :: j <= k < |s| ==> s[k] == s[i..][k - i];
    assert BlankBoundedInfix(s, s[i..j], i);
    s[i..j]
  }
}
