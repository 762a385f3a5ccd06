/**
 * String helpers that ghast relies on from the JavaScript runtime:
 * `String.prototype.split(/\s+/)`, `split('\n')[0]` and the decimal
 * rendering of a non-negative integer.
 */
module Text {

  /** The characters matched by the JavaScript regular-expression class `\s`. */
  predicate IsSpace(c: char) {
    || c == ' ' || c == '\t' || c == '\n' || c == '\U{B}' || c == '\U{C}' || c == '\r'
    || c == '\U{A0}' || c == '\U{1680}' || ('\U{2000}' <= c <= '\U{200A}')
    || c == '\U{2028}' || c == '\U{2029}' || c == '\U{202F}' || c == '\U{205F}'
    || c == '\U{3000}' || c == '\U{FEFF}'
  }

  /** A string without any whitespace character. */
  predicate NoSpace(s: string) {
    forall i :: 0 <= i < |s| ==> !IsSpace(s[i])
  }

  /** Length of the longest prefix of `s` that has no whitespace. */
  function WordLength(s: string): (n: nat)
    ensures n <= |s|
    ensures NoSpace(s[..n])
    ensures n < |s| ==> IsSpace(s[n])
  {
    if s == [] || IsSpace(s[0]) then 0
    else
      var n := 1 + WordLength(s[1..]);
      assert s[..n] == [s[0]] + s[1..][..n - 1];
      n
  }

  /** Length of the longest prefix of `s` made of whitespace. */
  function SpaceLength(s: string): (n: nat)
    ensures n <= |s|
    ensures forall i :: 0 <= i < n ==> IsSpace(s[i])
    ensures n < |s| ==> !IsSpace(s[n])
  {
    if s == [] || !IsSpace(s[0]) then 0 else 1 + SpaceLength(s[1..])
  }

  /**
   * `s.split(/\s+/)`: the pieces between maximal runs of whitespace. A
   * leading or trailing run yields an empty first or last piece, and the
   * empty string yields the single piece "".
   */
  function Split(s: string): (r: seq<string>)
    ensures Splittable(r)
    ensures s != [] && !IsSpace(s[0]) ==> r[0] != []
    decreases |s|
  {
    var w := WordLength(s);
    if w == |s| then
      assert s[..w] == s;
      [s]
    else
      var rest := s[w..];
      var gap := SpaceLength(rest);
      [s[..w]] + Split(rest[gap..])
  }

  /** The pieces joined with one space between neighbours. */
  function JoinSpaced(ts: seq<string>): string {
    if |ts| == 0 then ""
    else if |ts| == 1 then ts[0]
    else ts[0] + " " + JoinSpaced(ts[1..])
  }

  lemma WordLengthAfterWord(a: string, b: string)
    requires NoSpace(a)
    requires b == [] || IsSpace(b[0])
    ensures WordLength(a + b) == |a|
  {
    if a != [] {
      assert (a + b)[1..] == a[1..] + b;
      WordLengthAfterWord(a[1..], b);
    }
  }

  /** A word without whitespace splits into itself. */
  lemma SplitWord(w: string)
    requires NoSpace(w)
    ensures Split(w) == [w]
  {
    WordLengthAfterWord(w, []);
    assert w + [] == w;
  }

  /** The whitespace run at the start of `g + j`, for a run `g` followed by a non-blank character or nothing. */
  lemma {:induction false} GapLength(g: string, j: string)
    requires forall i :: 0 <= i < |g| ==> IsSpace(g[i])
    requires j == [] || !IsSpace(j[0])
    ensures SpaceLength(g + j) == |g|
  {
    if g != [] {
      assert (g + j)[1..] == g[1..] + j;
      GapLength(g[1..], j);
    } else {
      assert g + j == j;
    }
  }

  /**
   * Splitting a word, a non-empty run of any whitespace and a text that
   * starts with a word: the word is the first piece. With `j` empty this
   * is the trailing run, which yields an empty last piece.
   */
  lemma SplitWordGap(w: string, g: string, j: string)
    requires NoSpace(w)
    requires g != [] && forall i :: 0 <= i < |g| ==> IsSpace(g[i])
    requires j == [] || !IsSpace(j[0])
    ensures Split(w + g + j) == [w] + Split(j)
  {
    var s := w + g + j;
    assert s == w + (g + j);
    WordLengthAfterWord(w, g + j);
    assert s[..|w|] == w;
    assert s[|w|..] == g + j;
    GapLength(g, j);
    assert (g + j)[|g|..] == j;
  }

  /** A leading run of whitespace yields an empty first piece. */
  lemma SplitLeadingGap(g: string, j: string)
    requires g != [] && forall i :: 0 <= i < |g| ==> IsSpace(g[i])
    requires j == [] || !IsSpace(j[0])
    ensures Split(g + j) == [""] + Split(j)
  {
    var s := g + j;
    assert WordLength(s) == 0;
    assert s[..0] == "";
    GapLength(g, j);
    assert s[0..] == s;
    assert s[|g|..] == j;
  }

  /** Splitting a word, one space and a text that starts with a word. */
  lemma SplitWordSpace(w: string, j: string)
    requires NoSpace(w)
    requires j == [] || !IsSpace(j[0])
    ensures Split(w + (" " + j)) == [w] + Split(j)
  {
    var s := w + (" " + j);
    WordLengthAfterWord(w, " " + j);
    assert s[..|w|] == w;
    assert s[|w|..] == " " + j;
    assert SpaceLength(" " + j) == 1;
    assert (" " + j)[1..] == j;
  }

  /** Joined pieces start with a non-blank character when the first piece is not empty. */
  lemma JoinSpacedStart(ts: seq<string>)
    requires |ts| >= 1 && NoSpace(ts[0])
    requires |ts| >= 2 ==> ts[0] != []
    ensures JoinSpaced(ts) == [] || !IsSpace(JoinSpaced(ts)[0])
  {
    if |ts| >= 2 {
      assert JoinSpaced(ts)[0] == ts[0][0];
    }
  }

  /**
   * The shape of Split's results: at least one piece, no piece holds
   * whitespace, and only the first and the last piece may be empty.
   */
  predicate Splittable(ts: seq<string>) {
    && |ts| >= 1
    && (forall i :: 0 <= i < |ts| ==> NoSpace(ts[i]))
    && (forall i :: 0 < i < |ts| - 1 ==> ts[i] != [])
  }

  /** Without its first piece, a shaped list with two or more pieces keeps its shape. */
  lemma SplittableTail(ts: seq<string>)
    requires Splittable(ts) && |ts| >= 2
    ensures NoSpace(ts[0]) && Splittable(ts[1..])
    ensures ts[1..][0] == ts[1] && (|ts| >= 3 ==> ts[1] != [])
  {
    var rest := ts[1..];
    assert forall i :: 0 <= i < |rest| ==> rest[i] == ts[i + 1];
  }

  /**
   * Splitting undoes joining with single spaces, for lists of Split's
   * shape: none of the pieces has whitespace and the interior ones are
   * non-empty.
   */
  lemma {:induction false} SplitJoinSpaced(ts: seq<string>)
    requires Splittable(ts)
    ensures Split(JoinSpaced(ts)) == ts
  {
    if |ts| == 1 {
      SplitWord(ts[0]);
    } else {
      var rest := ts[1..];
      SplittableTail(ts);
      JoinSpacedStart(rest);
      var j := JoinSpaced(rest);
      assert JoinSpaced(ts) == ts[0] + (" " + j);
      SplitWordSpace(ts[0], j);
      SplitJoinSpaced(rest);
      assert ts == [ts[0]] + rest;
    }
  }

  /** `s.split('\n')[0]`: everything before the first line break. */
  function FirstLine(s: string): (r: string)
    ensures '\n' !in r
    ensures r <= s
    ensures |r| < |s| ==> s[|r|] == '\n'
  {
    if s == [] || s[0] == '\n' then [] else [s[0]] + FirstLine(s[1..])
  }

  function DigitChar(d: nat): (c: char)
    requires d < 10
    ensures '0' <= c <= '9' && c as int - '0' as int == d
  {
    "0123456789"[d]
  }

  predicate AllDigits(s: string) {
    forall i :: 0 <= i < |s| ==> '0' <= s[i] <= '9'
  }

  /** The decimal notation JavaScript prints for a non-negative integer: no leading zero. */
  function NatToString(n: nat): (r: string)
    ensures |r| >= 1 && AllDigits(r)
    ensures n >= 10 <==> |r| >= 2
    ensures n >= 10 ==> r[0] != '0'
  {
    if n < 10 then [DigitChar(n)] else NatToString(n / 10) + [DigitChar(n % 10)]
  }

  /** The value of a string of decimal digits. */
  function DigitsValue(s: string): nat
    requires AllDigits(s)
  {
    if s == [] then 0 else DigitsValue(s[..|s| - 1]) * 10 + (s[|s| - 1] as int - '0' as int)
  }

  /** Reading back the printed digits gives the number printed. */
  lemma {:induction false} NatToStringValue(n: nat)
    ensures DigitsValue(NatToString(n)) == n
  {
    if n >= 10 {
      var r := NatToString(n);
      assert r[..|r| - 1] == NatToString(n / 10);
      NatToStringValue(n / 10);
    }
  }

  /**
   * The decimal notation JavaScript prints for an integer: a minus sign
   * exactly for a negative one, then the digits of its magnitude, without
   * a leading zero.
   */
  function IntToString(i: int): (r: string)
    ensures |r| >= 1 && (r[0] == '-' <==> i < 0)
    ensures i < 0 ==> AllDigits(r[1..]) && DigitsValue(r[1..]) == -i
    ensures i >= 0 ==> AllDigits(r) && DigitsValue(r) == i
    ensures i < 0 ==> (i <= -10 <==> |r[1..]| >= 2) && (i <= -10 ==> r[1] != '0')
    ensures i >= 0 ==> (i >= 10 <==> |r| >= 2) && (i >= 10 ==> r[0] != '0')
  {
    var t := NatToString(if i < 0 then -i else i);
    NatToStringValue(if i < 0 then -i else i);
    DigitsUnsigned(t);
    if i < 0 then "-" + t else t
  }

  /** A digit string does not start with a minus sign, and a sign put before it comes off whole. */
  lemma DigitsUnsigned(t: string)
    requires |t| >= 1 && AllDigits(t)
    ensures t[0] != '-' && ("-" + t)[0] == '-' && ("-" + t)[1..] == t
  {
  }
}
