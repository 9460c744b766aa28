/**
 * The text normalisation and word matching of `tokenize`: ASCII lower-casing,
 * trailing-whitespace stripping, and `re.findall` of the pattern
 *   [a-zA-Z0-9]+(?:'?[a-zA-Z0-9])*(?:-*[a-zA-Z0-9]+)*
 * written out as a deterministic left-to-right scanner.
 */
module Scanner {
  import opened Seqs

  /** The character class `[a-zA-Z0-9]` of the pattern. */
  predicate IsWordChar(c: char) {
    'a' <= c <= 'z' || 'A' <= c <= 'Z' || '0' <= c <= '9'
  }

  predicate IsUpper(c: char) {
    'A' <= c <= 'Z'
  }

  /** No character of `s` is an upper-case ASCII letter. */
  predicate NoUpper(s: string) {
    forall k :: 0 <= k < |s| ==> !IsUpper(s[k])
  }

  /** A character that can never be part of a match nor continue one. */
  predicate IsSeparator(c: char) {
    !IsWordChar(c) && c != '\'' && c != '-'
  }

  function LowerChar(c: char): (d: char)
    ensures !IsUpper(d)
    ensures IsWordChar(d) <==> IsWordChar(c)
    ensures d == '\'' <==> c == '\''
    ensures d == '-' <==> c == '-'
  {
    if IsUpper(c) then (c as int + 32) as char else c
  }

  /** `str.lower()` restricted to ASCII letters. */
  function Lower(s: string): (r: string)
    ensures |r| == |s|
  {
    seq(|s|, k requires 0 <= k < |s| => LowerChar(s[k]))
  }

  /** The characters `str.isspace()` accepts. */
  const Whitespace: set<char> := {
    ' ', '\t', '\n', '\r', '\U{0B}', '\U{0C}', '\U{1C}', '\U{1D}', '\U{1E}', '\U{1F}',
    '\U{85}', '\U{A0}', '\U{1680}', '\U{2000}', '\U{2001}', '\U{2002}', '\U{2003}',
    '\U{2004}', '\U{2005}', '\U{2006}', '\U{2007}', '\U{2008}', '\U{2009}', '\U{200A}',
    '\U{2028}', '\U{2029}', '\U{202F}', '\U{205F}', '\U{3000}'
  }

  predicate IsSpace(c: char) {
    c in Whitespace
  }

  /** `str.rstrip()`: the longest prefix of `s` that does not end in whitespace. */
  function RStrip(s: string): (r: string)
    ensures |r| <= |s| && r == s[..|r|]
    ensures r == [] || !IsSpace(r[|r| - 1])
    ensures forall k :: |r| <= k < |s| ==> IsSpace(s[k])
    decreases |s|
  {
    if s == [] then []
    else if IsSpace(s[|s| - 1]) then RStrip(s[..|s| - 1])
    else s
  }

  /** `text.lower().rstrip()` */
  function Normalize(text: string): string {
    RStrip(Lower(text))
  }

  /** End of the run of word characters starting at `i`. */
  function WordRunEnd(t: string, i: nat): (j: nat)
    requires i <= |t|
    ensures i <= j <= |t|
    ensures i < |t| && IsWordChar(t[i]) ==> i < j
    decreases |t| - i
  {
    if i < |t| && IsWordChar(t[i]) then WordRunEnd(t, i + 1) else i
  }

  /** The run is maximal: word characters up to its end and none at it. */
  lemma {:induction false} WordRunEndShape(t: string, i: nat)
    requires i <= |t|
    ensures var j := WordRunEnd(t, i);
            && (forall k :: i <= k < j ==> IsWordChar(t[k]))
            && (j == |t| || !IsWordChar(t[j]))
    decreases |t| - i
  {
    if i < |t| && IsWordChar(t[i]) {
      WordRunEndShape(t, i + 1);
    }
  }

  /** End of the run of hyphens starting at `i`. */
  function HyphenRunEnd(t: string, i: nat): (j: nat)
    requires i <= |t|
    ensures i <= j <= |t|
    decreases |t| - i
  {
    if i < |t| && t[i] == '-' then HyphenRunEnd(t, i + 1) else i
  }

  /** The run is maximal: hyphens up to its end and none at it. */
  lemma {:induction false} HyphenRunEndShape(t: string, i: nat)
    requires i <= |t|
    ensures var j := HyphenRunEnd(t, i);
            && (forall k :: i <= k < j ==> t[k] == '-')
            && (j == |t| || t[j] != '-')
    decreases |t| - i
  {
    if i < |t| && t[i] == '-' {
      HyphenRunEndShape(t, i + 1);
    }
  }

  /**
   * The part `[a-zA-Z0-9]+(?:'?[a-zA-Z0-9])*` matched from `i`: word characters,
   * where a single apostrophe is taken only when a word character follows it.
   */
  function ApostrophePart(t: string, i: nat): (j: nat)
    requires i < |t| && IsWordChar(t[i])
    ensures i < j <= |t|
    decreases |t| - i
  {
    var e := WordRunEnd(t, i);
    if e + 1 < |t| && t[e] == '\'' && IsWordChar(t[e + 1]) then ApostrophePart(t, e + 1) else e
  }

  /**
   * `ApostrophePart` ends on a word character, at a point where the sub-pattern
   * can go no further.
   */
  lemma {:induction false} ApostrophePartEnd(t: string, i: nat)
    requires i < |t| && IsWordChar(t[i])
    ensures var j := ApostrophePart(t, i);
            && IsWordChar(t[j - 1])
            && (j == |t| || !IsWordChar(t[j]))
            && !(j + 1 < |t| && t[j] == '\'' && IsWordChar(t[j + 1]))
    decreases |t| - i
  {
    var e := WordRunEnd(t, i);
    WordRunEndShape(t, i);
    if e + 1 < |t| && t[e] == '\'' && IsWordChar(t[e + 1]) {
      ApostrophePartEnd(t, e + 1);
    } else {
      assert IsWordChar(t[e - 1]);
    }
  }

  /**
   * `ApostrophePart` takes only word characters and apostrophes, and every
   * apostrophe it takes lies between two word characters.
   */
  lemma {:induction false} ApostrophePartChars(t: string, i: nat)
    requires i < |t| && IsWordChar(t[i])
    ensures var j := ApostrophePart(t, i);
            && (forall k :: i <= k < j ==> IsWordChar(t[k]) || t[k] == '\'')
            && (forall k :: i <= k < j && t[k] == '\'' ==> i < k < j - 1 && IsWordChar(t[k - 1]) && IsWordChar(t[k + 1]))
    decreases |t| - i
  {
    var e := WordRunEnd(t, i);
    WordRunEndShape(t, i);
    if e + 1 < |t| && t[e] == '\'' && IsWordChar(t[e + 1]) {
      ApostrophePartChars(t, e + 1);
      assert IsWordChar(t[e - 1]);
    }
  }

  /**
   * The part `(?:-*[a-zA-Z0-9]+)*` matched from `i`: each group is a run of
   * hyphens followed by a run of word characters; a hyphen run with no word
   * character after it is given back.
   */
  function HyphenPart(t: string, i: nat): (j: nat)
    requires i <= |t|
    ensures i <= j <= |t|
    decreases |t| - i
  {
    var h := HyphenRunEnd(t, i);
    if h < |t| && IsWordChar(t[h]) then HyphenPart(t, WordRunEnd(t, h)) else i
  }

  /** `HyphenPart` takes only word characters and hyphens, and ends on a word character. */
  lemma {:induction false} HyphenPartShape(t: string, i: nat)
    requires i <= |t|
    ensures var j := HyphenPart(t, i);
            && (i < j ==> IsWordChar(t[j - 1]))
            && (forall k :: i <= k < j ==> IsWordChar(t[k]) || t[k] == '-')
    decreases |t| - i
  {
    var h := HyphenRunEnd(t, i);
    HyphenRunEndShape(t, i);
    if h < |t| && IsWordChar(t[h]) {
      var w := WordRunEnd(t, h);
      WordRunEndShape(t, h);
      HyphenPartShape(t, w);
      assert IsWordChar(t[w - 1]);
    }
  }

  /**
   * `HyphenPart` is maximal: where it stops, no run of hyphens followed by a
   * word character could be taken as one more group.
   */
  lemma {:induction false} HyphenPartMaximal(t: string, i: nat)
    requires i <= |t|
    ensures var h := HyphenRunEnd(t, HyphenPart(t, i));
            !(h < |t| && IsWordChar(t[h]))
    decreases |t| - i
  {
    var h := HyphenRunEnd(t, i);
    if h < |t| && IsWordChar(t[h]) {
      HyphenPartMaximal(t, WordRunEnd(t, h));
    }
  }

  /** End of the match that starts at `i`. */
  function TokenEnd(t: string, i: nat): (j: nat)
    requires i < |t| && IsWordChar(t[i])
    ensures i < j <= |t|
  {
    HyphenPart(t, ApostrophePart(t, i))
  }

  /**
   * A match cannot be extended: no word character follows it, nor hyphens and
   * then a word character, nor (when it took no hyphen group) an apostrophe and
   * then a word character.
   */
  lemma TokenEndMaximal(t: string, i: nat)
    requires i < |t| && IsWordChar(t[i])
    ensures var j := TokenEnd(t, i);
            && (j == |t| || !IsWordChar(t[j]))
            && !(HyphenRunEnd(t, j) < |t| && IsWordChar(t[HyphenRunEnd(t, j)]))
            && (j == ApostrophePart(t, i) ==> !(j + 1 < |t| && t[j] == '\'' && IsWordChar(t[j + 1])))
  {
    var a := ApostrophePart(t, i);
    var j := HyphenPart(t, a);
    HyphenPartMaximal(t, a);
    ApostrophePartEnd(t, i);
    if j < |t| && t[j] != '-' {
      HyphenRunEndShape(t, j);
      assert HyphenRunEnd(t, j) == j;
    }
  }

  /** `re.findall` from position `i`: a match can only start at a word character. */
  function Scan(t: string, i: nat): (ws: seq<string>)
    requires i <= |t|
    decreases |t| - i
  {
    if i == |t| then []
    else if !IsWordChar(t[i]) then Scan(t, i + 1)
    else [t[i..TokenEnd(t, i)]] + Scan(t, TokenEnd(t, i))
  }

  function FindAll(t: string): seq<string> {
    Scan(t, 0)
  }

  /**
   * The shape `A+ ('A+)* (-+A+)*` with `A` a word character: starts and ends with a
   * word character, apostrophes sit between two word characters, and no apostrophe
   * follows a hyphen.
   */
  predicate WellFormedToken(w: string) {
    && |w| > 0
    && IsWordChar(w[0])
    && IsWordChar(w[|w| - 1])
    && (forall k :: 0 <= k < |w| ==> IsWordChar(w[k]) || w[k] == '\'' || w[k] == '-')
    && (forall k :: 0 < k < |w| - 1 && w[k] == '\'' ==> IsWordChar(w[k - 1]) && IsWordChar(w[k + 1]))
    && (forall k, m :: 0 <= k < m < |w| && w[k] == '-' ==> w[m] != '\'')
  }

  lemma WellFormedNoDoubleApostrophe(w: string)
    requires WellFormedToken(w)
    ensures forall k :: 0 <= k < |w| - 1 ==> !(w[k] == '\'' && w[k + 1] == '\'')
  {
  }

  lemma TokenWellFormed(t: string, i: nat)
    requires i < |t| && IsWordChar(t[i])
    ensures WellFormedToken(t[i..TokenEnd(t, i)])
  {
    var a := ApostrophePart(t, i);
    var j := HyphenPart(t, a);
    ApostrophePartEnd(t, i);
    ApostrophePartChars(t, i);
    HyphenPartShape(t, a);
    var w := t[i..j];
    assert forall k :: 0 <= k < |w| ==> w[k] == t[i + k];
    assert IsWordChar(w[|w| - 1]) by {
      if j == a {
        assert IsWordChar(t[a - 1]);
      }
    }
  }

  /** Every match is a well-formed token and keeps the text's letter case. */
  lemma {:induction false} ScanWellFormed(t: string, i: nat)
    requires i <= |t|
    ensures forall w :: w in Scan(t, i) ==> WellFormedToken(w)
    ensures NoUpper(t) ==> forall w :: w in Scan(t, i) ==> NoUpper(w)
    decreases |t| - i
  {
    if i < |t| {
      if !IsWordChar(t[i]) {
        ScanWellFormed(t, i + 1);
      } else {
        var j := TokenEnd(t, i);
        TokenWellFormed(t, i);
        ScanWellFormed(t, j);
        assert forall k :: 0 <= k < j - i ==> t[i..j][k] == t[i + k];
      }
    }
  }

  lemma LowerNoUpper(s: string)
    ensures NoUpper(Lower(s))
  {
  }

  /** Lowering text that has no upper-case letter changes nothing. */
  lemma LowerKeepsLowerCase(s: string)
    requires NoUpper(s)
    ensures Lower(s) == s
  {
  }

  lemma RStripNoUpper(s: string)
    requires NoUpper(s)
    ensures NoUpper(RStrip(s))
  {
    var r := RStrip(s);
    assert forall k :: 0 <= k < |r| ==> r[k] == s[k];
  }

  /**
   * Every match found in the normalised text is a well-formed token over
   * `[a-z0-9'-]`: non-empty, starting and ending with a letter or digit.
   */
  lemma FindAllWellFormed(text: string)
    ensures forall w :: w in FindAll(Normalize(text)) ==> WellFormedToken(w) && NoUpper(w)
  {
    LowerNoUpper(text);
    RStripNoUpper(Lower(text));
    ScanWellFormed(Normalize(text), 0);
  }

  /** Scanning loses no letter or digit: the tokens hold all of them, in order. */
  lemma {:induction false} ScanKeepsWordChars(t: string, i: nat)
    requires i <= |t|
    ensures Filter(Concat(Scan(t, i)), IsWordChar) == Filter(t[i..], IsWordChar)
    decreases |t| - i
  {
    if i == |t| {
      assert t[i..] == [];
    } else if !IsWordChar(t[i]) {
      ScanKeepsWordChars(t, i + 1);
      assert t[i..] == [t[i]] + t[i + 1..];
      FilterConcat([t[i]], t[i + 1..], IsWordChar);
    } else {
      var j := TokenEnd(t, i);
      var rest := Concat(Scan(t, j));
      ScanKeepsWordChars(t, j);
      assert Concat(Scan(t, i)) == t[i..j] + rest by {
        var ws := Scan(t, i);
        assert ws[0] == t[i..j] && ws[1..] == Scan(t, j);
      }
      FilterConcat(t[i..j], rest, IsWordChar);
      assert t[i..] == t[i..j] + t[j..];
      FilterConcat(t[i..j], t[j..], IsWordChar);
    }
  }

  lemma FindAllKeepsWordChars(t: string)
    ensures Filter(Concat(FindAll(t)), IsWordChar) == Filter(t, IsWordChar)
  {
    ScanKeepsWordChars(t, 0);
    assert t[0..] == t;
  }

  // Appending separators to a text does not move any match boundary.

  lemma {:induction false} WordRunEndExtend(u: string, v: string, i: nat)
    requires i <= |u|
    requires forall k :: 0 <= k < |v| ==> IsSeparator(v[k])
    ensures WordRunEnd(u + v, i) == WordRunEnd(u, i)
    decreases |u| - i
  {
    if i < |u| && IsWordChar(u[i]) {
      WordRunEndExtend(u, v, i + 1);
    } else if i == |u| && |v| > 0 {
      assert (u + v)[i] == v[0];
    }
  }

  lemma {:induction false} HyphenRunEndExtend(u: string, v: string, i: nat)
    requires i <= |u|
    requires forall k :: 0 <= k < |v| ==> IsSeparator(v[k])
    ensures HyphenRunEnd(u + v, i) == HyphenRunEnd(u, i)
    decreases |u| - i
  {
    if i < |u| && u[i] == '-' {
      HyphenRunEndExtend(u, v, i + 1);
    } else if i == |u| && |v| > 0 {
      assert (u + v)[i] == v[0];
    }
  }

  lemma {:induction false} ApostrophePartExtend(u: string, v: string, i: nat)
    requires i < |u| && IsWordChar(u[i])
    requires forall k :: 0 <= k < |v| ==> IsSeparator(v[k])
    ensures ApostrophePart(u + v, i) == ApostrophePart(u, i)
    decreases |u| - i
  {
    var t := u + v;
    WordRunEndExtend(u, v, i);
    var e := WordRunEnd(u, i);
    assert WordRunEnd(t, i) == e;
    var taken := e + 1 < |u| && u[e] == '\'' && IsWordChar(u[e + 1]);
    assert taken <==> e + 1 < |t| && t[e] == '\'' && IsWordChar(t[e + 1]) by {
      if e + 1 < |u| {
        assert t[e] == u[e] && t[e + 1] == u[e + 1];
      } else if e + 1 == |u| && |v| > 0 {
        assert t[e + 1] == v[0];
      } else if e == |u| && |v| > 0 {
        assert t[e] == v[0];
      }
    }
    if taken {
      ApostrophePartExtend(u, v, e + 1);
      assert ApostrophePart(t, i) == ApostrophePart(t, e + 1);
      assert ApostrophePart(u, i) == ApostrophePart(u, e + 1);
    } else {
      assert ApostrophePart(t, i) == e;
      assert ApostrophePart(u, i) == e;
    }
  }

  lemma {:induction false} HyphenPartExtend(u: string, v: string, i: nat)
    requires i <= |u|
    requires forall k :: 0 <= k < |v| ==> IsSeparator(v[k])
    ensures HyphenPart(u + v, i) == HyphenPart(u, i)
    decreases |u| - i
  {
    var t := u + v;
    HyphenRunEndExtend(u, v, i);
    var h := HyphenRunEnd(u, i);
    if h < |u| && IsWordChar(u[h]) {
      WordRunEndExtend(u, v, h);
      HyphenPartExtend(u, v, WordRunEnd(u, h));
    } else if h == |u| && |v| > 0 {
      assert t[h] == v[0];
    }
  }

  lemma {:induction false} ScanOfSeparators(t: string, i: nat)
    requires i <= |t|
    requires forall k :: i <= k < |t| ==> IsSeparator(t[k])
    ensures Scan(t, i) == []
    decreases |t| - i
  {
    if i < |t| {
      ScanOfSeparators(t, i + 1);
    }
  }

  lemma {:induction false} ScanExtend(u: string, v: string, i: nat)
    requires i <= |u|
    requires forall k :: 0 <= k < |v| ==> IsSeparator(v[k])
    ensures Scan(u + v, i) == Scan(u, i)
    decreases |u| - i
  {
    var t := u + v;
    if i == |u| {
      ScanOfSeparators(t, i);
    } else if !IsWordChar(u[i]) {
      ScanExtend(u, v, i + 1);
    } else {
      ApostrophePartExtend(u, v, i);
      HyphenPartExtend(u, v, ApostrophePart(u, i));
      var j := TokenEnd(u, i);
      assert TokenEnd(t, i) == j;
      assert t[i..j] == u[i..j];
      ScanExtend(u, v, j);
    }
  }

  /** Stripping trailing whitespace never changes the matches. */
  lemma FindAllIgnoresRStrip(s: string)
    ensures FindAll(RStrip(s)) == FindAll(s)
  {
    var r := RStrip(s);
    var v := s[|r|..];
    assert s == r + v;
    assert forall k :: 0 <= k < |v| ==> IsSpace(v[k]);
    ScanExtend(r, v, 0);
  }
}
