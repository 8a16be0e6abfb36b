/** The JavaScript string built-ins the tag pipeline relies on: whitespace as the
    `\s` class and `String.prototype.trim` see it, ASCII lower-casing, `split`
    with a string separator, `join`, global literal replacement and the
    collapsing of whitespace runs.  Everything works on `string` (`seq<char>`). */
module Strings {

  /** The characters JavaScript's `\s` and `trim()` treat as white space. */
  predicate IsWhitespace(c: char) {
    c == ' ' || c == '\t' || c == '\n' || c == '\r' || c == '\U{B}' || c == '\U{C}'
    || c == '\U{A0}' || c == '\U{1680}' || ('\U{2000}' <= c <= '\U{200A}')
    || c == '\U{2028}' || c == '\U{2029}' || c == '\U{202F}' || c == '\U{205F}'
    || c == '\U{3000}' || c == '\U{FEFF}'
  }

  predicate IsUpper(c: char) {
    'A' <= c <= 'Z'
  }

  function LowerChar(c: char): (r: char)
    ensures !IsUpper(r)
    ensures IsWhitespace(r) <==> IsWhitespace(c)
    ensures !IsUpper(c) ==> r == c
  {
    if IsUpper(c) then (c as int + 32) as char else c
  }

  /** `toLowerCase()` restricted to ASCII letters. */
  function Lower(s: string): (r: string)
    ensures |r| == |s|
    ensures forall i :: 0 <= i < |s| ==> r[i] == LowerChar(s[i])
  {
    if s == [] then [] else [LowerChar(s[0])] + Lower(s[1..])
  }

  predicate NoUpper(s: string) {
    forall i :: 0 <= i < |s| ==> !IsUpper(s[i])
  }

  /** Neither the first nor the last character is white space. */
  predicate NoEdgeWhitespace(s: string) {
    s == [] || (!IsWhitespace(s[0]) && !IsWhitespace(s[|s| - 1]))
  }

  /** No two adjacent characters are both white space. */
  predicate NoWhitespaceRun(s: string) {
    forall i :: 0 <= i < |s| - 1 ==> !(IsWhitespace(s[i]) && IsWhitespace(s[i + 1]))
  }

  /** Lower-casing leaves no upper-case letter and keeps the ends free of
      white space. */
  lemma LowerKeepsEdges(s: string)
    ensures NoUpper(Lower(s))
    ensures NoEdgeWhitespace(s) ==> NoEdgeWhitespace(Lower(s))
  {
    if s != [] {
      assert Lower(s)[0] == LowerChar(s[0]);
      assert Lower(s)[|s| - 1] == LowerChar(s[|s| - 1]);
    }
  }

  /** Lower-casing text without upper-case letters changes nothing. */
  lemma LowerOfLower(s: string)
    requires NoUpper(s)
    ensures Lower(s) == s
  {
  }

  /** The text with every white-space character removed: what survives any
      change that only touches white space. */
  function Strip(s: string): string {
    if s == [] then [] else (if IsWhitespace(s[0]) then [] else [s[0]]) + Strip(s[1..])
  }

  lemma {:induction false} StripAppend(a: string, b: string)
    ensures Strip(a + b) == Strip(a) + Strip(b)
  {
    if a != [] {
      assert (a + b)[0] == a[0];
      assert (a + b)[1..] == a[1..] + b;
      StripAppend(a[1..], b);
    } else {
      assert a + b == b;
    }
  }

  lemma {:induction false} StripBlank(s: string)
    requires forall i :: 0 <= i < |s| ==> IsWhitespace(s[i])
    ensures Strip(s) == []
  {
    if s != [] {
      StripBlank(s[1..]);
    }
  }

  /** Lower-casing and removing white space commute. */
  lemma {:induction false} StripLower(s: string)
    ensures Strip(Lower(s)) == Lower(Strip(s))
  {
    if s != [] {
      StripLower(s[1..]);
      assert Lower(s)[1..] == Lower(s[1..]);
      var head := if IsWhitespace(s[0]) then [] else [s[0]];
      assert Strip(s) == head + Strip(s[1..]);
      assert Lower(head + Strip(s[1..])) == Lower(head) + Lower(Strip(s[1..]));
    }
  }

  /** No carriage return and no line feed. */
  predicate NoLineBreak(s: string) {
    forall i :: 0 <= i < |s| ==> s[i] != '\r' && s[i] != '\n'
  }

  function TrimStart(s: string): (r: string)
    ensures |r| <= |s| && r == s[|s| - |r|..]
    ensures forall i :: 0 <= i < |s| - |r| ==> IsWhitespace(s[i])
    ensures r != [] ==> !IsWhitespace(r[0])
  {
    if s != [] && IsWhitespace(s[0]) then TrimStart(s[1..]) else s
  }

  function TrimEnd(s: string): (r: string)
    ensures |r| <= |s| && r == s[..|r|]
    ensures forall i :: |r| <= i < |s| ==> IsWhitespace(s[i])
    ensures r != [] ==> !IsWhitespace(r[|r| - 1])
  {
    if s != [] && IsWhitespace(s[|s| - 1]) then TrimEnd(s[..|s| - 1]) else s
  }

  /** `trim()`: drop the white space at both ends. */
  function Trim(s: string): (r: string)
    ensures NoEdgeWhitespace(r)
    ensures |r| <= |s|
    ensures NoEdgeWhitespace(s) ==> r == s
  {
    var t := TrimStart(s);
    var r := TrimEnd(t);
    assert NoEdgeWhitespace(r) by {
      if r != [] {
        assert t != [] && r[0] == t[0];
      }
    }
    r
  }

  lemma TrimStartKeepsText(s: string)
    ensures Strip(TrimStart(s)) == Strip(s)
  {
    var t := TrimStart(s);
    var front := s[..|s| - |t|];
    assert s == front + t;
    StripBlank(front);
    StripAppend(front, t);
  }

  lemma TrimEndKeepsText(t: string)
    ensures Strip(TrimEnd(t)) == Strip(t)
  {
    var r := TrimEnd(t);
    var back := t[|r|..];
    assert t == r + back;
    forall i | 0 <= i < |back| ensures IsWhitespace(back[i]) {
      assert back[i] == t[|r| + i];
    }
    StripBlank(back);
    StripAppend(r, back);
  }

  /** Trimming removes only white space: every other character is kept, in
      order. */
  lemma TrimKeepsText(s: string)
    ensures Strip(Trim(s)) == Strip(s)
  {
    TrimStartKeepsText(s);
    TrimEndKeepsText(TrimStart(s));
  }

  /** The number of white-space characters `s` starts with. */
  function WhitespaceRun(s: string): (n: nat)
    ensures n <= |s|
    ensures forall i :: 0 <= i < n ==> IsWhitespace(s[i])
    ensures n < |s| ==> !IsWhitespace(s[n])
  {
    if s != [] && IsWhitespace(s[0]) then 1 + WhitespaceRun(s[1..]) else 0
  }

  /** `replace(/\s{2,}/g, " ")`: every maximal run of two or more white-space
      characters becomes one space; a lone white-space character stays as it is. */
  function CollapseWhitespace(s: string): (r: string)
    ensures |r| <= |s|
    ensures (r == []) <==> (s == [])
    decreases |s|
  {
    if s == [] then []
    else
      var n := WhitespaceRun(s);
      if n >= 2 then [' '] + CollapseWhitespace(s[n..])
      else [s[0]] + CollapseWhitespace(s[1..])
  }

  /** Collapsing keeps whether the text starts with white space. */
  lemma CollapseFirst(s: string)
    requires s != []
    ensures IsWhitespace(CollapseWhitespace(s)[0]) <==> IsWhitespace(s[0])
  {
  }

  /** Collapsing keeps whether the text ends with white space. */
  lemma {:induction false} CollapseLast(s: string)
    requires s != []
    ensures var r := CollapseWhitespace(s); IsWhitespace(r[|r| - 1]) <==> IsWhitespace(s[|s| - 1])
    decreases |s|
  {
    var n := WhitespaceRun(s);
    if n >= 2 {
      if n < |s| {
        CollapseLast(s[n..]);
      } else {
        assert IsWhitespace(s[n - 1]);
      }
    } else if |s| > 1 {
      CollapseLast(s[1..]);
    }
  }

  /** After collapsing, no two white-space characters are adjacent. */
  lemma {:induction false} CollapseNoRun(s: string)
    ensures NoWhitespaceRun(CollapseWhitespace(s))
    decreases |s|
  {
    if s != [] {
      var n := WhitespaceRun(s);
      var r := CollapseWhitespace(s);
      var rest := if n >= 2 then s[n..] else s[1..];
      CollapseNoRun(rest);
      var cr := CollapseWhitespace(rest);
      assert r == [r[0]] + cr;
      if rest != [] {
        CollapseFirst(rest);
        assert !(IsWhitespace(r[0]) && IsWhitespace(cr[0])) by {
          if n >= 2 {
            assert rest[0] == s[n];
          } else if IsWhitespace(s[0]) {
            assert rest[0] == s[1];
          }
        }
      }
      assert forall i :: 1 <= i < |r| ==> r[i] == cr[i - 1];
    }
  }

  /** Collapsing brings in no upper-case letter and no line break. */
  lemma {:induction false} CollapseKeepsLetters(s: string)
    ensures NoUpper(s) ==> NoUpper(CollapseWhitespace(s))
    ensures NoLineBreak(s) ==> NoLineBreak(CollapseWhitespace(s))
    decreases |s|
  {
    if s != [] {
      var n := WhitespaceRun(s);
      var rest := if n >= 2 then s[n..] else s[1..];
      CollapseKeepsLetters(rest);
      var r := CollapseWhitespace(s);
      var cr := CollapseWhitespace(rest);
      assert r == [r[0]] + cr;
      assert forall i :: 1 <= i < |r| ==> r[i] == cr[i - 1];
      assert NoUpper(s) ==> NoUpper(rest);
      assert NoLineBreak(s) ==> NoLineBreak(rest);
    }
  }

  /** Collapsing touches only white space: every other character is kept,
      in order. */
  lemma {:induction false} CollapseKeepsText(s: string)
    ensures Strip(CollapseWhitespace(s)) == Strip(s)
    decreases |s|
  {
    if s != [] {
      var n := WhitespaceRun(s);
      if n >= 2 {
        CollapseKeepsText(s[n..]);
        assert s == s[..n] + s[n..];
        StripBlank(s[..n]);
        StripAppend(s[..n], s[n..]);
        StripAppend([' '], CollapseWhitespace(s[n..]));
      } else {
        CollapseKeepsText(s[1..]);
        StripAppend([s[0]], CollapseWhitespace(s[1..]));
      }
    }
  }

  /** A run of two or more white-space characters becomes exactly one
      space, so collapsing keeps every word and every word boundary. */
  lemma {:induction false} CollapseKeepsWords(s: string, cur: string)
    ensures WordsFrom(CollapseWhitespace(s), cur) == WordsFrom(s, cur)
    decreases |s|
  {
    if s != [] {
      var n := WhitespaceRun(s);
      if n >= 2 {
        CollapseKeepsWords(s[n..], []);
        assert s == s[..n] + s[n..];
        WordsAfterBlank(s[..n], s[n..], cur);
        assert ([' '] + CollapseWhitespace(s[n..]))[1..] == CollapseWhitespace(s[n..]);
      } else {
        var r := [s[0]] + CollapseWhitespace(s[1..]);
        assert r[0] == s[0] && r[1..] == CollapseWhitespace(s[1..]);
        CollapseKeepsWords(s[1..], []);
        CollapseKeepsWords(s[1..], cur + [s[0]]);
      }
    }
  }

  /** A white-space run followed by a non-white-space character, or by
      nothing, has exactly the run's length. */
  lemma {:induction false} WhitespaceRunOf(w: string, b: string)
    requires AllWhitespace(w) && (b == [] || !IsWhitespace(b[0]))
    ensures WhitespaceRun(w + b) == |w|
    decreases |w|
  {
    if w != [] {
      assert (w + b)[1..] == w[1..] + b;
      WhitespaceRunOf(w[1..], b);
    } else {
      assert w + b == b;
    }
  }

  /** When a text ends in a character other than white space, its leading
      white-space run lies inside it. */
  lemma {:induction false} WhitespaceRunInside(a: string, b: string)
    requires a != [] && !IsWhitespace(a[|a| - 1])
    ensures WhitespaceRun(a + b) == WhitespaceRun(a) < |a|
    decreases |a|
  {
    if IsWhitespace(a[0]) {
      assert (a + b)[1..] == a[1..] + b;
      WhitespaceRunInside(a[1..], b);
    }
  }

  lemma ConcatAssoc(x: string, y: string, z: string)
    ensures x + (y + z) == (x + y) + z
  {
  }

  lemma DropAppend(a: string, b: string, m: nat)
    requires m <= |a|
    ensures (a + b)[m..] == a[m..] + b
  {
  }

  /** A run of two or more white-space characters becomes one space. */
  lemma CollapseUnfoldRun(s: string)
    requires WhitespaceRun(s) >= 2
    ensures CollapseWhitespace(s) == [' '] + CollapseWhitespace(s[WhitespaceRun(s)..])
  {
  }

  /** Any other first character is copied. */
  lemma CollapseUnfoldOne(s: string)
    requires s != [] && WhitespaceRun(s) < 2
    ensures CollapseWhitespace(s) == [s[0]] + CollapseWhitespace(s[1..])
  {
  }

  /** Collapsing works separately on the two sides of a boundary that is
      not inside a white-space run. */
  lemma {:induction false} CollapseAppend(a: string, b: string)
    requires a == [] || !IsWhitespace(a[|a| - 1])
    ensures CollapseWhitespace(a + b) == CollapseWhitespace(a) + CollapseWhitespace(b)
    decreases |a|
  {
    if a == [] {
      assert a + b == b;
    } else {
      WhitespaceRunInside(a, b);
      var n := WhitespaceRun(a);
      if n >= 2 {
        assert a[n..][|a[n..]| - 1] == a[|a| - 1];
        CollapseAppend(a[n..], b);
        DropAppend(a, b, n);
        CollapseUnfoldRun(a + b);
        CollapseUnfoldRun(a);
        ConcatAssoc([' '], CollapseWhitespace(a[n..]), CollapseWhitespace(b));
      } else {
        var rest := a[1..];
        assert rest == [] || rest[|rest| - 1] == a[|a| - 1];
        CollapseAppend(rest, b);
        DropAppend(a, b, 1);
        var x := CollapseWhitespace(rest + b);
        assert (a + b)[0] == a[0];
        CollapseUnfoldOne(a + b);
        assert CollapseWhitespace(a + b) == [a[0]] + x;
        CollapseUnfoldOne(a);
        ConcatAssoc([a[0]], CollapseWhitespace(rest), CollapseWhitespace(b));
      }
    }
  }

  /** `/\s{2,}/g` matches a whole run of two or more white-space characters
      and writes one space in its place. */
  lemma CollapseRunToSpace(a: string, w: string, b: string)
    requires a == [] || !IsWhitespace(a[|a| - 1])
    requires AllWhitespace(w) && |w| >= 2
    requires b == [] || !IsWhitespace(b[0])
    ensures CollapseWhitespace(a + w + b) == CollapseWhitespace(a) + " " + CollapseWhitespace(b)
  {
    ConcatAssoc(a, w, b);
    CollapseAppend(a, w + b);
    WhitespaceRunOf(w, b);
    CollapseUnfoldRun(w + b);
    DropAppend(w, b, |w|);
    assert w[|w|..] + b == b;
    ConcatAssoc(CollapseWhitespace(a), " ", CollapseWhitespace(b));
  }

  /** For instance, two tabs between two words become one space. */
  lemma TabRunToSpace()
    ensures CollapseWhitespace("a\t\tb") == "a b"
  {
    CollapseRunToSpace("a", "\t\t", "b");
    assert "a" + "\t\t" + "b" == "a\t\tb";
    CollapseLeavesNormalText("a");
    CollapseLeavesNormalText("b");
  }

  /** A white-space character standing alone is not matched and stays. */
  lemma CollapseKeepsLone(a: string, c: char, b: string)
    requires a == [] || !IsWhitespace(a[|a| - 1])
    requires IsWhitespace(c)
    requires b == [] || !IsWhitespace(b[0])
    ensures CollapseWhitespace(a + [c] + b) == CollapseWhitespace(a) + [c] + CollapseWhitespace(b)
  {
    ConcatAssoc(a, [c], b);
    CollapseAppend(a, [c] + b);
    WhitespaceRunOf([c], b);
    CollapseUnfoldOne([c] + b);
    assert ([c] + b)[0] == c && ([c] + b)[1..] == b;
    ConcatAssoc(CollapseWhitespace(a), [c], CollapseWhitespace(b));
  }

  /** Every white-space character of `s` that stands alone, with no
      white-space character on either side, is one of `ok`. `afterWhite` says
      whether white space comes just before `s`. */
  predicate LoneWhitespaceAfter(s: string, ok: set<char>, afterWhite: bool)
    decreases |s|
  {
    s == [] ||
    ((!afterWhite && IsWhitespace(s[0]) && (|s| == 1 || !IsWhitespace(s[1])) ==> s[0] in ok)
     && LoneWhitespaceAfter(s[1..], ok, IsWhitespace(s[0])))
  }

  /** Every white-space character of `s` with no white-space neighbour is
      one of `ok`. */
  predicate LoneWhitespaceIn(s: string, ok: set<char>) {
    LoneWhitespaceAfter(s, ok, false)
  }

  /** What comes before a text that starts with no white space does not
      matter. */
  lemma LoneAfterAny(s: string, ok: set<char>, afterWhite: bool)
    requires LoneWhitespaceAfter(s, ok, afterWhite)
    requires s == [] || !IsWhitespace(s[0])
    ensures LoneWhitespaceIn(s, ok)
  {
  }

  /** A suffix of the text keeps the property, given what precedes it. */
  lemma {:induction false} LoneSuffix(s: string, ok: set<char>, afterWhite: bool, m: nat)
    requires LoneWhitespaceAfter(s, ok, afterWhite) && 1 <= m <= |s|
    ensures LoneWhitespaceAfter(s[m..], ok, IsWhitespace(s[m - 1]))
    decreases m
  {
    if m > 1 {
      LoneSuffix(s[1..], ok, IsWhitespace(s[0]), m - 1);
      assert s[1..][m - 1..] == s[m..] && s[1..][m - 2] == s[m - 1];
    }
  }

  /** A prefix that ends in a character other than white space keeps the
      property: its last white-space run keeps its right neighbour. */
  lemma {:induction false} LonePrefix(s: string, ok: set<char>, afterWhite: bool, m: nat)
    requires LoneWhitespaceAfter(s, ok, afterWhite) && m <= |s|
    requires m == 0 || !IsWhitespace(s[m - 1])
    ensures LoneWhitespaceAfter(s[..m], ok, afterWhite)
    decreases m
  {
    var p := s[..m];
    if m == 1 {
      assert p[1..] == [];
    } else if m > 1 {
      LonePrefix(s[1..], ok, IsWhitespace(s[0]), m - 1);
      assert p[0] == s[0] && p[1] == s[1] && p[1..] == s[1..][..m - 1];
      assert s[1..][m - 2] == s[m - 1];
    }
  }

  /** Trimming keeps every lone white-space character it leaves in a lone
      position. */
  lemma TrimKeepsLone(s: string, ok: set<char>)
    requires LoneWhitespaceIn(s, ok)
    ensures LoneWhitespaceIn(Trim(s), ok)
  {
    var t := TrimStart(s);
    var m := |s| - |t|;
    if m >= 1 {
      LoneSuffix(s, ok, false, m);
      assert s[m..] == t;
      LoneAfterAny(t, ok, IsWhitespace(s[m - 1]));
    }
    var r := TrimEnd(t);
    LonePrefix(t, ok, false, |r|);
    assert t[..|r|] == r;
  }

  /** Lower-casing changes no white-space character. */
  lemma {:induction false} LowerKeepsLone(s: string, ok: set<char>, afterWhite: bool)
    requires LoneWhitespaceAfter(s, ok, afterWhite)
    ensures LoneWhitespaceAfter(Lower(s), ok, afterWhite)
    decreases |s|
  {
    if s != [] {
      LowerKeepsLone(s[1..], ok, IsWhitespace(s[0]));
      var l := Lower(s);
      assert l[0] == LowerChar(s[0]) && l[1..] == Lower(s[1..]);
      assert IsWhitespace(s[0]) ==> l[0] == s[0];
    }
  }

  /** When no white-space character other than a space stands alone, the
      collapse leaves spaces as the only white space: every longer run has
      become a space. */
  lemma {:induction false} CollapseToSpaces(s: string)
    requires LoneWhitespaceIn(s, {' '})
    ensures OnlySpaces(CollapseWhitespace(s))
    decreases |s|
  {
    if s != [] {
      var n := WhitespaceRun(s);
      var rest := if n >= 2 then s[n..] else s[1..];
      var m := |s| - |rest|;
      LoneSuffix(s, {' '}, false, m);
      assert s[m..] == rest;
      if IsWhitespace(s[m - 1]) {
        LoneAfterAny(rest, {' '}, true);
      }
      CollapseToSpaces(rest);
      var r := CollapseWhitespace(s);
      var cr := CollapseWhitespace(rest);
      assert r == [r[0]] + cr;
      assert forall i :: 1 <= i < |r| ==> r[i] == cr[i - 1];
      assert IsWhitespace(r[0]) ==> r[0] == ' ';
    }
  }

  /** A text with no white-space run is left as it is. */
  lemma {:induction false} CollapseLeavesNormalText(s: string)
    requires NoWhitespaceRun(s)
    ensures CollapseWhitespace(s) == s
    decreases |s|
  {
    if s != [] {
      assert WhitespaceRun(s) < 2 by {
        if |s| >= 2 && IsWhitespace(s[0]) {
          assert !IsWhitespace(s[1]);
        }
      }
      assert NoWhitespaceRun(s[1..]) by {
        forall i | 0 <= i < |s| - 2 ensures !(IsWhitespace(s[1..][i]) && IsWhitespace(s[1..][i + 1])) {
          assert s[1..][i] == s[i + 1] && s[1..][i + 1] == s[i + 2];
        }
      }
      CollapseLeavesNormalText(s[1..]);
    }
  }

  /** Collapsing a text with no white space at either end leaves none there,
      and leaves no white-space run. */
  lemma CollapseNormalises(s: string)
    requires NoEdgeWhitespace(s)
    ensures NoEdgeWhitespace(CollapseWhitespace(s)) && NoWhitespaceRun(CollapseWhitespace(s))
  {
    if s != [] {
      CollapseFirst(s);
      CollapseLast(s);
    }
    CollapseNoRun(s);
  }

  /** The word being read, as a list of zero or one words. */
  function Flush(cur: string): seq<string> {
    if cur == [] then [] else [cur]
  }

  /** The maximal runs of non-white characters of `s`, left to right, after
      the partial word `cur`. */
  function WordsFrom(s: string, cur: string): seq<string>
    decreases |s|
  {
    if s == [] then Flush(cur)
    else if IsWhitespace(s[0]) then Flush(cur) + WordsFrom(s[1..], [])
    else WordsFrom(s[1..], cur + [s[0]])
  }

  /** The words of a text: its maximal runs without white space, in order.
      This is where one tag ends and the next begins. */
  function Words(s: string): seq<string> {
    WordsFrom(s, [])
  }

  /** Each word lower-cased. */
  function LowerWords(ws: seq<string>): (r: seq<string>)
    ensures |r| == |ws|
    ensures forall i :: 0 <= i < |ws| ==> r[i] == Lower(ws[i])
  {
    seq(|ws|, i requires 0 <= i < |ws| => Lower(ws[i]))
  }

  predicate AllWhitespace(s: string) {
    forall i :: 0 <= i < |s| ==> IsWhitespace(s[i])
  }

  /** White space alone ends the word being read and yields no other word. */
  lemma {:induction false} WordsBlank(w: string, cur: string)
    requires AllWhitespace(w)
    ensures WordsFrom(w, cur) == Flush(cur)
    decreases |w|
  {
    if w != [] {
      WordsBlank(w[1..], []);
    }
  }

  /** A white-space run ends the word being read, however long it is. */
  lemma {:induction false} WordsAfterBlank(w: string, s: string, cur: string)
    requires AllWhitespace(w)
    ensures WordsFrom(w + s, []) == WordsFrom(s, [])
    ensures w != [] ==> WordsFrom(w + s, cur) == Flush(cur) + WordsFrom(s, [])
    decreases |w|
  {
    if w != [] {
      assert (w + s)[0] == w[0] && (w + s)[1..] == w[1..] + s;
      WordsAfterBlank(w[1..], s, []);
    } else {
      assert w + s == s;
    }
  }

  /** Trailing white space adds no word. */
  lemma {:induction false} WordsTrailingBlank(r: string, w: string, cur: string)
    requires AllWhitespace(w)
    ensures WordsFrom(r + w, cur) == WordsFrom(r, cur)
    decreases |r|
  {
    if r == [] {
      assert r + w == w;
      WordsBlank(w, cur);
    } else {
      assert (r + w)[0] == r[0] && (r + w)[1..] == r[1..] + w;
      if IsWhitespace(r[0]) {
        WordsTrailingBlank(r[1..], w, []);
      } else {
        WordsTrailingBlank(r[1..], w, cur + [r[0]]);
      }
    }
  }

  lemma LowerAppend(a: string, b: string)
    ensures Lower(a + b) == Lower(a) + Lower(b)
  {
    assert forall i :: 0 <= i < |a + b| ==> (a + b)[i] == if i < |a| then a[i] else b[i - |a|];
  }

  /** Lower-casing keeps every word boundary and lower-cases each word. */
  lemma {:induction false} WordsLower(s: string, cur: string)
    ensures WordsFrom(Lower(s), Lower(cur)) == LowerWords(WordsFrom(s, cur))
    decreases |s|
  {
    if s == [] {
      assert Lower([]) == [];
    } else {
      var l := Lower(s);
      assert l[0] == LowerChar(s[0]) && l[1..] == Lower(s[1..]);
      if IsWhitespace(s[0]) {
        WordsLower(s[1..], []);
        assert Lower([]) == [];
        assert Flush(Lower(cur)) == LowerWords(Flush(cur));
        assert LowerWords(Flush(cur) + WordsFrom(s[1..], [])) == LowerWords(Flush(cur)) + LowerWords(WordsFrom(s[1..], []));
      } else {
        WordsLower(s[1..], cur + [s[0]]);
        LowerAppend(cur, [s[0]]);
        assert Lower([s[0]]) == [LowerChar(s[0])];
      }
    }
  }

  /** A run of non-white characters extends the word being read. */
  lemma {:induction false} WordsWithoutBlank(w: string, s: string, cur: string)
    requires forall i :: 0 <= i < |w| ==> !IsWhitespace(w[i])
    ensures WordsFrom(w + s, cur) == WordsFrom(s, cur + w)
    decreases |w|
  {
    if w == [] {
      assert w + s == s && cur + w == cur;
    } else {
      assert (w + s)[0] == w[0] && (w + s)[1..] == w[1..] + s;
      WordsWithoutBlank(w[1..], s, cur + [w[0]]);
      assert cur + [w[0]] + w[1..] == cur + w;
    }
  }

  /** Every white-space character is a space. */
  predicate OnlySpaces(s: string) {
    forall i :: 0 <= i < |s| && IsWhitespace(s[i]) ==> s[i] == ' '
  }

  /** Dropping leading white space keeps every word. */
  lemma TrimStartKeepsWords(s: string)
    ensures Words(TrimStart(s)) == Words(s)
  {
    var t := TrimStart(s);
    var front := s[..|s| - |t|];
    assert s == front + t;
    WordsAfterBlank(front, t, []);
  }

  /** Dropping trailing white space keeps every word. */
  lemma TrimEndKeepsWords(t: string)
    ensures Words(TrimEnd(t)) == Words(t)
  {
    var r := TrimEnd(t);
    var back := t[|r|..];
    assert t == r + back;
    forall i | 0 <= i < |back| ensures IsWhitespace(back[i]) {
      assert back[i] == t[|r| + i];
    }
    WordsTrailingBlank(r, back, []);
  }

  /** Trimming drops only edge white space, so it keeps every word. */
  lemma TrimKeepsWords(s: string)
    ensures Words(Trim(s)) == Words(s)
  {
    TrimStartKeepsWords(s);
    TrimEndKeepsWords(TrimStart(s));
  }

  /** `sep` occurs in `s` at position `k`. */
  predicate OccursAt(s: string, sep: string, k: int) {
    0 <= k && k + |sep| <= |s| && s[k..k + |sep|] == sep
  }

  lemma OccursShift(s: string, sep: string, k: nat)
    requires s != []
    ensures OccursAt(s[1..], sep, k) <==> OccursAt(s, sep, k + 1)
  {
    if k + |sep| <= |s| - 1 {
      assert s[1..][k..k + |sep|] == s[k + 1..k + 1 + |sep|];
    }
  }

  lemma OccursInPrefix(s: string, sep: string, i: nat, k: nat)
    requires i <= |s| && OccursAt(s[..i], sep, k)
    ensures OccursAt(s, sep, k)
  {
    assert s[..i][k..k + |sep|] == s[k..k + |sep|];
  }

  predicate Contains(s: string, sep: string) {
    exists k :: 0 <= k <= |s| && OccursAt(s, sep, k)
  }

  /** `indexOf`: the first position where `sep` occurs, or -1. */
  function IndexOf(s: string, sep: string): (r: int)
    requires sep != []
    ensures r == -1 || OccursAt(s, sep, r)
    ensures forall k :: 0 <= k && (r == -1 || k < r) ==> !OccursAt(s, sep, k)
  {
    if |s| < |sep| then -1
    else if s[..|sep|] == sep then 0
    else
      var r := IndexOf(s[1..], sep);
      assert forall k :: 0 <= k ==> (OccursAt(s[1..], sep, k) <==> OccursAt(s, sep, k + 1)) by {
        forall k | 0 <= k ensures OccursAt(s[1..], sep, k) <==> OccursAt(s, sep, k + 1) {
          OccursShift(s, sep, k);
        }
      }
      assert forall k :: 1 <= k ==> (OccursAt(s, sep, k) <==> OccursAt(s[1..], sep, k - 1));
      if r == -1 then -1 else r + 1
  }

  /** `split(sep)` with a non-empty separator: the pieces between the
      occurrences of `sep`, taken left to right without overlap.  There is
      always at least one piece, and `""` splits into `[""]`. */
  function Split(s: string, sep: string): (pieces: seq<string>)
    requires sep != []
    ensures |pieces| >= 1
    ensures forall k :: 0 <= k < |pieces| ==> !Contains(pieces[k], sep)
    decreases |s|
  {
    var i := IndexOf(s, sep);
    if i == -1 then [s]
    else
      var head := s[..i];
      assert !Contains(head, sep) by {
        forall k | 0 <= k <= |head| && OccursAt(head, sep, k) ensures false {
          OccursInPrefix(s, sep, i, k);
        }
      }
      [head] + Split(s[i + |sep|..], sep)
  }

  /** `join(sep)`. */
  function Join(pieces: seq<string>, sep: string): string {
    if pieces == [] then ""
    else if |pieces| == 1 then pieces[0]
    else pieces[0] + sep + Join(pieces[1..], sep)
  }

  lemma JoinCons(head: string, rest: seq<string>, sep: string)
    requires rest != []
    ensures Join([head] + rest, sep) == head + sep + Join(rest, sep)
  {
    assert ([head] + rest)[1..] == rest;
  }

  lemma SliceParts(s: string, i: nat, j: nat)
    requires i <= j <= |s|
    ensures s == s[..i] + s[i..j] + s[j..]
  {
    assert s[..j] == s[..i] + s[i..j];
    assert s == s[..j] + s[j..];
  }

  /** Joining the pieces with the separator gives back the original string. */
  lemma {:induction false} JoinSplit(s: string, sep: string)
    requires sep != []
    ensures Join(Split(s, sep), sep) == s
    decreases |s|
  {
    var i := IndexOf(s, sep);
    if i == -1 {
      assert Split(s, sep) == [s];
    } else {
      var head, rest := s[..i], s[i + |sep|..];
      var pieces := Split(rest, sep);
      assert Split(s, sep) == [head] + pieces;
      JoinSplit(rest, sep);
      JoinCons(head, pieces, sep);
      assert Join(Split(s, sep), sep) == head + sep + rest;
      SliceParts(s, i, i + |sep|);
      assert s[i..i + |sep|] == sep;
    }
  }

  /** A text without the separator character is one piece. */
  lemma SplitWithout(s: string, c: char)
    requires c !in s
    ensures Split(s, [c]) == [s]
  {
    forall k | 0 <= k <= |s| ensures !OccursAt(s, [c], k) {
      if k < |s| {
        assert s[k..k + 1][0] == s[k];
      }
    }
  }

  /** The first piece ends at the first separator character. */
  lemma SplitAtFirst(s: string, c: char, i: nat)
    requires i < |s| && s[i] == c && c !in s[..i]
    ensures Split(s, [c])[0] == s[..i]
  {
    forall k | 0 <= k < i ensures !OccursAt(s, [c], k) {
      assert s[..i][k] == s[k];
      assert s[k..k + 1][0] == s[k];
    }
    assert s[i..i + 1] == [c];
    var r := IndexOf(s, [c]);
    assert OccursAt(s, [c], i);
    assert r != -1 && r <= i;
    assert r == i;
  }

  lemma SplitHead(x: string, c: char, y: string)
    requires c !in x
    ensures Split(x + [c] + y, [c])[0] == x
  {
    var s := x + [c] + y;
    assert s[..|x|] == x && s[|x|] == c;
    SplitAtFirst(s, c, |x|);
  }

  /** `replace(new RegExp(pat, "g"), rep)` for a pattern without special characters. */
  function ReplaceAll(s: string, pat: string, rep: string): string
    requires pat != []
  {
    Join(Split(s, pat), rep)
  }

  predicate StartsWith(s: string, prefix: string) {
    |prefix| <= |s| && s[..|prefix|] == prefix
  }

  predicate EndsWith(s: string, suffix: string) {
    |suffix| <= |s| && s[|s| - |suffix|..] == suffix
  }

  function DigitChar(d: nat): char
    requires d < 10
  {
    ('0' as int + d) as char
  }

  /** The decimal numeral `String(n)` writes for a natural number. */
  function NatToString(n: nat): (r: string)
    ensures |r| >= 1
    ensures forall i :: 0 <= i < |r| ==> '0' <= r[i] <= '9'
  {
    if n < 10 then [DigitChar(n)] else NatToString(n / 10) + [DigitChar(n % 10)]
  }

  /** The leading digit of a positive numeral is not `0`. */
  lemma {:induction false} NatToStringLead(n: nat)
    requires n >= 1
    ensures '1' <= NatToString(n)[0] <= '9'
  {
    if n >= 10 {
      NatToStringLead(n / 10);
    }
  }

  /** Global literal replacement read left to right: at each position, an
      occurrence of `pat` is replaced and skipped, any other character is
      kept. */
  function ReplaceLeft(s: string, pat: string, rep: string): string
    requires pat != []
    decreases |s|
  {
    if s == [] then []
    else if StartsWith(s, pat) then rep + ReplaceLeft(s[|pat|..], pat, rep)
    else [s[0]] + ReplaceLeft(s[1..], pat, rep)
  }

  lemma ReplaceLeftCopy(s: string, pat: string, rep: string)
    requires pat != [] && s != [] && !OccursAt(s, pat, 0)
    ensures ReplaceLeft(s, pat, rep) == [s[0]] + ReplaceLeft(s[1..], pat, rep)
  {
    assert !StartsWith(s, pat) by {
      if |pat| <= |s| {
        assert s[..|pat|] == s[0..|pat|];
      }
    }
  }

  /** A text that differs from the pattern at some position of the pattern
      does not start with it. */
  lemma CharMismatch(u: string, pat: string, j: nat)
    requires j < |u| && j < |pat| && u[j] != pat[j]
    ensures !OccursAt(u, pat, 0)
  {
  }

  lemma ReplaceLeftHit(pat: string, t: string, rep: string)
    requires pat != []
    ensures ReplaceLeft(pat + t, pat, rep) == rep + ReplaceLeft(t, pat, rep)
  {
    assert (pat + t)[..|pat|] == pat && (pat + t)[|pat|..] == t;
  }

  /** Characters before the first occurrence are copied. */
  lemma {:induction false} ReplaceLeftSkip(s: string, pat: string, rep: string, i: nat)
    requires pat != [] && i <= |s|
    requires forall k :: 0 <= k < i ==> !OccursAt(s, pat, k)
    ensures ReplaceLeft(s, pat, rep) == s[..i] + ReplaceLeft(s[i..], pat, rep)
    decreases i
  {
    if i == 0 {
      assert s[..0] == [] && s[0..] == s;
    } else {
      assert !OccursAt(s, pat, 0);
      ReplaceLeftCopy(s, pat, rep);
      forall k | 0 <= k < i - 1 ensures !OccursAt(s[1..], pat, k) {
        OccursShift(s, pat, k);
      }
      ReplaceLeftSkip(s[1..], pat, rep, i - 1);
      assert s[1..][i - 1..] == s[i..];
      assert [s[0]] + s[1..][..i - 1] == s[..i];
    }
  }

  /** Up to the first occurrence of the pattern the text is copied, and the
      occurrence itself is replaced. */
  lemma ReplaceLeftFirst(s: string, pat: string, rep: string)
    requires pat != [] && IndexOf(s, pat) != -1
    ensures ReplaceLeft(s, pat, rep)
      == s[..IndexOf(s, pat)] + rep + ReplaceLeft(s[IndexOf(s, pat) + |pat|..], pat, rep)
  {
    var i := IndexOf(s, pat);
    ReplaceLeftSkip(s, pat, rep, i);
    assert s[i..][..|pat|] == s[i..i + |pat|];
    assert StartsWith(s[i..], pat);
    assert s[i..][|pat|..] == s[i + |pat|..];
  }

  /** Without an occurrence, `split(pat).join(rep)` gives the text back. */
  lemma ReplaceAllNone(s: string, pat: string, rep: string)
    requires pat != [] && IndexOf(s, pat) == -1
    ensures ReplaceAll(s, pat, rep) == s
  {
    assert Split(s, pat) == [s];
  }

  /** `split(pat).join(rep)` copies the text up to the first occurrence and
      replaces that occurrence. */
  lemma ReplaceAllFirst(s: string, pat: string, rep: string)
    requires pat != [] && IndexOf(s, pat) != -1
    ensures ReplaceAll(s, pat, rep)
      == s[..IndexOf(s, pat)] + rep + ReplaceAll(s[IndexOf(s, pat) + |pat|..], pat, rep)
  {
    var i := IndexOf(s, pat);
    var rest := s[i + |pat|..];
    assert Split(s, pat) == [s[..i]] + Split(rest, pat);
    JoinCons(s[..i], Split(rest, pat), rep);
  }

  /** `split(pat).join(rep)` is the left-to-right replacement. */
  lemma {:induction false} ReplaceAllLeft(s: string, pat: string, rep: string)
    requires pat != []
    ensures ReplaceAll(s, pat, rep) == ReplaceLeft(s, pat, rep)
    decreases |s|
  {
    var i := IndexOf(s, pat);
    if i == -1 {
      ReplaceAllNone(s, pat, rep);
      ReplaceLeftSkip(s, pat, rep, |s|);
      assert s[..|s|] == s && s[|s|..] == [];
    } else {
      ReplaceAllFirst(s, pat, rep);
      ReplaceAllLeft(s[i + |pat|..], pat, rep);
      ReplaceLeftFirst(s, pat, rep);
    }
  }
}
