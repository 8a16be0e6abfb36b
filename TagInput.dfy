/** Reading the tag textarea (SmartAlias.getInputString and getInputTags):
    normalise the raw text into one space-separated line, then cut it into tags. */
module TagInput {
  import opened Strings

  /** `replace(/\r?\n|\r/g, " ")`: a CRLF pair, a lone CR or a lone LF each
      become one space. */
  function ReplaceNewlines(s: string): (r: string)
    ensures |r| <= |s|
    ensures (r == []) <==> (s == [])
    ensures NoLineBreak(r)
  {
    if s == [] then []
    else
      var k := if |s| >= 2 && s[0] == '\r' && s[1] == '\n' then 2 else 1;
      var c := if s[0] == '\r' || s[0] == '\n' then ' ' else s[0];
      var rest := ReplaceNewlines(s[k..]);
      var r := [c] + rest;
      assert forall i :: 1 <= i < |r| ==> r[i] == rest[i - 1];
      r
  }

  /** Line breaks and the spaces replacing them are all white space: every
      other character is kept, in order. */
  lemma {:induction false} ReplaceNewlinesKeepsText(s: string)
    ensures Strip(ReplaceNewlines(s)) == Strip(s)
    decreases |s|
  {
    if s != [] {
      var k := if |s| >= 2 && s[0] == '\r' && s[1] == '\n' then 2 else 1;
      var rest := ReplaceNewlines(s[k..]);
      ReplaceNewlinesKeepsText(s[k..]);
      var r := ReplaceNewlines(s);
      assert r[1..] == rest;
      if k == 2 {
        assert s[1..][1..] == s[2..];
        assert IsWhitespace(s[1..][0]);
      }
    }
  }

  /** A line break and the space replacing it are both white space: the
      words and their boundaries stay as they were. */
  lemma {:induction false} ReplaceNewlinesKeepsWords(s: string, cur: string)
    ensures WordsFrom(ReplaceNewlines(s), cur) == WordsFrom(s, cur)
    decreases |s|
  {
    if s != [] {
      var k := if |s| >= 2 && s[0] == '\r' && s[1] == '\n' then 2 else 1;
      var r := ReplaceNewlines(s);
      assert r[1..] == ReplaceNewlines(s[k..]);
      if k == 2 {
        ReplaceNewlinesKeepsWords(s[2..], []);
        assert s[1..][0] == '\n' && s[1..][1..] == s[2..];
        assert WordsFrom(s[1..], []) == WordsFrom(s[2..], []);
      } else if IsWhitespace(s[0]) {
        ReplaceNewlinesKeepsWords(s[1..], []);
      } else {
        ReplaceNewlinesKeepsWords(s[1..], cur + [s[0]]);
      }
    }
  }

  /** Line breaks that stand alone become spaces, and every white-space
      character keeps whether it has a white-space neighbour: when each lone
      white-space character is a space or a line break, each lone one
      afterwards is a space. */
  lemma {:induction false} ReplaceNewlinesLone(s: string, afterWhite: bool)
    requires LoneWhitespaceAfter(s, {' ', '\n', '\r'}, afterWhite)
    ensures LoneWhitespaceAfter(ReplaceNewlines(s), {' '}, afterWhite)
    decreases |s|
  {
    if s != [] {
      var r := ReplaceNewlines(s);
      var k := if |s| >= 2 && s[0] == '\r' && s[1] == '\n' then 2 else 1;
      assert r[1..] == ReplaceNewlines(s[k..]);
      if k == 2 {
        LoneSuffix(s, {' ', '\n', '\r'}, afterWhite, 2);
        ReplaceNewlinesLone(s[2..], true);
      } else {
        ReplaceNewlinesLone(s[1..], IsWhitespace(s[0]));
        if |s| >= 2 {
          var t := ReplaceNewlines(s[1..]);
          assert t[0] == (if s[1] == '\r' || s[1] == '\n' then ' ' else s[1]);
          assert r[1] == t[0];
        }
      }
    }
  }

  /** Without carriage returns, each line feed becomes one space and every
      other character stays where it is. */
  lemma {:induction false} ReplaceNewlinesAsSpaces(s: string)
    requires '\r' !in s
    ensures |ReplaceNewlines(s)| == |s|
    ensures forall i :: 0 <= i < |s| ==> ReplaceNewlines(s)[i] == (if s[i] == '\n' then ' ' else s[i])
    decreases |s|
  {
    if s != [] {
      ReplaceNewlinesAsSpaces(s[1..]);
      var r := ReplaceNewlines(s);
      var rest := ReplaceNewlines(s[1..]);
      assert forall i :: 1 <= i < |r| ==> r[i] == rest[i - 1];
    }
  }

  /** A line break is white space and so is the space replacing it: the
      ends of the text stay white space exactly when they were. */
  lemma {:induction false} ReplaceNewlinesEdges(s: string)
    requires NoEdgeWhitespace(s)
    ensures NoEdgeWhitespace(ReplaceNewlines(s))
  {
    if s != [] {
      ReplaceNewlinesLast(s);
    }
  }

  lemma {:induction false} ReplaceNewlinesLast(s: string)
    requires s != []
    ensures var r := ReplaceNewlines(s); IsWhitespace(r[|r| - 1]) <==> IsWhitespace(s[|s| - 1])
    decreases |s|
  {
    var k := if |s| >= 2 && s[0] == '\r' && s[1] == '\n' then 2 else 1;
    if k < |s| {
      ReplaceNewlinesLast(s[k..]);
      assert s[k..][|s| - k - 1] == s[|s| - 1];
    }
  }

  /** Replacing line breaks brings in no upper-case letter. */
  lemma {:induction false} ReplaceNewlinesKeepsLetters(s: string)
    requires NoUpper(s)
    ensures NoUpper(ReplaceNewlines(s))
    decreases |s|
  {
    if s != [] {
      var k := if |s| >= 2 && s[0] == '\r' && s[1] == '\n' then 2 else 1;
      assert NoUpper(s[k..]);
      ReplaceNewlinesKeepsLetters(s[k..]);
      var r := ReplaceNewlines(s);
      var rest := ReplaceNewlines(s[k..]);
      assert forall i :: 1 <= i < |r| ==> r[i] == rest[i - 1];
    }
  }

  /** `getInputString`: trim, lower-case, newlines to spaces, white-space runs
      to one space.  The result is one line with no white space at either end,
      no two white-space characters in a row and no upper-case letter. */
  function InputString(raw: string): (r: string)
    ensures |r| <= |raw|
    ensures NoEdgeWhitespace(r)
    ensures NoWhitespaceRun(r)
    ensures NoLineBreak(r)
    ensures NoUpper(r)
    ensures Strip(r) == Lower(Strip(raw))
    ensures Words(r) == LowerWords(Words(raw))
    ensures LoneWhitespaceIn(raw, {' ', '\n', '\r'}) ==> OnlySpaces(r)
    ensures NoEdgeWhitespace(raw) && NoWhitespaceRun(raw) && NoLineBreak(raw) && NoUpper(raw) ==> r == raw
  {
    var trimmed := Trim(raw);
    var lowered := Lower(trimmed);
    LowerKeepsEdges(trimmed);
    var oneLine := ReplaceNewlines(lowered);
    ReplaceNewlinesEdges(lowered);
    ReplaceNewlinesKeepsLetters(lowered);
    CollapseNormalises(oneLine);
    CollapseKeepsLetters(oneLine);
    TrimKeepsText(raw);
    StripLower(trimmed);
    ReplaceNewlinesKeepsText(lowered);
    CollapseKeepsText(oneLine);
    TrimKeepsWords(raw);
    WordsLower(trimmed, []);
    assert Lower([]) == [];
    ReplaceNewlinesKeepsWords(lowered, []);
    CollapseKeepsWords(oneLine, []);
    assert LoneWhitespaceIn(raw, {' ', '\n', '\r'}) ==> OnlySpaces(CollapseWhitespace(oneLine)) by {
      if LoneWhitespaceIn(raw, {' ', '\n', '\r'}) {
        TrimKeepsLone(raw, {' ', '\n', '\r'});
        LowerKeepsLone(trimmed, {' ', '\n', '\r'}, false);
        ReplaceNewlinesLone(lowered, false);
        CollapseToSpaces(oneLine);
      }
    }
    assert NoEdgeWhitespace(raw) && NoWhitespaceRun(raw) && NoLineBreak(raw) && NoUpper(raw) ==>
      CollapseWhitespace(oneLine) == raw by {
      if NoEdgeWhitespace(raw) && NoWhitespaceRun(raw) && NoLineBreak(raw) && NoUpper(raw) {
        LowerOfLower(raw);
        assert '\r' !in raw;
        ReplaceNewlinesAsSpaces(raw);
        assert oneLine == raw;
        CollapseLeavesNormalText(raw);
      }
    }
    CollapseWhitespace(oneLine)
  }

  /** `filter((el) => el != null && el != "")`. */
  function NonEmpty(pieces: seq<string>): (r: seq<string>)
    ensures |r| <= |pieces|
    ensures forall k :: 0 <= k < |r| ==> r[k] != "" && r[k] in pieces
    ensures forall p :: p in pieces && p != "" ==> p in r
    ensures (forall k :: 0 <= k < |pieces| ==> pieces[k] != "") ==> r == pieces
  {
    if pieces == [] then []
    else if pieces[0] == "" then NonEmpty(pieces[1..])
    else [pieces[0]] + NonEmpty(pieces[1..])
  }

  /** The filter works piece by piece: it keeps the order and the
      multiplicity of the non-empty pieces and drops each empty one. */
  lemma {:induction false} NonEmptyAppend(a: seq<string>, b: seq<string>)
    ensures NonEmpty(a + b) == NonEmpty(a) + NonEmpty(b)
    ensures forall p :: NonEmpty([p]) == if p == "" then [] else [p]
  {
    if a != [] {
      assert (a + b)[0] == a[0] && (a + b)[1..] == a[1..] + b;
      NonEmptyAppend(a[1..], b);
    } else {
      assert a + b == b;
    }
    forall p ensures NonEmpty([p]) == if p == "" then [] else [p] {
      assert [p][1..] == [];
    }
  }

  lemma CharContained(s: string, i: nat)
    requires i < |s|
    ensures Contains(s, [s[i]])
  {
    assert OccursAt(s, [s[i]], i);
  }

  /** `getInputTags` on a string: split on single spaces and drop the empty
      pieces.  No tag is empty and no tag contains a space. */
  function InputTags(s: string): (tags: seq<string>)
    ensures forall k :: 0 <= k < |tags| ==> tags[k] != "" && ' ' !in tags[k]
  {
    var pieces := Split(s, " ");
    var tags := NonEmpty(pieces);
    assert forall k :: 0 <= k < |tags| ==> ' ' !in tags[k] by {
      forall k | 0 <= k < |tags| ensures ' ' !in tags[k] {
        if ' ' in tags[k] {
          var i :| 0 <= i < |tags[k]| && tags[k][i] == ' ';
          CharContained(tags[k], i);
        }
      }
    }
    tags
  }

  /** One line of tags separated by single spaces, with no space at either end. */
  predicate SpaceSeparated(s: string) {
    s != [] && s[0] != ' ' && s[|s| - 1] != ' '
    && forall i :: 0 <= i < |s| - 1 ==> !(s[i] == ' ' && s[i + 1] == ' ')
  }

  lemma {:induction false} SplitHasNoEmptyPiece(s: string)
    requires SpaceSeparated(s)
    ensures forall k :: 0 <= k < |Split(s, " ")| ==> Split(s, " ")[k] != ""
    decreases |s|
  {
    var i := IndexOf(s, " ");
    if i == -1 {
      assert Split(s, " ") == [s];
    } else {
      assert s[i..i + 1] == " ";
      assert s[i] == ' ' by { assert s[i..i + 1][0] == s[i]; }
      assert i != 0;
      assert i < |s| - 1;
      var rest := s[i + 1..];
      assert rest[0] == s[i + 1];
      SplitHasNoEmptyPiece(rest);
      assert Split(s, " ") == [s[..i]] + Split(rest, " ");
    }
  }

  /** The tags of a normalised input string, joined with single spaces, give
      back that string: normalisation then tokenising loses no text. */
  lemma TagsRoundTrip(raw: string)
    ensures Join(InputTags(InputString(raw)), " ") == InputString(raw)
  {
    var s := InputString(raw);
    if s == [] {
      assert IndexOf(s, " ") == -1;
      assert Split(s, " ") == [""];
      assert InputTags(s) == [];
    } else {
      assert IsWhitespace(' ');
      SplitHasNoEmptyPiece(s);
      JoinSplit(s, " ");
    }
  }

  /** A text whose white space is spaces alone and that holds no space is
      one word, and one tag unless it is empty. */
  lemma TagsOfOneWord(s: string)
    requires OnlySpaces(s) && IndexOf(s, " ") == -1
    ensures InputTags(s) == Words(s)
  {
    assert Split(s, " ") == [s];
    forall k | 0 <= k < |s| ensures !IsWhitespace(s[k]) {
      assert !OccursAt(s, " ", k);
      assert s[k..k + 1] == [s[k]];
    }
    WordsWithoutBlank(s, [], []);
    assert [] + s == s && s + [] == s;
  }

  /** The piece before the first space is the first tag, when it is not
      empty. */
  lemma TagsAtFirstSpace(s: string)
    requires IndexOf(s, " ") != -1
    ensures var i := IndexOf(s, " ");
      InputTags(s) == Flush(s[..i]) + InputTags(s[i + 1..])
  {
    var i := IndexOf(s, " ");
    var head := s[..i];
    var rest := s[i + 1..];
    assert Split(s, " ") == [head] + Split(rest, " ");
    NonEmptyAppend([head], Split(rest, " "));
  }

  /** The text before the first space, when it holds no white space, is the
      first word, when it is not empty. */
  lemma WordsAtFirstSpace(s: string)
    requires OnlySpaces(s) && IndexOf(s, " ") != -1
    ensures var i := IndexOf(s, " ");
      Words(s) == Flush(s[..i]) + Words(s[i + 1..])
  {
    var i := IndexOf(s, " ");
    var head := s[..i];
    var rest := s[i + 1..];
    forall k | 0 <= k < i ensures !IsWhitespace(head[k]) {
      assert !OccursAt(s, " ", k);
      assert s[k..k + 1] == [s[k]] && head[k] == s[k];
    }
    assert s[i..i + 1] == " " && s[i] == s[i..i + 1][0];
    assert s == head + ([' '] + rest);
    WordsWithoutBlank(head, [' '] + rest, []);
    assert [] + head == head;
    assert ([' '] + rest)[1..] == rest;
  }

  /** On a text whose white space is spaces alone, the tags are exactly its
      words. */
  lemma {:induction false} InputTagsAreWords(s: string)
    requires OnlySpaces(s)
    ensures InputTags(s) == Words(s)
    decreases |s|
  {
    var i := IndexOf(s, " ");
    if i == -1 {
      TagsOfOneWord(s);
    } else {
      var rest := s[i + 1..];
      assert OnlySpaces(rest) by {
        forall k | 0 <= k < |rest| ensures rest[k] == s[i + 1 + k] { }
      }
      InputTagsAreWords(rest);
      TagsAtFirstSpace(s);
      WordsAtFirstSpace(s);
    }
  }

  /** The tags of the text box are the words of the raw text, lower-cased,
      whenever every white-space character standing alone is a space or a
      line break: a run of white space, line breaks and tabs included,
      separates two tags and never merges them. */
  lemma TagsAreRawWords(raw: string)
    requires LoneWhitespaceIn(raw, {' ', '\n', '\r'})
    ensures InputTags(InputString(raw)) == LowerWords(Words(raw))
  {
    InputTagsAreWords(InputString(raw));
  }
}
