/** The user's custom alias file (SmartAlias.getAliasData with its helpers
    formatLookup and formatOutput).  Each line `a b c -> x y  # comment`
    defines the lookup tokens `a b c` and the output `x y`.  Lines are read
    from the last to the first, and a lookup token belongs to the first
    definition that claims it in that order, that is, to the LAST line of the
    file that lists it. */
module AliasFile {
  import opened Strings
  import opened TagInput

  /** One parsed definition: its lookup tokens in insertion order (a JS `Set`)
      and its normalised output. */
  datatype AliasDefinition = AliasDefinition(lookup: seq<string>, output: string)

  predicate Distinct(s: seq<string>) {
    forall i, j :: 0 <= i < j < |s| ==> s[i] != s[j]
  }

  /** `new Set(xs)` listed in insertion order: first occurrences only. */
  function Dedup(xs: seq<string>): (r: seq<string>)
    ensures Distinct(r)
    ensures forall x :: x in r <==> x in xs
  {
    if xs == [] then []
    else
      var r := Dedup(xs[..|xs| - 1]);
      assert forall x :: x in xs <==> x in xs[..|xs| - 1] || x == xs[|xs| - 1] by {
        assert xs == xs[..|xs| - 1] + [xs[|xs| - 1]];
      }
      if xs[|xs| - 1] in r then r else r + [xs[|xs| - 1]]
  }

  /** `r` lists its elements in the order in which they first occur in `xs`. */
  predicate FirstOccurrenceOrder(r: seq<string>, xs: seq<string>) {
    forall i, j, k :: 0 <= i < j < |r| && 0 <= k < |xs| && xs[k] == r[j] ==> r[i] in xs[..k]
  }

  /** Appending an element seen for the first time keeps the order. */
  lemma OrderStep(r0: seq<string>, p: seq<string>, last: string, r: seq<string>)
    requires FirstOccurrenceOrder(r0, p)
    requires forall x :: x in r0 ==> x in p
    requires r == r0 || (r == r0 + [last] && last !in p)
    ensures FirstOccurrenceOrder(r, p + [last])
  {
    var xs := p + [last];
    forall i, j, k | 0 <= i < j < |r| && 0 <= k < |xs| && xs[k] == r[j] ensures r[i] in xs[..k] {
      if k < |p| {
        assert xs[k] == p[k] && xs[..k] == p[..k];
        assert r[i] == r0[i] && r[j] == r0[j];
      } else {
        assert xs[k] == last && xs[..k] == p;
        assert r[i] == r0[i];
        if j < |r0| {
          assert r0[j] in p;
          var k' :| 0 <= k' < |p| && p[k'] == last;
          assert r0[i] in p[..k'];
        }
      }
    }
  }

  /** `new Set(xs)` iterates in insertion order: together with Distinct and
      the element set this fixes the result, the order of first occurrences. */
  lemma {:induction false} DedupFirstOrder(xs: seq<string>)
    ensures FirstOccurrenceOrder(Dedup(xs), xs)
  {
    if xs != [] {
      var p := xs[..|xs| - 1];
      DedupFirstOrder(p);
      assert xs == p + [xs[|xs| - 1]];
      OrderStep(Dedup(p), p, xs[|xs| - 1], Dedup(xs));
    }
  }

  /** Dropping empty pieces does not change the first-occurrence order of
      a list without an empty element. */
  lemma OrderIgnoresEmpty(r: seq<string>, xs: seq<string>)
    requires FirstOccurrenceOrder(r, NonEmpty(xs))
    requires forall k :: 0 <= k < |r| ==> r[k] != ""
    ensures FirstOccurrenceOrder(r, xs)
  {
    forall i, j, k | 0 <= i < j < |r| && 0 <= k < |xs| && xs[k] == r[j] ensures r[i] in xs[..k] {
      assert xs == xs[..k] + xs[k..];
      NonEmptyAppend(xs[..k], xs[k..]);
      assert xs[k..] == [xs[k]] + xs[k + 1..];
      NonEmptyAppend([xs[k]], xs[k + 1..]);
      var before := NonEmpty(xs[..k]);
      var ne := NonEmpty(xs);
      assert ne[|before|] == r[j];
      assert ne[..|before|] == before;
      assert r[i] in before;
    }
  }

  /** `formatLookup`: the distinct non-empty space-separated words, in the
      order in which they first occur; this is the order of the alternation
      getTagRegex builds, and so the numbering of the `$n` captures. */
  function FormatLookup(input: string): (r: seq<string>)
    ensures Distinct(r)
    ensures forall x :: x in r <==> x != "" && x in Split(input, " ")
    ensures forall k :: 0 <= k < |r| ==> r[k] != "" && ' ' !in r[k]
    ensures FirstOccurrenceOrder(r, Split(input, " "))
  {
    var words := NonEmpty(Split(input, " "));
    assert forall x :: x in words ==> x != "" && ' ' !in x by {
      assert words == InputTags(input);
    }
    var r := Dedup(words);
    assert forall k :: 0 <= k < |r| ==> r[k] in words;
    DedupFirstOrder(words);
    OrderIgnoresEmpty(r, Split(input, " "));
    r
  }

  /** `formatOutput`: trim, then white-space runs to one space. */
  function FormatOutput(input: string): (r: string)
    ensures NoEdgeWhitespace(r)
    ensures NoWhitespaceRun(r)
    ensures Strip(r) == Strip(input)
    ensures Words(r) == Words(input)
    ensures LoneWhitespaceIn(input, {' '}) ==> OnlySpaces(r)
    ensures NoEdgeWhitespace(input) && NoWhitespaceRun(input) ==> r == input
  {
    CollapseNormalises(Trim(input));
    TrimKeepsWords(input);
    CollapseKeepsWords(Trim(input), []);
    assert LoneWhitespaceIn(input, {' '}) ==> OnlySpaces(CollapseWhitespace(Trim(input))) by {
      if LoneWhitespaceIn(input, {' '}) {
        TrimKeepsLone(input, {' '});
        CollapseToSpaces(Trim(input));
      }
    }
    TrimKeepsText(input);
    CollapseKeepsText(Trim(input));
    assert NoEdgeWhitespace(input) && NoWhitespaceRun(input) ==> CollapseWhitespace(Trim(input)) == input by {
      if NoEdgeWhitespace(input) && NoWhitespaceRun(input) {
        CollapseLeavesNormalText(input);
      }
    }
    CollapseWhitespace(Trim(input))
  }

  /** `line.split("#")[0].trim().split("->")`. */
  function LineParts(line: string): seq<string> {
    Split(Trim(Split(line, "#")[0]), "->")
  }

  /** What one line of the file contributes before any token is claimed:
      nothing, unless it has exactly one `->` outside its comment. */
  datatype LineEntry = Skip | Entry(words: seq<string>, output: string)

  function ParseLineText(line: string): (e: LineEntry)
    ensures e.Entry? <==> |LineParts(line)| == 2
  {
    var parts := LineParts(line);
    if |parts| != 2 then Skip else Entry(FormatLookup(parts[0]), FormatOutput(parts[1]))
  }

  function Entries(lines: seq<string>): (es: seq<LineEntry>)
    ensures |es| == |lines|
    ensures forall j :: 0 <= j < |lines| ==> es[j] == ParseLineText(lines[j])
  {
    seq(|lines|, j requires 0 <= j < |lines| => ParseLineText(lines[j]))
  }

  /** The words and the output of an entry are as formatLookup and
      formatOutput leave them. */
  predicate EntryWellFormed(e: LineEntry) {
    e.Entry? ==>
      && Distinct(e.words)
      && (forall t :: t in e.words ==> t != "" && ' ' !in t)
      && NoEdgeWhitespace(e.output)
      && NoWhitespaceRun(e.output)
  }

  lemma EntriesWellFormed(lines: seq<string>)
    ensures forall j :: 0 <= j < |lines| ==> EntryWellFormed(Entries(lines)[j])
  {
    forall j | 0 <= j < |lines| ensures EntryWellFormed(Entries(lines)[j]) {
      var e := ParseLineText(lines[j]);
      if e.Entry? {
        assert forall k :: 0 <= k < |e.words| ==> e.words[k] != "" && ' ' !in e.words[k];
      }
    }
  }

  /** The entry lists `x` among its lookup tokens. */
  predicate Claims(e: LineEntry, x: string) {
    e.Entry? && x in e.words
  }

  /** The inner loop over one line's lookup tokens: keep the tokens nobody
      has claimed yet and claim them. */
  function Claim(tokens: seq<string>, claimed: set<string>): (r: (seq<string>, set<string>))
    ensures r.1 == claimed + set t | t in tokens
    ensures forall x :: x in r.0 <==> x in tokens && x !in claimed
    ensures Distinct(r.0)
  {
    if tokens == [] then ([], claimed)
    else
      var prefix := tokens[..|tokens| - 1];
      var last := tokens[|tokens| - 1];
      var (lookup, now) := Claim(prefix, claimed);
      assert tokens == prefix + [last];
      if last in now then (lookup, now) else (lookup + [last], now + {last})
  }

  /** The tokens a line keeps appear in the order the line lists them. */
  lemma {:induction false} ClaimFirstOrder(tokens: seq<string>, claimed: set<string>)
    ensures FirstOccurrenceOrder(Claim(tokens, claimed).0, tokens)
  {
    if tokens != [] {
      var p := tokens[..|tokens| - 1];
      ClaimFirstOrder(p, claimed);
      assert tokens == p + [tokens[|tokens| - 1]];
      OrderStep(Claim(p, claimed).0, p, tokens[|tokens| - 1], Claim(tokens, claimed).0);
    }
  }

  datatype ParseState = ParseState(defs: seq<AliasDefinition>, claimed: set<string>)

  /** The loop body for one line. */
  function ParseLine(st: ParseState, e: LineEntry): ParseState {
    if e.Skip? then st
    else
      var (lookup, claimed) := Claim(e.words, st.claimed);
      if lookup == [] then ParseState(st.defs, claimed)
      else ParseState(st.defs + [AliasDefinition(lookup, e.output)], claimed)
  }

  /** The state after reading the entries from the last one to the first. */
  function ParseFrom(es: seq<LineEntry>): ParseState {
    if es == [] then ParseState([], {})
    else ParseLine(ParseFrom(es[1..]), es[0])
  }

  /** No lookup token belongs to two definitions. */
  predicate LookupsDisjoint(defs: seq<AliasDefinition>) {
    forall a, b, x :: 0 <= a < b < |defs| && x in defs[a].lookup ==> x !in defs[b].lookup
  }

  /** Every definition has a non-empty lookup of distinct single words and a
      trimmed output without white-space runs. */
  predicate WellFormed(defs: seq<AliasDefinition>) {
    forall k :: 0 <= k < |defs| ==>
      && defs[k].lookup != []
      && Distinct(defs[k].lookup)
      && (forall t :: t in defs[k].lookup ==> t != "" && ' ' !in t)
      && NoEdgeWhitespace(defs[k].output)
      && NoWhitespaceRun(defs[k].output)
  }

  /** Entry `j` lists `x` and no later entry does. */
  predicate IsLastClaim(es: seq<LineEntry>, j: int, x: string) {
    0 <= j < |es| && Claims(es[j], x)
    && forall j' :: j < j' < |es| ==> !Claims(es[j'], x)
  }

  /** A token listed on some line belongs to a definition carrying the output
      of the last line of the file that lists it. */
  ghost predicate LastLineWins(es: seq<LineEntry>, defs: seq<AliasDefinition>) {
    forall j, x :: IsLastClaim(es, j, x) ==>
      exists k :: 0 <= k < |defs| && x in defs[k].lookup && defs[k].output == es[j].output
  }

  /** The claimed tokens are those some line lists, and those are exactly the
      tokens of the definitions. */
  ghost predicate ClaimedExactly(es: seq<LineEntry>, st: ParseState) {
    && (forall x :: x in st.claimed <==> exists j :: 0 <= j < |es| && Claims(es[j], x))
    && (forall k, x :: 0 <= k < |st.defs| && x in st.defs[k].lookup ==> x in st.claimed)
  }

  /** Every lookup token comes from a definition line that lists it. */
  ghost predicate OnlyListedTokens(es: seq<LineEntry>, defs: seq<AliasDefinition>) {
    forall k, x :: 0 <= k < |defs| && x in defs[k].lookup ==>
      exists j :: 0 <= j < |es| && Claims(es[j], x)
  }

  lemma ClaimedTokensListed(es: seq<LineEntry>, st: ParseState)
    requires ClaimedExactly(es, st)
    ensures OnlyListedTokens(es, st.defs)
  {
    forall k, x | 0 <= k < |st.defs| && x in st.defs[k].lookup
      ensures exists j :: 0 <= j < |es| && Claims(es[j], x)
    {
      assert x in st.claimed;
    }
  }

  lemma ShiftedEntries(es: seq<LineEntry>)
    requires es != []
    ensures forall j :: 0 <= j < |es[1..]| ==> es[1..][j] == es[j + 1]
  {
  }

  lemma StepDisjoint(es: seq<LineEntry>)
    requires es != []
    requires LookupsDisjoint(ParseFrom(es[1..]).defs)
    requires ClaimedExactly(es[1..], ParseFrom(es[1..]))
    ensures LookupsDisjoint(ParseFrom(es).defs)
  {
    var st0 := ParseFrom(es[1..]);
    var st := ParseFrom(es);
    if es[0].Entry? {
      forall a, b, x | 0 <= a < b < |st.defs| && x in st.defs[a].lookup
        ensures x !in st.defs[b].lookup
      {
        assert st.defs[a] == st0.defs[a];
        if b == |st0.defs| {
          assert x in st0.claimed;
        } else {
          assert st.defs[b] == st0.defs[b];
        }
      }
    }
  }

  lemma StepWellFormed(es: seq<LineEntry>)
    requires es != []
    requires EntryWellFormed(es[0])
    requires WellFormed(ParseFrom(es[1..]).defs)
    ensures WellFormed(ParseFrom(es).defs)
  {
    var st0 := ParseFrom(es[1..]);
    var st := ParseFrom(es);
    if es[0].Entry? {
      forall k | 0 <= k < |st.defs| ensures st.defs[k].lookup != [] && Distinct(st.defs[k].lookup)
        && (forall t :: t in st.defs[k].lookup ==> t != "" && ' ' !in t)
        && NoEdgeWhitespace(st.defs[k].output) && NoWhitespaceRun(st.defs[k].output)
      {
        if k < |st0.defs| {
          assert st.defs[k] == st0.defs[k];
        }
      }
    }
  }

  lemma StepClaimed(es: seq<LineEntry>)
    requires es != []
    requires ClaimedExactly(es[1..], ParseFrom(es[1..]))
    ensures ClaimedExactly(es, ParseFrom(es))
  {
    var rest := es[1..];
    ShiftedEntries(es);
    var st0 := ParseFrom(rest);
    var st := ParseFrom(es);
    forall x ensures x in st.claimed <==> exists j :: 0 <= j < |es| && Claims(es[j], x) {
      if x in st0.claimed {
        var j1 :| 0 <= j1 < |rest| && Claims(rest[j1], x);
        assert Claims(es[j1 + 1], x);
      }
      if j1 :| 0 <= j1 < |es| && Claims(es[j1], x) {
        if j1 > 0 {
          assert Claims(rest[j1 - 1], x);
        }
      }
    }
    forall k, x | 0 <= k < |st.defs| && x in st.defs[k].lookup ensures x in st.claimed {
      if k < |st0.defs| {
        assert st.defs[k] == st0.defs[k];
      }
    }
  }

  lemma StepLastLineWins(es: seq<LineEntry>)
    requires es != []
    requires LastLineWins(es[1..], ParseFrom(es[1..]).defs)
    requires ClaimedExactly(es[1..], ParseFrom(es[1..]))
    ensures LastLineWins(es, ParseFrom(es).defs)
  {
    var rest := es[1..];
    ShiftedEntries(es);
    var st0 := ParseFrom(rest);
    var st := ParseFrom(es);
    forall j, x | IsLastClaim(es, j, x)
      ensures exists k :: 0 <= k < |st.defs| && x in st.defs[k].lookup && st.defs[k].output == es[j].output
    {
      if j == 0 {
        assert x !in st0.claimed;
        var (lookup, claimed) := Claim(es[0].words, st0.claimed);
        assert x in lookup;
        assert st.defs[|st.defs| - 1] == AliasDefinition(lookup, es[0].output);
      } else {
        assert IsLastClaim(rest, j - 1, x) by {
          forall j' | j - 1 < j' < |rest| ensures !Claims(rest[j'], x) {
            assert rest[j'] == es[j' + 1];
          }
        }
        var k :| 0 <= k < |st0.defs| && x in st0.defs[k].lookup && st0.defs[k].output == rest[j - 1].output;
        assert st.defs[k] == st0.defs[k];
      }
    }
  }

  /** Everything the parse promises, for every number of entries read. */
  lemma {:induction false} ParseFromInvariant(es: seq<LineEntry>)
    requires forall j :: 0 <= j < |es| ==> EntryWellFormed(es[j])
    ensures LookupsDisjoint(ParseFrom(es).defs)
    ensures WellFormed(ParseFrom(es).defs)
    ensures LastLineWins(es, ParseFrom(es).defs)
    ensures ClaimedExactly(es, ParseFrom(es))
  {
    if es != [] {
      ShiftedEntries(es);
      ParseFromInvariant(es[1..]);
      StepDisjoint(es);
      StepWellFormed(es);
      StepClaimed(es);
      StepLastLineWins(es);
    }
  }

  /** The inner loop of one line: each word not yet listed joins the lookup
      and the list of claimed words. */
  method ClaimTokens(words: seq<string>, claimed: set<string>) returns (lookup: seq<string>, now: set<string>)
    ensures (lookup, now) == Claim(words, claimed)
  {
    lookup, now := [], claimed;
    var j := 0;
    while j < |words|
      invariant 0 <= j <= |words|
      invariant (lookup, now) == Claim(words[..j], claimed)
    {
      var part := words[j];
      assert words[..j + 1][..j] == words[..j];
      if part !in now {
        now := now + {part};
        lookup := lookup + [part];
      }
      j := j + 1;
    }
    assert words[..j] == words;
  }

  /** `getAliasData`: parse the raw alias text.  The split lines are read
      from the last one back to the first, which is what iterating over
      `split("\n").reverse()` does. */
  method GetAliasData(rawData: string) returns (result: seq<AliasDefinition>)
    ensures result == ParseFrom(Entries(Split(rawData, "\n"))).defs
    ensures LookupsDisjoint(result)
    ensures WellFormed(result)
    ensures LastLineWins(Entries(Split(rawData, "\n")), result)
    ensures OnlyListedTokens(Entries(Split(rawData, "\n")), result)
  {
    var data := Split(rawData, "\n");
    ghost var es := Entries(data);
    result := [];
    var aliasList: set<string> := {};
    var i := |data|;
    while i > 0
      invariant 0 <= i <= |data|
      invariant ParseState(result, aliasList) == ParseFrom(es[i..])
    {
      i := i - 1;
      var line := data[i];
      assert es[i..][1..] == es[i + 1..];
      var parts := Split(Trim(Split(line, "#")[0]), "->");
      if |parts| != 2 {
        continue;
      }
      var output := FormatOutput(parts[1]);
      var lookup;
      lookup, aliasList := ClaimTokens(FormatLookup(parts[0]), aliasList);
      if lookup == [] {
        continue;
      }
      result := result + [AliasDefinition(lookup, output)];
    }
    assert es[0..] == es;
    EntriesWellFormed(data);
    ParseFromInvariant(es);
    ClaimedTokensListed(es, ParseFrom(es));
  }

  /** Only definition lines matter: dropping every other line (comments,
      blank lines, lines with no `->` or with more than one) parses to the
      same definitions. */
  function DefinitionEntries(es: seq<LineEntry>): (r: seq<LineEntry>)
    ensures forall k :: 0 <= k < |r| ==> r[k].Entry?
  {
    if es == [] then []
    else if es[0].Entry? then [es[0]] + DefinitionEntries(es[1..])
    else DefinitionEntries(es[1..])
  }

  lemma {:induction false} OtherLinesIgnored(es: seq<LineEntry>)
    ensures ParseFrom(DefinitionEntries(es)) == ParseFrom(es)
  {
    if es != [] {
      OtherLinesIgnored(es[1..]);
      if es[0].Entry? {
        assert ([es[0]] + DefinitionEntries(es[1..]))[1..] == DefinitionEntries(es[1..]);
      }
    }
  }
}
