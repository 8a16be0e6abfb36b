/** CustomFlagger: user-defined flags shown on a post page and on search
    thumbnails.  A post is the set of its tags; a flag's filter is its tag
    string split on single spaces. */
module CustomFlagger {
  import opened Strings

  datatype FlagDefinition = FlagDefinition(name: string, color: string, tags: string)

  /** The flags a fresh settings object holds. */
  const DEFAULT_FLAGS: seq<FlagDefinition> := [CHARS_FLAG, TAGS_FLAG, SEXES_FLAG]

  const CHARS_FLAG := FlagDefinition("CHARS", "#800000", "-solo -duo -group -zero_pictured")
  const TAGS_FLAG := FlagDefinition("TAGS", "#008000", "tagcount:<5")
  const SEXES_FLAG := FlagDefinition("SEXES", "#000080",
    "-zero_pictured -male -female -herm -maleherm -andromorph -gynomorph -intersex -ambiguous_gender")

  /** `tagsMatchFilter`: the loop returns while looking at the first entry,
      so that entry alone decides.  `-x` asks for a post without `x`, `~x`
      and any other entry `x` for a post with it; no entry at all matches. */
  function TagsMatchFilter(post: set<string>, filter: seq<string>): (r: bool)
    ensures filter == [] ==> r
    ensures filter != [] && StartsWith(filter[0], "-") ==> (r <==> filter[0][1..] !in post)
    ensures filter != [] && StartsWith(filter[0], "~") ==> (r <==> filter[0][1..] in post)
    ensures filter != [] && !StartsWith(filter[0], "-") && !StartsWith(filter[0], "~") ==> (r <==> filter[0] in post)
  {
    if filter == [] then true
    else
      var entry := filter[0];
      if StartsWith(entry, "-") then entry[1..] !in post
      else if StartsWith(entry, "~") then entry[1..] in post
      else entry in post
  }

  /** Entries after the first never change the outcome. */
  lemma OnlyFirstEntryCounts(post: set<string>, entry: string, rest1: seq<string>, rest2: seq<string>)
    ensures TagsMatchFilter(post, [entry] + rest1) == TagsMatchFilter(post, [entry] + rest2)
  {
    assert ([entry] + rest1)[0] == entry && ([entry] + rest2)[0] == entry;
  }

  /** The filter a flag is tested with. */
  function Filter(flag: FlagDefinition): (f: seq<string>)
    ensures f != []
  {
    Split(flag.tags, " ")
  }

  /** A flag's tag string is never split into an empty list, so the
      "no entry" case never decides a flag: a flag with an empty tag string
      matches only a post carrying the empty tag. */
  lemma EmptyTagStringFlag(post: set<string>, flag: FlagDefinition)
    requires flag.tags == ""
    ensures TagsMatchFilter(post, Filter(flag)) <==> "" in post
  {
    assert IndexOf("", " ") == -1;
    assert Filter(flag) == [""];
  }

  predicate Matches(flag: FlagDefinition, post: set<string>) {
    TagsMatchFilter(post, Filter(flag))
  }

  /** The flags that match, in the order of the list. */
  function MatchingFlags(flags: seq<FlagDefinition>, post: set<string>): seq<FlagDefinition> {
    if flags == [] then []
    else
      var rest := MatchingFlags(flags[..|flags| - 1], post);
      if Matches(flags[|flags| - 1], post) then rest + [flags[|flags| - 1]] else rest
  }

  /** One entry per matching flag, and no other: each flag occurs as often
      as in the list when it matches and not at all otherwise; the order of
      the list is kept. */
  lemma {:induction false} MatchingFlagsSpec(flags: seq<FlagDefinition>, post: set<string>)
    ensures forall f :: multiset(MatchingFlags(flags, post))[f] == if Matches(f, post) then multiset(flags)[f] else 0
    ensures |MatchingFlags(flags, post)| <= |flags|
  {
    if flags != [] {
      var prefix := flags[..|flags| - 1];
      MatchingFlagsSpec(prefix, post);
      var last := flags[|flags| - 1];
      assert flags == prefix + [last];
      assert multiset(flags) == multiset(prefix) + multiset{last};
      var rest := MatchingFlags(prefix, post);
      if Matches(last, post) {
        assert MatchingFlags(flags, post) == rest + [last];
        assert multiset(rest + [last]) == multiset(rest) + multiset{last};
      } else {
        assert MatchingFlags(flags, post) == rest;
      }
    }
  }

  /** Selecting over two lists one after the other is selecting over the
      whole: the order of the flag list carries over. */
  lemma {:induction false} MatchingFlagsAppend(a: seq<FlagDefinition>, b: seq<FlagDefinition>, post: set<string>)
    ensures MatchingFlags(a + b, post) == MatchingFlags(a, post) + MatchingFlags(b, post)
    decreases |b|
  {
    if b != [] {
      var prefix := b[..|b| - 1];
      MatchingFlagsAppend(a, prefix, post);
      assert (a + b)[..|a + b| - 1] == a + prefix;
      var last := b[|b| - 1];
      assert (a + b)[|a + b| - 1] == last;
      assert MatchingFlags(a, post) + MatchingFlags(prefix, post) + [last]
        == MatchingFlags(a, post) + (MatchingFlags(prefix, post) + [last]);
    } else {
      assert a + b == a;
    }
  }

  /** No flag shows exactly when no flag matches. */
  lemma {:induction false} NoneMatching(flags: seq<FlagDefinition>, post: set<string>)
    ensures MatchingFlags(flags, post) == [] <==> forall k :: 0 <= k < |flags| ==> !Matches(flags[k], post)
  {
    if flags != [] {
      var prefix := flags[..|flags| - 1];
      NoneMatching(prefix, post);
      assert forall k :: 0 <= k < |prefix| ==> prefix[k] == flags[k];
    }
  }

  /** The selection loop both pages share. */
  method ActiveFlags(flags: seq<FlagDefinition>, post: set<string>) returns (active: seq<FlagDefinition>)
    ensures active == MatchingFlags(flags, post)
  {
    active := [];
    var i := 0;
    while i < |flags|
      invariant 0 <= i <= |flags|
      invariant active == MatchingFlags(flags[..i], post)
    {
      assert flags[..i + 1][..i] == flags[..i];
      var flag := flags[i];
      if TagsMatchFilter(post, Split(flag.tags, " ")) {
        active := active + [flag];
      }
      i := i + 1;
    }
    assert flags[..i] == flags;
  }

  /** `createPostPage`: the flag panel, or None when no flag is active and
      nothing is inserted. */
  method CreatePostPage(flags: seq<FlagDefinition>, post: set<string>) returns (panel: seq<FlagDefinition>, shown: bool)
    ensures panel == MatchingFlags(flags, post)
    ensures shown <==> exists k :: 0 <= k < |flags| && Matches(flags[k], post)
  {
    panel := ActiveFlags(flags, post);
    NoneMatching(flags, post);
    shown := |panel| != 0;
  }

  /** `modifyThumbnail`: the flags appended to the thumbnail's container. */
  method ModifyThumbnail(flags: seq<FlagDefinition>, post: set<string>) returns (appended: seq<FlagDefinition>)
    ensures appended == MatchingFlags(flags, post)
    ensures appended == [] <==> forall k :: 0 <= k < |flags| ==> !Matches(flags[k], post)
  {
    var active := ActiveFlags(flags, post);
    NoneMatching(flags, post);
    appended := [];
    if |active| == 0 {
      return;
    }
    appended := active;
  }

  /** A flag whose tag string starts with `-x ` marks exactly the posts
      without `x`, whatever follows. */
  lemma LeadingNegationDecides(flag: FlagDefinition, x: string, rest: string, post: set<string>)
    requires ' ' !in x
    requires flag.tags == "-" + x + " " + rest
    ensures Matches(flag, post) <==> x !in post
  {
    var head := "-" + x;
    assert ' ' !in head by {
      forall k | 0 <= k < |head| ensures head[k] != ' ' {
        if k > 0 {
          assert head[k] == x[k - 1];
        }
      }
    }
    assert flag.tags == head + [' '] + rest;
    SplitHead(head, ' ', rest);
    assert StartsWith(head, "-") && head[1..] == x;
  }

  /** The default CHARS flag marks every post not tagged `solo`, posts
      tagged `duo` or `group` included. */
  lemma CharsFlagIgnoresLaterEntries(post: set<string>)
    ensures Matches(CHARS_FLAG, post) <==> "solo" !in post
  {
    LeadingNegationDecides(CHARS_FLAG, "solo", "-duo -group -zero_pictured", post);
  }

  /** The default TAGS flag checks for a tag literally named `tagcount:<5`. */
  lemma TagsFlagIsLiteral(post: set<string>)
    ensures Matches(TAGS_FLAG, post) <==> "tagcount:<5" in post
  {
    var tags := TAGS_FLAG.tags;
    SplitWithout(tags, ' ');
    assert Filter(TAGS_FLAG) == [tags];
    assert !StartsWith(tags, "-") && !StartsWith(tags, "~");
  }
}
