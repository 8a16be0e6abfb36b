/** Steps 2 to 5.5 of SmartAlias.handleTagInput: which tags need looking up,
    what e621's alias records say about them, the replacement of known
    aliases in the text, the tag cache, the tag records, and what goes back
    into the cache.  The two REST responses are inputs (sequences of records
    in the order the batches return them); `TagCache` is a map held by the
    session and `AvoidPosting` a set of names. */
module TagLookup {
  import opened Strings

  /** What the session knows about one tag (the `Tag` interface). */
  datatype TagData = TagData(count: int, category: int, invalid: bool, ambiguous: bool, dnp: bool, cached: bool)

  /** One alias record of the e621 API: status, antecedent and consequent name. */
  datatype AliasRecord = AliasRecord(status: string, antecedent: string, consequent: string)

  /** One tag record of the e621 API. */
  datatype TagRecord = TagRecord(name: string, postCount: int, category: int)

  /** One entry of the tag cache. */
  datatype CacheEntry = CacheEntry(count: int, category: int)

  const DISAMBIGUATION: string := "_(disambiguation)"

  predicate IsActive(r: AliasRecord) {
    r.status == "active"
  }

  /** An active alias to `invalid_tag` or `invalid_color`. */
  predicate MarksInvalid(r: AliasRecord) {
    IsActive(r) && (r.consequent == "invalid_tag" || r.consequent == "invalid_color")
  }

  /** An active alias to a disambiguation page. */
  predicate MarksAmbiguous(r: AliasRecord) {
    IsActive(r) && !MarksInvalid(r) && EndsWith(r.consequent, DISAMBIGUATION)
  }

  /** An active alias that the session records and applies. */
  predicate IsAlias(r: AliasRecord) {
    IsActive(r) && !MarksInvalid(r) && !EndsWith(r.consequent, DISAMBIGUATION)
  }

  /** The state step 3 works on: the lookup set, the alias map and the sets
      of invalid and ambiguous tags. */
  datatype AliasScan = AliasScan(lookup: set<string>, aliases: map<string, string>, invalid: set<string>, ambiguous: set<string>)

  /** One alias record; `known` holds the tags that already have data. */
  function ScanRecord(s: AliasScan, r: AliasRecord, known: set<string>): AliasScan {
    if !IsActive(r) then s
    else if MarksInvalid(r) then s.(invalid := s.invalid + {r.antecedent})
    else if EndsWith(r.consequent, DISAMBIGUATION) then s.(ambiguous := s.ambiguous + {r.antecedent})
    else s.(lookup := s.lookup - {r.antecedent} + (if r.consequent in known then {} else {r.consequent}),
            aliases := s.aliases[r.antecedent := r.consequent])
  }

  /** Step 3 over all records, in order. */
  function Scan(s: AliasScan, records: seq<AliasRecord>, known: set<string>): AliasScan {
    if records == [] then s
    else ScanRecord(Scan(s, records[..|records| - 1], known), records[|records| - 1], known)
  }

  ghost predicate InvalidBy(records: seq<AliasRecord>, x: string) {
    exists i :: 0 <= i < |records| && MarksInvalid(records[i]) && records[i].antecedent == x
  }

  ghost predicate AmbiguousBy(records: seq<AliasRecord>, x: string) {
    exists i :: 0 <= i < |records| && MarksAmbiguous(records[i]) && records[i].antecedent == x
  }

  ghost predicate AliasedBy(records: seq<AliasRecord>, x: string) {
    exists i :: 0 <= i < |records| && IsAlias(records[i]) && records[i].antecedent == x
  }

  ghost predicate TargetOf(records: seq<AliasRecord>, x: string) {
    exists i :: 0 <= i < |records| && IsAlias(records[i]) && records[i].consequent == x
  }

  lemma PrefixIndex(records: seq<AliasRecord>, i: nat)
    requires i < |records| - 1
    ensures records[..|records| - 1][i] == records[i]
  {
  }

  /** A tag is marked invalid exactly when an active record aliases it to
      `invalid_tag` or `invalid_color`, and ambiguous exactly when an active
      record aliases it to a disambiguation page; nothing else is marked. */
  lemma {:induction false} ScanClassifies(s: AliasScan, records: seq<AliasRecord>, known: set<string>, x: string)
    ensures x in Scan(s, records, known).invalid <==> x in s.invalid || InvalidBy(records, x)
    ensures x in Scan(s, records, known).ambiguous <==> x in s.ambiguous || AmbiguousBy(records, x)
  {
    if records != [] {
      var n := |records| - 1;
      var prefix := records[..n];
      ScanClassifies(s, prefix, known, x);
      forall i | 0 <= i < n ensures prefix[i] == records[i] {
        PrefixIndex(records, i);
      }
      if InvalidBy(records, x) && !(x in s.invalid) && !MarksInvalid(records[n]) {
        var i :| 0 <= i < |records| && MarksInvalid(records[i]) && records[i].antecedent == x;
        assert i < n && prefix[i] == records[i];
      }
      if AmbiguousBy(records, x) && !(x in s.ambiguous) && !MarksAmbiguous(records[n]) {
        var i :| 0 <= i < |records| && MarksAmbiguous(records[i]) && records[i].antecedent == x;
        assert i < n && prefix[i] == records[i];
      }
    }
  }

  /** The alias map gains exactly the antecedents of the applied aliases, and
      an antecedent maps to the consequent of its last applied record. */
  lemma {:induction false} ScanAliasKeys(s: AliasScan, records: seq<AliasRecord>, known: set<string>, x: string)
    ensures x in Scan(s, records, known).aliases <==> x in s.aliases || AliasedBy(records, x)
    ensures !AliasedBy(records, x) && x in s.aliases ==> Scan(s, records, known).aliases[x] == s.aliases[x]
  {
    if records != [] {
      var n := |records| - 1;
      var prefix := records[..n];
      ScanAliasKeys(s, prefix, known, x);
      forall i | 0 <= i < n ensures prefix[i] == records[i] {
        PrefixIndex(records, i);
      }
      if AliasedBy(records, x) && !(x in s.aliases) && !(IsAlias(records[n]) && records[n].antecedent == x) {
        var i :| 0 <= i < |records| && IsAlias(records[i]) && records[i].antecedent == x;
        assert i < n && prefix[i] == records[i];
      }
    }
  }

  lemma {:induction false} ScanAliasLast(s: AliasScan, records: seq<AliasRecord>, known: set<string>, i: nat)
    requires i < |records| && IsAlias(records[i])
    requires forall j :: i < j < |records| && IsAlias(records[j]) ==> records[j].antecedent != records[i].antecedent
    ensures records[i].antecedent in Scan(s, records, known).aliases
    ensures Scan(s, records, known).aliases[records[i].antecedent] == records[i].consequent
  {
    var n := |records| - 1;
    if i < n {
      var prefix := records[..n];
      PrefixIndex(records, i);
      forall j | i < j < |prefix| && IsAlias(prefix[j]) ensures prefix[j].antecedent != prefix[i].antecedent {
        PrefixIndex(records, j);
      }
      ScanAliasLast(s, prefix, known, i);
    }
  }

  /** The lookup set after step 3: a tag leaves it only as the antecedent of
      an applied alias, and enters it only as a consequent that has no data
      yet. */
  lemma {:induction false} ScanLookup(s: AliasScan, records: seq<AliasRecord>, known: set<string>, x: string)
    ensures x in Scan(s, records, known).lookup ==> x in s.lookup || (x !in known && TargetOf(records, x))
    ensures x in s.lookup ==> x in Scan(s, records, known).lookup || x in Scan(s, records, known).aliases
  {
    if records != [] {
      var n := |records| - 1;
      var prefix := records[..n];
      ScanLookup(s, prefix, known, x);
      forall i | 0 <= i < n ensures prefix[i] == records[i] {
        PrefixIndex(records, i);
      }
      if x in Scan(s, records, known).lookup && x !in s.lookup && !(IsAlias(records[n]) && records[n].consequent == x) {
        var i :| 0 <= i < |prefix| && IsAlias(prefix[i]) && prefix[i].consequent == x;
        assert records[i] == prefix[i];
      }
      var before := Scan(s, prefix, known);
      if x in before.aliases {
        assert x in Scan(s, records, known).aliases;
      }
    }
  }

  /** The last applied record that names a tag decides whether it is looked
      up: as an antecedent it leaves the set, as a consequent without data
      it joins it. */
  lemma {:induction false} ScanLookupLast(s: AliasScan, records: seq<AliasRecord>, known: set<string>, i: nat)
    requires i < |records| && IsAlias(records[i])
    ensures records[i].consequent != records[i].antecedent
      && (forall j :: i < j < |records| && IsAlias(records[j]) ==> records[j].consequent != records[i].antecedent)
      ==> records[i].antecedent !in Scan(s, records, known).lookup
    ensures records[i].consequent !in known
      && (forall j :: i < j < |records| && IsAlias(records[j]) ==> records[j].antecedent != records[i].consequent)
      ==> records[i].consequent in Scan(s, records, known).lookup
  {
    var n := |records| - 1;
    if i < n {
      var prefix := records[..n];
      PrefixIndex(records, i);
      forall j | i < j < |prefix| ensures prefix[j] == records[j] {
        PrefixIndex(records, j);
      }
      ScanLookupLast(s, prefix, known, i);
    }
  }

  /** Step 4 for one alias pair: every tag equal to the antecedent, up to
      case, becomes the consequent. */
  function ReplaceTag(tags: seq<string>, antecedent: string, consequent: string): (r: seq<string>)
    ensures |r| == |tags|
    ensures forall i :: 0 <= i < |tags| ==>
      r[i] == (if Lower(tags[i]) == Lower(antecedent) then consequent else tags[i])
  {
    seq(|tags|, i requires 0 <= i < |tags| => if Lower(tags[i]) == Lower(antecedent) then consequent else tags[i])
  }

  /** Step 4: the pairs of the alias map, in the order given, each applied to
      the result of the one before. */
  function ReplaceAliased(tags: seq<string>, entries: seq<(string, string)>): (r: seq<string>)
    ensures |r| == |tags|
  {
    if entries == [] then tags
    else
      var last := entries[|entries| - 1];
      ReplaceTag(ReplaceAliased(tags, entries[..|entries| - 1]), last.0, last.1)
  }

  /** Step 4's loop over `Object.entries(tagAliases)`, given as `entries`. */
  method ReplaceKnownAliases(tags: seq<string>, entries: seq<(string, string)>) returns (value: seq<string>)
    ensures value == ReplaceAliased(tags, entries)
  {
    value := tags;
    var k := 0;
    while k < |entries|
      invariant 0 <= k <= |entries|
      invariant value == ReplaceAliased(tags, entries[..k])
    {
      assert entries[..k + 1][..k] == entries[..k];
      var (antecedent, consequent) := entries[k];
      value := ReplaceTag(value, antecedent, consequent);
      k := k + 1;
    }
    assert entries[..k] == entries;
  }

  /** The antecedents the pairs name. */
  function Antecedents(entries: seq<(string, string)>): set<string> {
    if entries == [] then {}
    else Antecedents(entries[..|entries| - 1]) + {entries[|entries| - 1].0}
  }

  lemma {:induction false} AntecedentsSpec(entries: seq<(string, string)>, t: string)
    ensures t in Antecedents(entries) <==> exists k :: 0 <= k < |entries| && entries[k].0 == t
  {
    if entries != [] {
      var n := |entries| - 1;
      var prefix := entries[..n];
      AntecedentsSpec(prefix, t);
      assert forall k :: 0 <= k < n ==> prefix[k] == entries[k];
    }
  }

  /** The pairs are those of the alias map, and the names involved are lower
      case with no alias chain: no consequent is itself an antecedent. */
  predicate ChainFree(tags: seq<string>, entries: seq<(string, string)>, aliases: map<string, string>) {
    && (forall k :: 0 <= k < |entries| ==> entries[k].0 in aliases && aliases[entries[k].0] == entries[k].1)
    && (forall i :: 0 <= i < |tags| ==> NoUpper(tags[i]))
    && (forall a :: a in aliases ==> NoUpper(a) && NoUpper(aliases[a]) && aliases[a] !in aliases)
  }

  /** Under ChainFree, a tag ends up as its consequent when one of the pairs
      names it, and unchanged otherwise, whatever the order of the pairs. */
  lemma {:induction false} ReplaceAliasedAt(tags: seq<string>, entries: seq<(string, string)>, aliases: map<string, string>, i: nat)
    requires ChainFree(tags, entries, aliases)
    requires i < |tags|
    ensures tags[i] in Antecedents(entries) ==> tags[i] in aliases
    ensures ReplaceAliased(tags, entries)[i] == if tags[i] in Antecedents(entries) then aliases[tags[i]] else tags[i]
  {
    if entries != [] {
      var n := |entries| - 1;
      var prefix := entries[..n];
      assert ChainFree(tags, prefix, aliases) by {
        assert forall k :: 0 <= k < n ==> prefix[k] == entries[k];
      }
      ReplaceAliasedAt(tags, prefix, aliases, i);
      var before := ReplaceAliased(tags, prefix);
      var (a, c) := entries[n];
      LowerOfLower(a);
      LowerOfLower(before[i]);
      assert ReplaceAliased(tags, entries) == ReplaceTag(before, a, c);
    }
  }

  /** The map step 4 amounts to, applied to one tag. */
  function Resolved(t: string, aliases: map<string, string>): string {
    if t in aliases then aliases[t] else t
  }

  /** When the pairs are all the entries of a chain-free, lower-case alias
      map, replacing them one after the other is the same as mapping every
      tag through the alias map at once; afterwards no tag is an antecedent. */
  lemma ReplaceAliasedResolves(tags: seq<string>, entries: seq<(string, string)>, aliases: map<string, string>)
    requires ChainFree(tags, entries, aliases)
    requires Antecedents(entries) == aliases.Keys
    ensures |ReplaceAliased(tags, entries)| == |tags|
    ensures forall i :: 0 <= i < |tags| ==> ReplaceAliased(tags, entries)[i] == Resolved(tags[i], aliases)
    ensures forall i :: 0 <= i < |tags| ==> ReplaceAliased(tags, entries)[i] !in aliases
  {
    forall i | 0 <= i < |tags| ensures ReplaceAliased(tags, entries)[i] == Resolved(tags[i], aliases) {
      ReplaceAliasedAt(tags, entries, aliases, i);
    }
  }

  /** Step 4.5 for the tags the cache knows. */
  function CachedData(e: CacheEntry, name: string, avoidPosting: set<string>): (d: TagData)
    ensures d.cached && !d.invalid && !d.ambiguous
    ensures d.count == e.count && d.category == e.category
    ensures d.dnp <==> name in avoidPosting
  {
    TagData(e.count, e.category, false, false, name in avoidPosting, true)
  }

  /** Step 5 for one tag record. */
  function RecordData(r: TagRecord, invalidTags: set<string>, ambiguousTags: set<string>, avoidPosting: set<string>): (d: TagData)
    ensures !d.cached && d.count == r.postCount && d.category == r.category
    ensures d.dnp <==> r.name in avoidPosting
    ensures d.invalid <==> r.name in invalidTags
    ensures d.ambiguous <==> r.name in ambiguousTags
  {
    TagData(r.postCount, r.category, r.name in invalidTags, r.name in ambiguousTags, r.name in avoidPosting, false)
  }

  /** Step 5 for a tag the API did not return. */
  function MissingData(name: string, avoidPosting: set<string>): (d: TagData)
    ensures d.invalid && !d.ambiguous && !d.cached && d.count == -1 && d.category == -1
    ensures d.dnp <==> name in avoidPosting
  {
    TagData(-1, -1, true, false, name in avoidPosting, false)
  }

  /** The tag records written into the data, in order. */
  function RecordAll(data: map<string, TagData>, results: seq<TagRecord>, invalidTags: set<string>,
                     ambiguousTags: set<string>, avoidPosting: set<string>): map<string, TagData>
  {
    if results == [] then data
    else
      var last := results[|results| - 1];
      RecordAll(data, results[..|results| - 1], invalidTags, ambiguousTags, avoidPosting)[last.name := RecordData(last, invalidTags, ambiguousTags, avoidPosting)]
  }

  function Names(results: seq<TagRecord>): set<string> {
    set i | 0 <= i < |results| :: results[i].name
  }

  /** `results[i]` is the last record naming `x`. */
  predicate LastNamed(results: seq<TagRecord>, i: int, x: string) {
    0 <= i < |results| && results[i].name == x && forall j :: i < j < |results| ==> results[j].name != x
  }

  /** A tag gets the data of the last record that names it; the tags no
      record names keep their data. */
  lemma {:induction false} RecordAllLast(data: map<string, TagData>, results: seq<TagRecord>, invalidTags: set<string>,
                                         ambiguousTags: set<string>, avoidPosting: set<string>, x: string)
    ensures x in RecordAll(data, results, invalidTags, ambiguousTags, avoidPosting) <==> x in data || x in Names(results)
    ensures x !in Names(results) && x in data ==> RecordAll(data, results, invalidTags, ambiguousTags, avoidPosting)[x] == data[x]
    ensures forall i :: LastNamed(results, i, x) ==>
      RecordAll(data, results, invalidTags, ambiguousTags, avoidPosting)[x] == RecordData(results[i], invalidTags, ambiguousTags, avoidPosting)
  {
    if results != [] {
      var n := |results| - 1;
      var prefix := results[..n];
      RecordAllLast(data, prefix, invalidTags, ambiguousTags, avoidPosting, x);
      assert forall i :: 0 <= i < n ==> prefix[i] == results[i];
      assert Names(results) == Names(prefix) + {results[n].name} by {
        forall y | y in Names(results) ensures y in Names(prefix) + {results[n].name} {
          var i :| 0 <= i < |results| && results[i].name == y;
          if i < n {
            assert prefix[i].name == y;
          }
        }
        forall y | y in Names(prefix) ensures y in Names(results) {
          var i :| 0 <= i < |prefix| && prefix[i].name == y;
          assert results[i].name == y;
        }
        assert results[n].name in Names(results);
      }
    }
  }

  /** The data after step 5: nothing happens when no tag is left to look
      up; otherwise the records are written and the tags left over are
      marked missing. */
  function Fetched(data: map<string, TagData>, lookup: set<string>, results: seq<TagRecord>, invalidTags: set<string>,
                   ambiguousTags: set<string>, avoidPosting: set<string>): map<string, TagData>
  {
    if lookup == {} then data
    else
      var recorded := RecordAll(data, results, invalidTags, ambiguousTags, avoidPosting);
      recorded + map t | t in lookup - Names(results) :: MissingData(t, avoidPosting)
  }

  /** After step 5 every tag that was to be looked up has data; one that no
      record names is invalid with count -1; a tag named by a record carries
      the data of the last such record; every other tag keeps its data. */
  lemma FetchedSpec(data: map<string, TagData>, lookup: set<string>, results: seq<TagRecord>, invalidTags: set<string>,
                    ambiguousTags: set<string>, avoidPosting: set<string>, x: string)
    ensures x in lookup || x in data ==> x in Fetched(data, lookup, results, invalidTags, ambiguousTags, avoidPosting)
    ensures lookup != {} && x in Names(results) ==> x in Fetched(data, lookup, results, invalidTags, ambiguousTags, avoidPosting)
    ensures x in lookup && x !in Names(results) ==>
      Fetched(data, lookup, results, invalidTags, ambiguousTags, avoidPosting)[x] == MissingData(x, avoidPosting)
    ensures forall i :: lookup != {} && LastNamed(results, i, x) ==>
      Fetched(data, lookup, results, invalidTags, ambiguousTags, avoidPosting)[x] == RecordData(results[i], invalidTags, ambiguousTags, avoidPosting)
    ensures x !in lookup && x !in Names(results) ==>
      (x in Fetched(data, lookup, results, invalidTags, ambiguousTags, avoidPosting) <==> x in data)
    ensures x !in lookup && x !in Names(results) && x in data ==>
      Fetched(data, lookup, results, invalidTags, ambiguousTags, avoidPosting)[x] == data[x]
  {
    RecordAllLast(data, results, invalidTags, ambiguousTags, avoidPosting, x);
  }

  /** Step 5.5: every tag with at least `minCachedTags` posts that the cache
      does not hold yet is added; nothing is overwritten; a non-positive
      minimum turns caching off. */
  function CacheAfter(cache: map<string, CacheEntry>, data: map<string, TagData>, minCachedTags: int): (r: map<string, CacheEntry>)
    ensures forall n :: n in cache ==> n in r && r[n] == cache[n]
    ensures forall n :: n in r && n !in cache ==>
      (n in data && minCachedTags > 0 && data[n].count >= minCachedTags && r[n] == CacheEntry(data[n].count, data[n].category))
    ensures minCachedTags > 0 ==> forall n :: n in data && data[n].count >= minCachedTags ==> n in r
  {
    if minCachedTags <= 0 then cache
    else cache + map n | n in data && n !in cache && data[n].count >= minCachedTags :: CacheEntry(data[n].count, data[n].category)
  }

  /** The tags of `tags` the session has no data for: step 2's lookup set. */
  function Unknown(tags: seq<string>, data: map<string, TagData>): set<string> {
    set t | t in tags && t !in data
  }

  /** The state SmartAlias keeps for the whole session: `tagData`,
      `tagAliases` and the tag cache. */
  class Session {
    var tagData: map<string, TagData>
    var tagAliases: map<string, string>
    var tagCache: map<string, CacheEntry>

    constructor (cache: map<string, CacheEntry>)
      ensures tagData == map[] && tagAliases == map[] && tagCache == cache
    {
      tagData, tagAliases, tagCache := map[], map[], cache;
    }

    /** Step 2: the tags without data, each once. */
    method CollectLookup(tags: seq<string>) returns (lookup: set<string>)
      ensures forall t :: t in lookup <==> t in tags && t !in tagData
    {
      lookup := {};
      var i := 0;
      while i < |tags|
        invariant 0 <= i <= |tags|
        invariant forall t :: t in lookup <==> t in tags[..i] && t !in tagData
      {
        assert tags[..i + 1] == tags[..i] + [tags[i]];
        if tags[i] !in tagData {
          lookup := lookup + {tags[i]};
        }
        i := i + 1;
      }
      assert tags[..i] == tags;
    }

    /** Step 3 over the alias records the API returned. */
    method ResolveAliases(lookup0: set<string>, records: seq<AliasRecord>)
      returns (lookup: set<string>, invalidTags: set<string>, ambiguousTags: set<string>)
      modifies this
      ensures tagData == old(tagData) && tagCache == old(tagCache)
      ensures AliasScan(lookup, tagAliases, invalidTags, ambiguousTags)
        == Scan(AliasScan(lookup0, old(tagAliases), {}, {}), records, old(tagData).Keys)
    {
      lookup, invalidTags, ambiguousTags := lookup0, {}, {};
      ghost var start := AliasScan(lookup0, tagAliases, {}, {});
      var i := 0;
      while i < |records|
        invariant 0 <= i <= |records|
        invariant tagData == old(tagData) && tagCache == old(tagCache)
        invariant start == AliasScan(lookup0, old(tagAliases), {}, {})
        invariant AliasScan(lookup, tagAliases, invalidTags, ambiguousTags) == Scan(start, records[..i], tagData.Keys)
      {
        assert records[..i + 1][..i] == records[..i];
        var result := records[i];
        i := i + 1;
        if result.status != "active" {
          continue;
        }
        var currentName, trueName := result.antecedent, result.consequent;
        if trueName == "invalid_tag" || trueName == "invalid_color" {
          invalidTags := invalidTags + {currentName};
          continue;
        }
        if EndsWith(trueName, DISAMBIGUATION) {
          ambiguousTags := ambiguousTags + {currentName};
          continue;
        }
        lookup := lookup - {currentName};
        if trueName !in tagData {
          lookup := lookup + {trueName};
        }
        tagAliases := tagAliases[currentName := trueName];
      }
      assert records[..i] == records;
    }

    /** Step 4.5: the tags the cache holds get their data from it and leave
        the lookup set. */
    method LoadCached(lookup0: set<string>, avoidPosting: set<string>) returns (lookup: set<string>)
      modifies this
      ensures tagAliases == old(tagAliases) && tagCache == old(tagCache)
      ensures lookup == set t | t in lookup0 && t !in tagCache
      ensures tagData == old(tagData) + map t | t in lookup0 && t in tagCache :: CachedData(tagCache[t], t, avoidPosting)
    {
      lookup := lookup0;
      var pending := lookup0;
      while pending != {}
        invariant pending <= lookup0
        invariant tagAliases == old(tagAliases) && tagCache == old(tagCache)
        invariant forall t :: t in lookup <==> t in lookup0 && (t in pending || t !in tagCache)
        invariant forall t :: t in tagData <==> t in old(tagData) || (t in lookup0 && t !in pending && t in tagCache)
        invariant forall t :: t in tagData ==>
          tagData[t] == if t in lookup0 && t !in pending && t in tagCache then CachedData(tagCache[t], t, avoidPosting) else old(tagData)[t]
        decreases pending
      {
        var tag :| tag in pending;
        pending := pending - {tag};
        if tag in tagCache {
          var data := tagCache[tag];
          tagData := tagData[tag := CachedData(data, tag, avoidPosting)];
          lookup := lookup - {tag};
        }
      }
      assert lookup == set t | t in lookup0 && t !in tagCache;
      assert tagData == old(tagData) + map t | t in lookup0 && t in tagCache :: CachedData(tagCache[t], t, avoidPosting);
    }

    /** Step 5: when some tags are still unknown, the tag records are written
        into the data, and every unknown tag no record names is marked
        invalid with count -1. */
    method FetchTags(lookup0: set<string>, results: seq<TagRecord>, invalidTags: set<string>,
                     ambiguousTags: set<string>, avoidPosting: set<string>)
      modifies this
      ensures tagAliases == old(tagAliases) && tagCache == old(tagCache)
      ensures tagData == Fetched(old(tagData), lookup0, results, invalidTags, ambiguousTags, avoidPosting)
    {
      if lookup0 == {} {
        return;
      }
      var lookup := lookup0;
      var i := 0;
      while i < |results|
        invariant 0 <= i <= |results|
        invariant tagAliases == old(tagAliases) && tagCache == old(tagCache)
        invariant lookup == lookup0 - Names(results[..i])
        invariant tagData == RecordAll(old(tagData), results[..i], invalidTags, ambiguousTags, avoidPosting)
      {
        var prefix := results[..i + 1];
        assert prefix[..i] == results[..i];
        assert Names(prefix) == Names(results[..i]) + {results[i].name} by {
          forall y | y in Names(prefix) ensures y in Names(results[..i]) + {results[i].name} {
            var k :| 0 <= k < |prefix| && prefix[k].name == y;
            if k < i {
              assert results[..i][k].name == y;
            }
          }
          forall y | y in Names(results[..i]) ensures y in Names(prefix) {
            var k :| 0 <= k < i && results[..i][k].name == y;
            assert prefix[k].name == y;
          }
          assert prefix[i].name in Names(prefix);
        }
        var result := results[i];
        tagData := tagData[result.name := RecordData(result, invalidTags, ambiguousTags, avoidPosting)];
        lookup := lookup - {result.name};
        i := i + 1;
      }
      assert results[..i] == results;
      var missing := lookup;
      ghost var recorded := tagData;
      while missing != {}
        invariant missing <= lookup
        invariant tagAliases == old(tagAliases) && tagCache == old(tagCache)
        invariant forall t :: t in tagData <==> t in recorded || t in lookup - missing
        invariant forall t :: t in tagData ==>
          tagData[t] == if t in lookup - missing then MissingData(t, avoidPosting) else recorded[t]
        decreases missing
      {
        var tagName :| tagName in missing;
        missing := missing - {tagName};
        tagData := tagData[tagName := MissingData(tagName, avoidPosting)];
      }
      assert tagData == recorded + map t | t in lookup :: MissingData(t, avoidPosting);
    }

    /** Step 5.5. */
    method StoreInCache(minCachedTags: int)
      modifies this
      ensures tagData == old(tagData) && tagAliases == old(tagAliases)
      ensures tagCache == CacheAfter(old(tagCache), tagData, minCachedTags)
    {
      if minCachedTags > 0 {
        var names := tagData.Keys;
        ghost var before := tagCache;
        while names != {}
          invariant names <= tagData.Keys
          invariant tagData == old(tagData) && tagAliases == old(tagAliases) && before == old(tagCache)
          invariant forall n :: n in tagCache <==>
            n in before || (n in tagData && n !in names && tagData[n].count >= minCachedTags)
          invariant forall n :: n in tagCache ==>
            tagCache[n] == if n in before then before[n] else CacheEntry(tagData[n].count, tagData[n].category)
          decreases names
        {
          var name :| name in names;
          names := names - {name};
          var data := tagData[name];
          if name in tagCache || data.count < minCachedTags {
            continue;
          }
          tagCache := tagCache[name := CacheEntry(data.count, data.category)];
        }
      }
    }

    /** Steps 2, 3, 4.5, 5 and 5.5 in order.  The new alias map and the two
        classifications are those of the scan of the alias records; the data
        is the old data, then the cached tags, then the fetched records and
        the missing tags; the cache then takes in the popular tags.
        Afterwards every tag of the input either has data or is the
        antecedent of a known alias. */
    method LookUp(tags: seq<string>, aliasRecords: seq<AliasRecord>, tagRecords: seq<TagRecord>,
                  avoidPosting: set<string>, minCachedTags: int)
      returns (invalidTags: set<string>, ambiguousTags: set<string>)
      modifies this
      ensures var scan := Scan(AliasScan(Unknown(tags, old(tagData)), old(tagAliases), {}, {}), aliasRecords, old(tagData).Keys);
        var withCached := old(tagData) + map t | t in scan.lookup && t in old(tagCache) :: CachedData(old(tagCache)[t], t, avoidPosting);
        var toFetch := set t | t in scan.lookup && t !in old(tagCache);
        && tagAliases == scan.aliases
        && invalidTags == scan.invalid && ambiguousTags == scan.ambiguous
        && tagData == Fetched(withCached, toFetch, tagRecords, invalidTags, ambiguousTags, avoidPosting)
        && tagCache == CacheAfter(old(tagCache), tagData, minCachedTags)
      ensures forall t :: t in tags ==> t in tagData || t in tagAliases
      ensures forall t :: t in invalidTags <==> InvalidBy(aliasRecords, t)
      ensures forall t :: t in ambiguousTags <==> AmbiguousBy(aliasRecords, t)
    {
      var lookup := CollectLookup(tags);
      assert lookup == Unknown(tags, old(tagData));
      ghost var known := tagData.Keys;
      ghost var scanStart := AliasScan(lookup, tagAliases, {}, {});
      lookup, invalidTags, ambiguousTags := ResolveAliases(lookup, aliasRecords);
      forall t ensures (t in invalidTags <==> InvalidBy(aliasRecords, t)) && (t in ambiguousTags <==> AmbiguousBy(aliasRecords, t)) {
        ScanClassifies(scanStart, aliasRecords, known, t);
      }
      forall t | t in tags && t !in known ensures t in lookup || t in tagAliases {
        ScanLookup(scanStart, aliasRecords, known, t);
      }
      ghost var afterScan := lookup;
      lookup := LoadCached(lookup, avoidPosting);
      ghost var beforeFetch := tagData;
      forall t | t in afterScan ensures t in lookup || t in beforeFetch {
        if t in tagCache {
          assert t in beforeFetch;
        }
      }
      FetchTags(lookup, tagRecords, invalidTags, ambiguousTags, avoidPosting);
      forall t | t in afterScan || t in beforeFetch ensures t in tagData {
        FetchedSpec(beforeFetch, lookup, tagRecords, invalidTags, ambiguousTags, avoidPosting, t);
      }
      StoreInCache(minCachedTags);
    }
  }
}
