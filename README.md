# re621 SmartAlias and CustomFlagger, modelled in Dafny

This project models the logic of two re621 userscript modules, which run on the e621 image board. The page markup they build and the site API they call are left out.

- **SmartAlias** watches the tag text box of the upload and edit forms. Its tag pipeline does the following:
  - It normalises the text and splits it into tags: lower case, newlines become spaces, whitespace runs collapse, empty tokens are dropped. (`TagInput`, with the JavaScript string built-ins it relies on in `Strings`.)
  - It parses the user's alias file, one `lookup words -> output` definition per line. Lines are read from the last to the first, so a lookup word belongs to the last line that lists it. (`AliasFile`)
  - It expands the aliases in a bounded fixed-point loop. Every pass applies every definition. A lookup entry may contain `*`, which matches a run of non-white-space characters; `$1` to `$9` in the output stand for the first to the ninth `*`, read in one left-to-right pass, provided no capture holds a `$` and the output has no `$$`. Output parts already present among the tags are not added again. The loop stops after a pass with no replacement, or after ITERATIONS_LIMIT = 10 passes. (`AliasExpansion`)
  - It looks up the site's tag aliases and tag data and classifies tags as invalid or ambiguous. Known aliases may be replaced in the text. Tag data comes from a local cache or from the API, and large tags are written back to the cache. (`TagLookup`, a `Session` class whose fields are the `tagData`, `tagAliases` and tag-cache maps.)
  - It decides the badge shown beside each tag. This is a strict priority chain: loading, avoid posting, duplicate, invalid, ambiguous, empty, low count, success. The module also parses the tag-order setting. (`Badges`)
- **CustomFlagger** marks posts that match user-defined flags. A flag's filter is its tag string split on spaces. As written, the first entry of the filter alone decides whether a flag matches. The active flags are selected in the order of the flag list, both on the post page and on search thumbnails. (`CustomFlagger`)

The API responses become input sequences of records. A post is the set of its tags. The DNP ("avoid posting") list and the persisted tag cache are a `set` and a `map`.

## Model

All paths are relative to the repository root.

| member | source | states |
|---|---|---|
| TagInput.ReplaceNewlines | src/js/modules/misc/SmartAlias.ts:190 | the result holds no `\r` or `\n`, is empty exactly when the input is empty, and is no longer than the input |
| TagInput.ReplaceNewlinesKeepsText | src/js/modules/misc/SmartAlias.ts:190 | turning line breaks into spaces changes only white space: the text without its white space is unchanged |
| TagInput.ReplaceNewlinesAsSpaces | src/js/modules/misc/SmartAlias.ts:190 | without `\r`, the result has the input's length and is the input with every `\n` replaced by a space, character by character |
| TagInput.ReplaceNewlinesEdges | src/js/modules/misc/SmartAlias.ts:189-190 | turning the newlines of a trimmed string into spaces leaves no white space at either end |
| TagInput.InputString | src/js/modules/misc/SmartAlias.ts:187-192 | the normalised text has no white space at either end, no two adjacent white-space characters, no line break and no upper-case letter, and is no longer than the raw text; its characters other than white space are those of the raw text, lower-cased, in order; its words (maximal runs without white space) are the raw text's words, lower-cased, in order, so no run of white space disappears and none appears inside a word; when every white-space character with no white-space neighbour is a space or a line break, all white space left is spaces, so every longer run, tabs included, has become a space; a raw text that is already normal is returned unchanged |
| Strings.TrimKeepsText | src/js/modules/misc/SmartAlias.ts:188 | trimming removes only white space: the text without its white space is unchanged |
| Strings.TrimKeepsWords | src/js/modules/misc/SmartAlias.ts:188 | trimming keeps the words of the text and every boundary between them |
| Strings.WordsLower | src/js/modules/misc/SmartAlias.ts:189 | lower-casing keeps every boundary between words and lower-cases each word |
| TagInput.ReplaceNewlinesKeepsWords | src/js/modules/misc/SmartAlias.ts:190 | turning line breaks into spaces keeps the words and their boundaries |
| Strings.CollapseKeepsWords | src/js/modules/misc/SmartAlias.ts:191 | collapsing a white-space run to one space keeps the words and their boundaries: a run is never removed, only shortened |
| Strings.CollapseAppend | src/js/modules/misc/SmartAlias.ts:191 | the collapse works separately on the two sides of a boundary that is not inside a white-space run |
| Strings.CollapseRunToSpace | src/js/modules/misc/SmartAlias.ts:191 | a whole run of two or more white-space characters, of any kind, becomes one space, and the text on either side is collapsed on its own |
| Strings.CollapseKeepsLone | src/js/modules/misc/SmartAlias.ts:191 | a white-space character with no white-space neighbour is not matched and stays as it is |
| Strings.TabRunToSpace | src/js/modules/misc/SmartAlias.ts:191 | `a`, two tabs, `b` collapses to `a b` |
| Strings.CollapseToSpaces | src/js/modules/misc/SmartAlias.ts:191 | when no white-space character other than a space stands alone, only spaces are left as white space |
| Strings.TrimKeepsLone | src/js/modules/misc/SmartAlias.ts:188 | trimming makes no white-space character stand alone that did not already |
| Strings.LowerKeepsLone | src/js/modules/misc/SmartAlias.ts:189 | lower-casing changes no white-space character |
| TagInput.ReplaceNewlinesLone | src/js/modules/misc/SmartAlias.ts:190 | when every lone white-space character is a space or a line break, every lone one afterwards is a space |
| Strings.CollapseKeepsText | src/js/modules/misc/SmartAlias.ts:191 | collapsing white-space runs removes only white space |
| Strings.CollapseLeavesNormalText | src/js/modules/misc/SmartAlias.ts:191 | a text with no run of two white-space characters is left unchanged |
| Strings.CollapseNormalises | src/js/modules/misc/SmartAlias.ts:191 | collapsing white-space runs in a trimmed string leaves it trimmed and without any run of two white-space characters |
| Strings.JoinSplit | src/js/modules/misc/SmartAlias.ts:202 | joining the pieces of a split with the same separator gives the original string back |
| TagInput.NonEmpty | src/js/modules/misc/SmartAlias.ts:203 | keeps exactly the non-empty pieces, and changes nothing when no piece is empty |
| TagInput.NonEmptyAppend | src/js/modules/misc/SmartAlias.ts:203 | the filter distributes over concatenation and keeps a single piece exactly when it is non-empty, so the kept pieces stay in order and with their multiplicity |
| TagInput.InputTags | src/js/modules/misc/SmartAlias.ts:198-204 | no tag is empty and no tag contains a space |
| TagInput.SplitHasNoEmptyPiece | src/js/modules/misc/SmartAlias.ts:202-203 | a non-empty text with no leading, trailing or doubled space splits into non-empty pieces only |
| TagInput.TagsRoundTrip | src/js/modules/misc/SmartAlias.ts:187-204 | joining the tags with single spaces rebuilds the normalised text, so the filter drops nothing |
| TagInput.InputTagsAreWords | src/js/modules/misc/SmartAlias.ts:201-203 | on a text whose white space is spaces alone, the tags are exactly its words, in order |
| TagInput.TagsAreRawWords | src/js/modules/misc/SmartAlias.ts:187-204 | when every white-space character of the raw text with no white-space neighbour is a space or a line break, the tags are exactly the raw text's words, lower-cased, in order |
| AliasFile.Dedup | src/js/modules/misc/SmartAlias.ts:662 | `new Set(xs)`: the result has no repeated element and has the same elements as the input |
| AliasFile.DedupFirstOrder | src/js/modules/misc/SmartAlias.ts:662 | the Set keeps its elements in the order of their first occurrence in the input |
| AliasFile.FormatLookup | src/js/modules/misc/SmartAlias.ts:661-667 | the lookup words are distinct, each non-empty and without a space, and are exactly the non-empty space-separated pieces of the input, in the order of their first occurrence |
| AliasFile.OrderIgnoresEmpty | src/js/modules/misc/SmartAlias.ts:662-665 | an order by first occurrence among the non-empty pieces is an order by first occurrence among all pieces |
| AliasFile.FormatOutput | src/js/modules/misc/SmartAlias.ts:669-673 | the output has no white space at either end and no white-space run of length two or more; only white space is removed, and the words and their boundaries are kept; when no white-space character other than a space stands alone, all white space left is spaces, so every longer run has become a space; an output that is already normal is returned unchanged |
| AliasFile.ParseLineText | src/js/modules/misc/SmartAlias.ts:633-643 | a line yields a definition exactly when its comment-stripped, trimmed text splits into two parts on `->` |
| AliasFile.Claim | src/js/modules/misc/SmartAlias.ts:648-652 | a line keeps exactly its tokens that no later line claimed, each once, and all its tokens become claimed |
| AliasFile.ClaimFirstOrder | src/js/modules/misc/SmartAlias.ts:648-652 | the tokens a line keeps are in the order of their first occurrence on the line |
| AliasFile.ClaimTokens | src/js/modules/misc/SmartAlias.ts:648-652 | the inner loop computes exactly Claim |
| AliasFile.ParseFromInvariant | src/js/modules/misc/SmartAlias.ts:626-659 | reading the lines last to first gives definitions whose lookups are pairwise disjoint and non-empty, with normalised outputs; every listed token ends up in the definition of the last line listing it; the claimed set is exactly the listed tokens |
| AliasFile.GetAliasData | src/js/modules/misc/SmartAlias.ts:626-659 | the loop over the reversed lines returns the parse over the file's lines, which has disjoint lookups, is well formed, gives a token to its last line and holds only listed tokens |
| AliasFile.OtherLinesIgnored | src/js/modules/misc/SmartAlias.ts:638 | dropping the lines that are not definitions does not change the result |
| AliasExpansion.Glob | src/js/modules/misc/SmartAlias.ts:521-529 | when a lookup entry matches a tag, the tag is the entry with each `*` replaced by its capture, a run without white space, up to ASCII case |
| AliasExpansion.GlobComplete | src/js/modules/misc/SmartAlias.ts:528 | conversely, every such instance of the entry is matched, despite greedy captures |
| AliasExpansion.LiteralMatchesItself | src/js/modules/misc/SmartAlias.ts:527 | an entry without `*` matches itself, with no capture |
| AliasExpansion.InstanceCaptureCount | src/js/modules/misc/SmartAlias.ts:528 | an instance of an entry has one capture per `*` of the entry |
| AliasExpansion.MatchLookup | src/js/modules/misc/SmartAlias.ts:529 | an empty lookup matches nothing, the first entry of the alternation is tried before the others, and a match has one capture group per `*` of the whole alternation |
| AliasExpansion.MatchLookupCaptures | src/js/modules/misc/SmartAlias.ts:528-529 | when entry i is the first to match, its captures sit at the offset of the stars of the entries before it, and every other group is `undefined` |
| AliasExpansion.MatchLookupFindsEntry | src/js/modules/misc/SmartAlias.ts:529 | the alternation matches a tag exactly when one of its entries does |
| AliasExpansion.MatchesExactlyInstances | src/js/modules/misc/SmartAlias.ts:521-529 | the alternation matches a tag exactly when the tag is an instance of one of its entries |
| AliasExpansion.SubstituteSingleDigit | src/js/modules/misc/SmartAlias.ts:321-323 | a single `$k` with k from 1 to 9 in an output is replaced by the k-th capture, whatever follows it |
| AliasExpansion.SubstituteRound | src/js/modules/misc/SmartAlias.ts:321-322 | round k of the wildcard loop, for k from 1 to 9, turns the left-to-right reading with k - 1 captures into the reading with k, when no capture holds `$` and the output has no `$$` |
| AliasExpansion.SubstituteRounds | src/js/modules/misc/SmartAlias.ts:321-322 | after n rounds the output is the left-to-right reading of `$1` to `$9` with the first n captures, under the same conditions; rounds for `$10` and beyond change nothing, so `$10` reads as the first capture followed by `0` |
| AliasExpansion.SubstituteReadsRefs | src/js/modules/misc/SmartAlias.ts:318-322 | the whole wildcard loop reads every `$1` to `$9` of the output as the matching capture, however many references the output holds |
| AliasExpansion.TwoReferences | src/js/modules/misc/SmartAlias.ts:318-322 | `$1_$2` after a two-star lookup becomes the first capture, `_` and the second capture |
| AliasExpansion.SubstituteWithoutDollar | src/js/modules/misc/SmartAlias.ts:321-323 | an output without `$` is left as it is by the wildcard substitution |
| AliasExpansion.NewPartsSpec | src/js/modules/misc/SmartAlias.ts:325-330 | the kept parts are distinct, and are exactly the output parts that match no current tag |
| AliasExpansion.NewPartsFirstOrder | src/js/modules/misc/SmartAlias.ts:325-333 | the kept parts are in the order of their first occurrence in the output |
| AliasExpansion.ReplaceMatch | src/js/modules/misc/SmartAlias.ts:318-333 | the replace callback, with its two loops, yields the substituted output parts that are not already present |
| AliasExpansion.ApplyDefinition | src/js/modules/misc/SmartAlias.ts:313-335 | the number of replacements is at most the number of tags, and zero replacements leave the tags unchanged |
| AliasExpansion.ChangesIffSomeMatch | src/js/modules/misc/SmartAlias.ts:313-316 | a definition makes no change exactly when its lookup matches none of the tags |
| AliasExpansion.ApplyDefinitionLoop | src/js/modules/misc/SmartAlias.ts:313-335 | the loop over the tags computes exactly ApplyDefinition, the callback seeing the text from before the call |
| AliasExpansion.Pass | src/js/modules/misc/SmartAlias.ts:310-337 | a pass that counts no change returns the tags unchanged |
| AliasExpansion.RunPass | src/js/modules/misc/SmartAlias.ts:310-337 | the loop over the definitions of one pass computes exactly Pass |
| AliasExpansion.PassOfIsQuietIdentity | src/js/modules/misc/SmartAlias.ts:310-337 | for every input, a quiet pass is the identity |
| AliasExpansion.Expand | src/js/modules/misc/SmartAlias.ts:307-339 | the do/while runs at least one more pass and never more than ITERATIONS_LIMIT in all |
| AliasExpansion.ExpansionStops | src/js/modules/misc/SmartAlias.ts:305-339 | the loop stops after between 1 and 10 passes and its result is that many passes applied to the input; every pass but the last made a change; when it stops early, the last pass made no change (the loop's exit test) and one more pass would change nothing |
| AliasExpansion.ExpandAliases | src/js/modules/misc/SmartAlias.ts:302-341 | with no definitions the text is untouched; otherwise the result is the bounded expansion, after at most 10 passes |
| AliasExpansion.RepeatedTagIsDropped | src/js/modules/misc/SmartAlias.ts:325-330 | an output part equal to a literal tag already in the text is never inserted, not even the matched tag itself |
| AliasExpansion.ReplacementOnlyAddsNewParts | src/js/modules/misc/SmartAlias.ts:325-333 | a replacement inserts only parts not already present; when every part is present it inserts nothing |
| TagLookup.Session.constructor | src/js/modules/misc/SmartAlias.ts:28-32 | a session starts with no tag data and no aliases |
| TagLookup.Session.CollectLookup | src/js/modules/misc/SmartAlias.ts:350-356 | the lookup set is exactly the tags whose data is not known yet |
| TagLookup.ScanClassifies | src/js/modules/misc/SmartAlias.ts:369-386 | a tag is invalid exactly when an active alias record takes it to `invalid_tag` or `invalid_color`, and ambiguous exactly when an active record (not an invalid one) takes it to a disambiguation page |
| TagLookup.ScanAliasKeys | src/js/modules/misc/SmartAlias.ts:388-394 | a tag gets an alias exactly when some active, proper alias record names it; all other alias entries are kept |
| TagLookup.ScanAliasLast | src/js/modules/misc/SmartAlias.ts:394 | the alias kept for a tag is the one of the last record naming it |
| TagLookup.ScanLookup | src/js/modules/misc/SmartAlias.ts:388-391 | a tag enters the lookup only as an unknown consequent, and a tag leaves it only by being aliased |
| TagLookup.ScanLookupLast | src/js/modules/misc/SmartAlias.ts:388-391 | an aliased tag leaves the lookup and an unknown consequent enters it, unless a later record undoes that |
| TagLookup.Session.ResolveAliases | src/js/modules/misc/SmartAlias.ts:362-397 | step 3 updates the lookup and the alias map and collects the invalid and ambiguous tags exactly as the scan over the records, and changes nothing else |
| TagLookup.ReplaceKnownAliases | src/js/modules/misc/SmartAlias.ts:402-414 | the step-4 loop replaces the alias pairs one after the other in the given order. When the pairs are all the entries of the alias map, the tags and the map are lower case and no consequent is itself an antecedent (ChainFree), ReplaceAliasedResolves shows this to be mapping every tag through the alias map |
| TagLookup.ReplaceAliasedAt | src/js/modules/misc/SmartAlias.ts:405-411 | for a chain-free, lower-case alias map, a tag named by some pair becomes its consequent and any other tag is kept, whatever the order of the pairs |
| TagLookup.ReplaceAliasedResolves | src/js/modules/misc/SmartAlias.ts:400-414 | replacing every entry of a chain-free alias map maps each tag through the map at once, and leaves no antecedent among the tags |
| TagLookup.CachedData | src/js/modules/misc/SmartAlias.ts:429-438 | cached data is marked cached, valid and unambiguous, with the cached count and category, and is DNP exactly when the tag is on the avoid-posting list |
| TagLookup.Session.LoadCached | src/js/modules/misc/SmartAlias.ts:422-440 | every lookup tag in the cache gets its cached data and leaves the lookup, and the other data is kept |
| TagLookup.RecordData | src/js/modules/misc/SmartAlias.ts:450-459 | a fetched record is not cached, carries its post count and category, is DNP exactly when its name is on the avoid-posting list, and is invalid or ambiguous exactly when step 3 classified it so |
| TagLookup.MissingData | src/js/modules/misc/SmartAlias.ts:464-475 | a tag the API did not return is invalid, not ambiguous and not cached, with count and category -1, and DNP exactly when it is on the avoid-posting list |
| TagLookup.RecordAllLast | src/js/modules/misc/SmartAlias.ts:448-461 | a tag named by a record gets the data of the last record naming it; other tags keep their data |
| TagLookup.FetchedSpec | src/js/modules/misc/SmartAlias.ts:443-477 | after step 5 every lookup tag has data: the last record for it, or the missing-tag data when no record names it; tags outside the lookup and the records keep their data |
| TagLookup.Session.FetchTags | src/js/modules/misc/SmartAlias.ts:443-477 | step 5 sets the tag data to the fetched data and changes nothing else |
| TagLookup.CacheAfter | src/js/modules/misc/SmartAlias.ts:480-489 | cached entries are kept; a new entry is written only for a tag whose count reaches the minimum, and when the minimum is positive every such tag is written |
| TagLookup.Session.StoreInCache | src/js/modules/misc/SmartAlias.ts:480-489 | step 5.5 updates the cache to CacheAfter and changes nothing else |
| TagLookup.Session.LookUp | src/js/modules/misc/SmartAlias.ts:350-489 | the new alias map and the invalid and ambiguous sets are those of the scan of the alias records over the unknown tags; the new data is the old data, plus the cached data of the lookup tags the cache holds, then the fetched records and missing-tag data for the rest; the new cache is CacheAfter of the old cache and the new data. So every tag has data or an alias, and the invalid and ambiguous sets are exactly the tags the alias records classify so |
| Badges.Occurrences | src/js/modules/misc/SmartAlias.ts:575 | the number of occurrences is the tag's multiplicity in the multiset of the tags: at most the number of tags, and zero exactly when the tag is absent |
| Badges.TagBadge | src/js/modules/misc/SmartAlias.ts:547-601 | a tag gets no line exactly when it has no data and is not loading. Otherwise each badge is given exactly when the tests before it in the chain fail and its own succeeds: loading exactly when the name is loading; avoid posting exactly when it has DNP data; duplicate when repeated; invalid; ambiguous when ambiguous or the name ends in `_(disambiguation)`; empty when the count is zero; low count below the warning minimum, with the count; success otherwise, with the count and the cached flag |
| Badges.BadgeStyle | src/js/modules/misc/SmartAlias.ts:567-601 | the error icon goes with avoid posting, invalid, empty and low count; the success colour with loading and success |
| Badges.Redraw | src/js/modules/misc/SmartAlias.ts:538-616 | the redraw loop produces the lines Drawn describes |
| Badges.DrawnLines | src/js/modules/misc/SmartAlias.ts:547-560 | at most one line per tag; every line carries its tag's badge; every tag with a badge is drawn |
| Badges.FindOrder | src/js/modules/misc/SmartAlias.ts:718-722 | the result is one of the listed values, or Default when none has the given text |
| Badges.FromStringRoundTrip | src/js/modules/misc/SmartAlias.ts:710-722 | parsing the text of a tag order gives that order back |
| Badges.FromStringDefault | src/js/modules/misc/SmartAlias.ts:718-722 | unknown text parses as Default |
| CustomFlagger.TagsMatchFilter | src/js/modules/search/CustomFlagger.ts:67-80 | an empty filter matches. A first entry `-x` matches exactly the posts without `x`; `~x` exactly the posts with `x`; any other entry `e` exactly the posts with `e` |
| CustomFlagger.OnlyFirstEntryCounts | src/js/modules/search/CustomFlagger.ts:68-77 | entries after the first never change the outcome |
| CustomFlagger.Filter | src/js/modules/search/CustomFlagger.ts:44 | a flag's filter is never empty |
| CustomFlagger.EmptyTagStringFlag | src/js/modules/search/CustomFlagger.ts:67-80 | a flag with an empty tag string matches only a post that has the empty tag |
| CustomFlagger.MatchingFlagsSpec | src/js/modules/search/CustomFlagger.ts:43-46 | each matching flag is selected as often as it occurs in the list, and no other flag is selected |
| CustomFlagger.MatchingFlagsAppend | src/js/modules/search/CustomFlagger.ts:43-46 | selection distributes over concatenation, so the order of the list is kept |
| CustomFlagger.NoneMatching | src/js/modules/search/CustomFlagger.ts:49 | nothing is selected exactly when no flag matches |
| CustomFlagger.ActiveFlags | src/js/modules/search/CustomFlagger.ts:43-46 | the loop selects exactly the matching flags, in order |
| CustomFlagger.CreatePostPage | src/js/modules/search/CustomFlagger.ts:37-65 | the panel lists the matching flags, and is shown exactly when some flag matches |
| CustomFlagger.ModifyThumbnail | src/js/modules/search/CustomFlagger.ts:82-116 | the matching flags are appended to the thumbnail; nothing is appended exactly when no flag matches |
| CustomFlagger.LeadingNegationDecides | src/js/modules/search/CustomFlagger.ts:67-80 | a flag whose tag string starts with `-x ` matches exactly the posts without `x`, whatever follows |
| CustomFlagger.CharsFlagIgnoresLaterEntries | src/js/modules/search/CustomFlagger.ts:15 | the default CHARS flag matches every post without `solo`, including posts tagged `duo` or `group` |
| CustomFlagger.TagsFlagIsLiteral | src/js/modules/search/CustomFlagger.ts:16 | the default TAGS flag matches only a post with a tag literally named `tagcount:<5` |

## Left out

- DOM and markup: the container, the HTML of each badge line, the display name with underscores replaced, `Util.formatK`, the title text, `setCompactOutput`, `triggerUpdateEvent`, and the `<picture>` wrapping and container creation of modifyThumbnail. None of it decides which tags or flags are shown.
- Timers, input events, the `ready` handshake, autoload and scrolling: event scheduling only.
- The REST calls (`E621.TagAliases.get`, `E621.Tags.get`) and `Util.chunkArray` batching. Their responses are input sequences of records, all batches concatenated.
- The internals of `TagCache` and `AvoidPosting`: they are a `map` and a `set`, and loading and saving the cache is not modelled.
- JavaScript RegExp semantics of `getTagRegex`. The text is modelled as its sequence of tags, so the separator consumed by `( |\n|$)`, the `" "` returned for an empty replacement, and the extra spaces a replacement leaves are not modelled. A replacement is a sequence of tags, and an empty one removes the tag.
- Regex escaping: only `*` is special in a lookup entry. Other regex metacharacters in lookup words and outputs are taken literally.
- `$` patterns that come from a captured value, and `$` in an alias consequent during step 4, are not expanded further.
- Lower-casing is ASCII only; `toLowerCase` on other Unicode letters is not modelled.
- The alias-cache refresh when the alias text changes length (SmartAlias.ts:294-300): the definitions are a parameter of the expansion.
- The sorting of badge lines for a non-default tag order (SmartAlias.ts:543) and the class of the grouped display.
- The `replaceAliasedTags` setting (SmartAlias.ts:402): the step-4 operation is modelled, but not the switch that disables it. The order of the alias pairs (`Object.entries`) is a parameter.
- The `el != null` test in getInputTags (SmartAlias.ts:203): it filters the pieces of a split, which are never null, so only the `el != ""` half is modelled. Reading the text box (`input.val()`) is left out; the model takes the text.
- `Post.hasTag` is set membership on the post's tags.
- TagOrder.fromString walks `Object.values(TagOrder)`, which the model lists as the three enumeration values in declaration order. Because the `TagOrder` namespace (SmartAlias.ts:716-722) merges `fromString` into the same object, `Object.values` also yields that function. It compares unequal to any string the settings hold, unless the string is the function's own source text, so it is left out.
- JavaScript objects as maps: `tagData` and `tagAliases` are plain objects indexed by tag name (SmartAlias.ts:354, 366, 390, 550-553). A tag named after an `Object.prototype` member, such as `constructor` or `__proto__` (the lower-case ones a tag can be), reads as already present. The model uses `map` lookups, where such names are absent until written, so it does not capture that behaviour.
- Step 3's filter of the alias query (SmartAlias.ts:366), which asks the API only about lookup tags with no recorded alias: the alias records are an input sequence, so the filter only chooses what is asked, and it is not modelled separately.
- `$10` and higher in an alias output: the substitution replaces `$1` before `$10`, so `$10` reads as the first capture followed by `0`. SubstituteRounds states this: from the tenth round on nothing changes, so the result is still the single-digit reading, in which `$10` is the first capture followed by `0`.
- Strings.Trim: does not state that the result is a contiguous part of the input. It states that the ends carry no white space and that a trimmed input is returned unchanged; TrimKeepsText adds that only white space is removed.
- Strings.CollapseWhitespace: its own contract states only length and emptiness. The lemmas CollapseNormalises, CollapseKeepsLetters, CollapseKeepsText, CollapseKeepsWords, CollapseAppend, CollapseRunToSpace, CollapseKeepsLone and CollapseLeavesNormalText state what it does: each run of two or more white-space characters becomes one space, and a lone white-space character stays as it is.
- TagInput.ReplaceNewlines: the character-by-character contract (ReplaceNewlinesAsSpaces) holds only for text without `\r`; a `\r\n` pair becomes a single space.
- TagLookup.ScanLookupLast: covers only aliases whose consequent differs from the antecedent.
- CustomFlagger.TagsMatchFilter: a first entry `~x` is handled as the code handles it, as a plain requirement for `x`, and later entries never count. The comments suggest that all entries were meant to be checked; the model follows the code.
- TagInput.TagsAreRawWords: requires every white-space character with no white-space neighbour to be a space or a line break. A tab or other white-space character standing alone is not turned into a space, so the split on `" "` keeps it inside a tag, as the code does.
- TagInput.InputString: for a raw text where a white-space character other than a space or a line break stands alone, its contract says that one white-space character stays at that word boundary, not that it is the same character; CollapseKeepsLone states this for the collapse step alone.
- AliasFile.FormatOutput: likewise, where a white-space character other than a space stands alone, its contract says that one white-space character stays at that word boundary, not which one.
- AliasExpansion.SubstituteReadsRefs: requires that no capture holds a `$` and that the output has no `$$`. The model inserts each capture literally, while `String.prototype.replace` expands `$&`, `$$`, `` $` ``, `$'` and `$n` inside it (see the line on `$` patterns above). Apart from that, a capture holding `$k` for a later k, or a capture starting with a digit after a `$` of the output, would be read again by a later round; the lemma states nothing for such inputs.
