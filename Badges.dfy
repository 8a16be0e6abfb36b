/** The per-tag line of SmartAlias's output container
    (redrawContainerContents) and the tag-order setting. */
module Badges {
  import opened Wrappers
  import opened Strings
  import opened TagLookup

  /** What the line after a tag says, highest priority first. */
  datatype Badge =
    | Loading
    | AvoidPosting
    | Duplicate
    | Invalid
    | Ambiguous
    | Empty
    | LowCount(count: int)
    | Success(count: int, cached: bool)

  /** The name whose data is shown: the consequent of a known alias, or the
      tag itself. */
  function ShownName(tag: string, tagAliases: map<string, string>): string {
    if tag in tagAliases then tagAliases[tag] else tag
  }

  /** How many times `name` occurs in `tags` (`Util.getArrayIndexes(tags, name).length`). */
  function Occurrences(tags: seq<string>, name: string): (n: nat)
    ensures n == multiset(tags)[name]
    ensures n <= |tags|
    ensures n == 0 <==> name !in tags
  {
    if tags == [] then 0
    else
      assert tags == [tags[0]] + tags[1..];
      (if tags[0] == name then 1 else 0) + Occurrences(tags[1..], name)
  }

  /** The shown name is past the first three tests of the chain: it has
      data, is not loading, is not on the avoid-posting list, is not repeated
      and is not invalid. */
  predicate PastInvalid(name: string, tags: seq<string>, tagData: map<string, TagData>, loading: set<string>) {
    name !in loading && name in tagData && !tagData[name].dnp && Occurrences(tags, name) <= 1 && !tagData[name].invalid
  }

  /** ... and is neither ambiguous nor a disambiguation page. */
  predicate PastAmbiguous(name: string, tags: seq<string>, tagData: map<string, TagData>, loading: set<string>) {
    PastInvalid(name, tags, tagData, loading) && !tagData[name].ambiguous && !EndsWith(name, DISAMBIGUATION)
  }

  /** The badge of one tag, or None when the tag is not drawn: it has no data
      and is not being loaded.  Each badge is given exactly when the tests
      before it in the chain fail and its own succeeds. */
  function TagBadge(tag: string, tags: seq<string>, tagData: map<string, TagData>, tagAliases: map<string, string>,
                    loading: set<string>, minPostsWarning: int): (b: Option<Badge>)
    ensures var name := ShownName(tag, tagAliases);
      b.None? <==> name !in tagData && name !in loading
    ensures b == Some(Loading) <==> ShownName(tag, tagAliases) in loading
    ensures var name := ShownName(tag, tagAliases);
      b == Some(AvoidPosting) <==> name !in loading && name in tagData && tagData[name].dnp
    ensures var name := ShownName(tag, tagAliases);
      b == Some(Duplicate) <==> name !in loading && name in tagData && !tagData[name].dnp && Occurrences(tags, name) > 1
    ensures var name := ShownName(tag, tagAliases);
      b == Some(Invalid) <==> (name !in loading && name in tagData && !tagData[name].dnp
        && Occurrences(tags, name) <= 1 && tagData[name].invalid)
    ensures var name := ShownName(tag, tagAliases);
      b == Some(Ambiguous) <==> (PastInvalid(name, tags, tagData, loading)
        && (tagData[name].ambiguous || EndsWith(name, DISAMBIGUATION)))
    ensures var name := ShownName(tag, tagAliases);
      b == Some(Empty) <==> PastAmbiguous(name, tags, tagData, loading) && tagData[name].count == 0
    ensures var name := ShownName(tag, tagAliases);
      (b.Some? && b.value.LowCount?) <==> (PastAmbiguous(name, tags, tagData, loading)
        && tagData[name].count != 0 && tagData[name].count < minPostsWarning)
    ensures var name := ShownName(tag, tagAliases);
      (b.Some? && b.value.Success?) <==> (PastAmbiguous(name, tags, tagData, loading)
        && tagData[name].count != 0 && tagData[name].count >= minPostsWarning)
    ensures b.Some? && (b.value.LowCount? || b.value.Success?) ==> b.value.count == tagData[ShownName(tag, tagAliases)].count
    ensures b.Some? && b.value.Success? ==> b.value.cached == tagData[ShownName(tag, tagAliases)].cached
  {
    var name := ShownName(tag, tagAliases);
    if name !in tagData && name !in loading then None
    else if name in loading then Some(Loading)
    else
      var data := tagData[name];
      if data.dnp then Some(AvoidPosting)
      else if Occurrences(tags, name) > 1 then Some(Duplicate)
      else if data.invalid then Some(Invalid)
      else if data.ambiguous || EndsWith(name, DISAMBIGUATION) then Some(Ambiguous)
      else if data.count == 0 then Some(Empty)
      else if data.count < minPostsWarning then Some(LowCount(data.count))
      else Some(Success(data.count, data.cached))
  }

  /** The icon and the colour of a badge. */
  datatype Style = Style(symbol: string, color: string)

  function BadgeStyle(b: Badge): (s: Style)
    ensures s.symbol == "error" <==> b.AvoidPosting? || b.Invalid? || b.Empty? || b.LowCount?
    ensures s.color == "success" <==> b.Loading? || b.Success?
  {
    match b
    case Loading => Style("loading", "success")
    case AvoidPosting => Style("error", "error")
    case Duplicate => Style("info", "info")
    case Invalid => Style("error", "error")
    case Ambiguous => Style("info", "warning")
    case Empty => Style("error", "error")
    case LowCount(_) => Style("error", "error")
    case Success(_, _) => Style("success", "success")
  }

  /** The lines of the container, in the order of `tags`. */
  function Drawn(tags: seq<string>, all: seq<string>, tagData: map<string, TagData>, tagAliases: map<string, string>,
                 loading: set<string>, minPostsWarning: int): seq<(string, Badge)>
  {
    if tags == [] then []
    else
      var rest := Drawn(tags[..|tags| - 1], all, tagData, tagAliases, loading, minPostsWarning);
      match TagBadge(tags[|tags| - 1], all, tagData, tagAliases, loading, minPostsWarning)
      case None => rest
      case Some(b) => rest + [(tags[|tags| - 1], b)]
  }

  /** The loop of redrawContainerContents, without the markup. */
  method Redraw(tags: seq<string>, tagData: map<string, TagData>, tagAliases: map<string, string>,
                loading: set<string>, minPostsWarning: int) returns (lines: seq<(string, Badge)>)
    ensures lines == Drawn(tags, tags, tagData, tagAliases, loading, minPostsWarning)
  {
    lines := [];
    var i := 0;
    while i < |tags|
      invariant 0 <= i <= |tags|
      invariant lines == Drawn(tags[..i], tags, tagData, tagAliases, loading, minPostsWarning)
    {
      assert tags[..i + 1][..i] == tags[..i];
      var badge := TagBadge(tags[i], tags, tagData, tagAliases, loading, minPostsWarning);
      if badge.Some? {
        lines := lines + [(tags[i], badge.value)];
      }
      i := i + 1;
    }
    assert tags[..i] == tags;
  }

  /** A line is drawn for a tag exactly when the tag has a badge, each with
      that badge; the container has at most one line per tag. */
  lemma {:induction false} DrawnLines(tags: seq<string>, all: seq<string>, tagData: map<string, TagData>,
                                      tagAliases: map<string, string>, loading: set<string>, minPostsWarning: int)
    ensures |Drawn(tags, all, tagData, tagAliases, loading, minPostsWarning)| <= |tags|
    ensures forall line :: line in Drawn(tags, all, tagData, tagAliases, loading, minPostsWarning) ==>
      line.0 in tags && TagBadge(line.0, all, tagData, tagAliases, loading, minPostsWarning) == Some(line.1)
    ensures forall t :: t in tags && TagBadge(t, all, tagData, tagAliases, loading, minPostsWarning).Some? ==>
      (t, TagBadge(t, all, tagData, tagAliases, loading, minPostsWarning).value) in Drawn(tags, all, tagData, tagAliases, loading, minPostsWarning)
  {
    if tags != [] {
      var prefix := tags[..|tags| - 1];
      DrawnLines(prefix, all, tagData, tagAliases, loading, minPostsWarning);
      assert tags == prefix + [tags[|tags| - 1]];
    }
  }

  /** The tag-order setting. */
  datatype TagOrder = Default | Alphabetical | Grouped

  function OrderValue(o: TagOrder): string {
    match o
    case Default => "default"
    case Alphabetical => "alphabetical"
    case Grouped => "grouped"
  }

  /** The values of the enumeration, in declaration order. */
  const ORDERS: seq<TagOrder> := [Default, Alphabetical, Grouped]

  /** The loop of TagOrder.fromString over `values`. */
  function FindOrder(values: seq<TagOrder>, input: string): (o: TagOrder)
    ensures o == Default || o in values
    ensures (forall k :: 0 <= k < |values| ==> OrderValue(values[k]) != input) ==> o == Default
  {
    if values == [] then Default
    else if OrderValue(values[0]) == input then values[0]
    else FindOrder(values[1..], input)
  }

  function FromString(input: string): TagOrder {
    FindOrder(ORDERS, input)
  }

  /** Reading back the value of a setting gives the setting. */
  lemma FromStringRoundTrip(o: TagOrder)
    ensures FromString(OrderValue(o)) == o
  {
    var rest := ORDERS[1..];
    assert rest == [Alphabetical, Grouped] && rest[1..] == [Grouped];
    match o
    case Default =>
    case Alphabetical =>
      assert FromString("alphabetical") == FindOrder(rest, "alphabetical");
    case Grouped =>
      assert FindOrder(rest, "grouped") == FindOrder(rest[1..], "grouped");
  }

  /** Any other text falls back to the default order. */
  lemma FromStringDefault(input: string)
    requires input != "default" && input != "alphabetical" && input != "grouped"
    ensures FromString(input) == Default
  {
  }
}
