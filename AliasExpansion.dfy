/** Step 1 of SmartAlias.handleTagInput: rewriting the tags with the user's
    alias definitions until nothing changes or ITERATIONS_LIMIT passes have
    run.  The text is modelled as its sequence of tags; a lookup entry
    matches a whole tag, `*` standing for any run of non-white-space
    characters (the `(\S*)` getTagRegex puts in its place), letters compared
    without regard to case (the regex's `i` flag). */
module AliasExpansion {
  import opened Wrappers
  import opened Strings
  import opened AliasFile

  /** The maximum number of passes over the definitions. */
  const ITERATIONS_LIMIT: nat := 10

  /** A JavaScript `undefined` capture group, as `String.prototype.replace`
      writes it when it is used as a replacement string. */
  const UNDEFINED: string := "undefined"

  predicate SameLetter(a: char, b: char) {
    LowerChar(a) == LowerChar(b)
  }

  predicate NoWhitespace(s: string) {
    forall i :: 0 <= i < |s| ==> !IsWhitespace(s[i])
  }

  /** The length of the longest prefix of `t` without white space. */
  function NonWhitespaceRun(t: string): (n: nat)
    ensures n <= |t|
    ensures NoWhitespace(t[..n])
    ensures n < |t| ==> IsWhitespace(t[n])
  {
    if t != [] && !IsWhitespace(t[0]) then
      var n := 1 + NonWhitespaceRun(t[1..]);
      assert t[..n] == [t[0]] + t[1..][..n - 1];
      n
    else 0
  }

  function StarCount(p: string): nat {
    if p == [] then 0 else (if p[0] == '*' then 1 else 0) + StarCount(p[1..])
  }

  /** The declarative reading of a lookup entry: `t` is `p` with the i-th
      `*` replaced by `caps[i]` (a run without white space), up to case. */
  predicate IsInstance(p: string, caps: seq<string>, t: string)
    decreases |p|
  {
    if p == [] then caps == [] && t == []
    else if p[0] == '*' then
      && caps != []
      && |caps[0]| <= |t|
      && caps[0] == t[..|caps[0]|]
      && NoWhitespace(caps[0])
      && IsInstance(p[1..], caps[1..], t[|caps[0]|..])
    else t != [] && SameLetter(p[0], t[0]) && IsInstance(p[1..], caps, t[1..])
  }

  /** Matching one lookup entry against a whole tag as the regex engine does:
      each `*` is greedy and gives back characters one at a time until the
      rest of the entry matches.  The result is the list of captured runs. */
  function Glob(p: string, t: string): (r: Option<seq<string>>)
    ensures r.Some? ==> IsInstance(p, r.value, t)
    decreases |p|, |t| + 1
  {
    if p == [] then (if t == [] then Some([]) else None)
    else if p[0] == '*' then TryStar(p[1..], t, NonWhitespaceRun(t))
    else if t != [] && SameLetter(p[0], t[0]) then Glob(p[1..], t[1..])
    else None
  }

  /** The `*` at the head of the entry takes `t[..k]`, or fewer characters. */
  function TryStar(q: string, t: string, k: nat): (r: Option<seq<string>>)
    requires k <= NonWhitespaceRun(t)
    ensures r.Some? ==> IsInstance(['*'] + q, r.value, t)
    decreases |q| + 1, k
  {
    assert (['*'] + q)[1..] == q;
    assert NoWhitespace(t[..k]) by {
      assert forall i :: 0 <= i < k ==> t[..k][i] == t[..NonWhitespaceRun(t)][i];
    }
    match Glob(q, t[k..])
    case Some(caps) =>
      assert ([t[..k]] + caps)[1..] == caps;
      Some([t[..k]] + caps)
    case None => if k == 0 then None else TryStar(q, t, k - 1)
  }

  lemma {:induction false} TryStarComplete(q: string, t: string, k: nat, m: nat)
    requires m <= k <= NonWhitespaceRun(t)
    requires Glob(q, t[m..]).Some?
    ensures TryStar(q, t, k).Some?
    decreases k
  {
    if Glob(q, t[k..]).None? {
      TryStarComplete(q, t, k - 1, m);
    }
  }

  /** No run without white space at the start of `t` is longer than
      NonWhitespaceRun(t). */
  lemma {:induction false} RunIsMaximal(t: string, m: nat)
    requires m <= |t| && NoWhitespace(t[..m])
    ensures m <= NonWhitespaceRun(t)
  {
    if m > 0 {
      assert t[..m][0] == t[0];
      assert t[1..][..m - 1] == t[..m][1..];
      RunIsMaximal(t[1..], m - 1);
    }
  }

  /** Every instance of an entry is found: the backtracking search misses no
      way of filling the stars. */
  lemma {:induction false} GlobComplete(p: string, caps: seq<string>, t: string)
    requires IsInstance(p, caps, t)
    ensures Glob(p, t).Some?
    decreases |p|
  {
    if p != [] {
      if p[0] == '*' {
        var m := |caps[0]|;
        var n := NonWhitespaceRun(t);
        RunIsMaximal(t, m);
        GlobComplete(p[1..], caps[1..], t[m..]);
        TryStarComplete(p[1..], t, n, m);
      } else {
        GlobComplete(p[1..], caps, t[1..]);
      }
    }
  }

  /** An entry without `*` matches exactly the tags equal to it up to case;
      in particular it matches itself. */
  lemma {:induction false} LiteralMatchesItself(p: string)
    requires '*' !in p
    ensures Glob(p, p) == Some([])
  {
    if p != [] {
      assert '*' !in p[1..] by {
        forall i | 0 <= i < |p[1..]| ensures p[1..][i] != '*' {
          assert p[1..][i] == p[i + 1];
        }
      }
      LiteralMatchesItself(p[1..]);
    }
  }

  function StarsIn(lookup: seq<string>): nat {
    if lookup == [] then 0 else StarCount(lookup[0]) + StarsIn(lookup[1..])
  }

  /** An instance fills every `*` of the entry, one capture each. */
  lemma {:induction false} InstanceCaptureCount(p: string, caps: seq<string>, t: string)
    requires IsInstance(p, caps, t)
    ensures |caps| == StarCount(p)
    decreases |p|
  {
    if p != [] {
      if p[0] == '*' {
        InstanceCaptureCount(p[1..], caps[1..], t[|caps[0]|..]);
      } else {
        InstanceCaptureCount(p[1..], caps, t[1..]);
      }
    }
  }

  /** `n` capture groups that took no part in the match. */
  function Undefined(n: nat): (r: seq<string>)
    ensures |r| == n
    ensures forall i :: 0 <= i < n ==> r[i] == UNDEFINED
  {
    seq(n, _ => UNDEFINED)
  }

  /** The alternation `entry1|entry2|...` of getTagRegex on one tag: the first
      entry that matches wins, and the capture list holds one group per `*` of
      every entry, `undefined` for the entries that did not take part. */
  function MatchLookup(lookup: seq<string>, t: string): (r: Option<seq<string>>)
    ensures lookup == [] ==> r.None?
    ensures lookup != [] && Glob(lookup[0], t).Some? ==> r.Some?
    ensures r.Some? ==> |r.value| == StarsIn(lookup)
  {
    if lookup == [] then None
    else match Glob(lookup[0], t)
      case Some(caps) =>
        InstanceCaptureCount(lookup[0], caps, t);
        Some(caps + Undefined(StarsIn(lookup[1..])))
      case None =>
        match MatchLookup(lookup[1..], t)
        case None => None
        case Some(caps) => Some(Undefined(StarCount(lookup[0])) + caps)
  }

  /** The capture list of the alternation: the groups of the first entry that
      matches hold its captures, at the offset of the stars before it; every
      other group is `undefined`. */
  lemma {:induction false} MatchLookupCaptures(lookup: seq<string>, t: string, i: nat)
    requires i < |lookup| && Glob(lookup[i], t).Some?
    requires forall j :: 0 <= j < i ==> Glob(lookup[j], t).None?
    ensures MatchLookup(lookup, t)
      == Some(Undefined(StarsIn(lookup[..i])) + Glob(lookup[i], t).value + Undefined(StarsIn(lookup[i + 1..])))
    decreases i
  {
    if i == 0 {
      assert lookup[..0] == [];
      assert lookup[1..] == lookup[i + 1..];
      assert Undefined(0) + Glob(lookup[0], t).value == Glob(lookup[0], t).value;
    } else {
      var rest := lookup[1..];
      assert rest[i - 1] == lookup[i];
      assert forall j :: 0 <= j < i - 1 ==> rest[j] == lookup[j + 1];
      MatchLookupCaptures(rest, t, i - 1);
      assert rest[i..] == lookup[i + 1..];
      assert lookup[..i][0] == lookup[0] && lookup[..i][1..] == rest[..i - 1];
      var a := StarCount(lookup[0]);
      var b := StarsIn(rest[..i - 1]);
      assert StarsIn(lookup[..i]) == a + b;
      assert Glob(lookup[0], t).None?;
      var g := Glob(lookup[i], t).value;
      var c := Undefined(StarsIn(lookup[i + 1..]));
      assert Undefined(a) + (Undefined(b) + g + c) == (Undefined(a) + Undefined(b)) + g + c;
      assert Undefined(a) + Undefined(b) == Undefined(a + b);
    }
  }

  /** The alternation matches exactly when one of its entries does. */
  lemma {:induction false} MatchLookupFindsEntry(lookup: seq<string>, t: string)
    ensures MatchLookup(lookup, t).Some? <==> exists i :: 0 <= i < |lookup| && Glob(lookup[i], t).Some?
  {
    if lookup != [] {
      MatchLookupFindsEntry(lookup[1..], t);
      assert forall i :: 1 <= i < |lookup| ==> lookup[i] == lookup[1..][i - 1];
    }
  }

  /** A tag matches a definition exactly when it is an instance of one of its
      lookup entries. */
  lemma MatchesExactlyInstances(lookup: seq<string>, t: string)
    ensures MatchLookup(lookup, t).Some? <==>
      exists i, caps :: 0 <= i < |lookup| && IsInstance(lookup[i], caps, t)
  {
    MatchLookupFindsEntry(lookup, t);
    if MatchLookup(lookup, t).Some? {
      var i :| 0 <= i < |lookup| && Glob(lookup[i], t).Some?;
      var g := Glob(lookup[i], t);
      assert IsInstance(lookup[i], g.value, t);
      assert exists j, caps :: 0 <= j < |lookup| && IsInstance(lookup[j], caps, t);
    } else {
      forall i, caps | 0 <= i < |lookup| ensures !IsInstance(lookup[i], caps, t) {
        if IsInstance(lookup[i], caps, t) {
          GlobComplete(lookup[i], caps, t);
        }
      }
    }
  }

  /** The wildcard loop of the replace callback after `n` rounds: every
      `$i`, i = 1..n, replaced by capture i, one after the other. */
  function Substitute(output: string, caps: seq<string>, n: nat): string
    requires n <= |caps|
  {
    if n == 0 then output
    else ReplaceAll(Substitute(output, caps, n - 1), "$" + NatToString(n), caps[n - 1])
  }

  /** Replacing a pattern that does not occur leaves the text as it is. */
  lemma ReplaceAbsent(s: string, pat: string, rep: string)
    requires pat != []
    ensures Contains(s, pat) || ReplaceAll(s, pat, rep) == s
  {
    var i := IndexOf(s, pat);
    if i != -1 {
      assert OccursAt(s, pat, i);
    } else {
      assert Split(s, pat) == [s];
    }
  }

  lemma DollarPatternAbsent(s: string, pat: string)
    requires '$' !in s && pat != [] && pat[0] == '$'
    ensures !Contains(s, pat)
  {
    forall k | 0 <= k <= |s| ensures !OccursAt(s, pat, k) {
      if k + |pat| <= |s| {
        assert s[k..k + |pat|][0] == s[k];
      }
    }
  }

  /** An output without `$` is used as it is, whatever was captured. */
  lemma {:induction false} SubstituteWithoutDollar(output: string, caps: seq<string>, n: nat)
    requires n <= |caps|
    requires '$' !in output
    ensures Substitute(output, caps, n) == output
  {
    if n > 0 {
      SubstituteWithoutDollar(output, caps, n - 1);
      var pat := "$" + NatToString(n);
      DollarPatternAbsent(output, pat);
      ReplaceAbsent(output, pat, caps[n - 1]);
    }
  }

  /** With no other `$` around, the pattern is found exactly once. */
  lemma ReplaceSingle(a: string, pat: string, b: string, rep: string)
    requires pat != [] && pat[0] == '$'
    requires '$' !in a && '$' !in b
    ensures ReplaceAll(a + pat + b, pat, rep) == a + rep + b
  {
    var s := a + pat + b;
    assert s[|a|..|a| + |pat|] == pat;
    assert OccursAt(s, pat, |a|);
    forall k | 0 <= k < |a| ensures !OccursAt(s, pat, k) {
      assert s[k..k + |pat|][0] == s[k] == a[k];
    }
    assert IndexOf(s, pat) == |a|;
    assert s[..|a|] == a && s[|a| + |pat|..] == b;
    DollarPatternAbsent(b, pat);
    ReplaceAbsent(b, pat, rep);
    assert Split(b, pat) == [b];
    assert Split(s, pat) == [a, b];
  }

  /** The rounds before `$k`'s own leave the text alone: a single-digit `$k`
      is not an earlier round's pattern. */
  lemma {:induction false} SubstituteBefore(a: string, b: string, caps: seq<string>, k: nat, m: nat)
    requires 1 <= k <= 9 && m < k <= |caps|
    requires '$' !in a && '$' !in b
    ensures Substitute(a + "$" + NatToString(k) + b, caps, m) == a + "$" + NatToString(k) + b
  {
    if m > 0 {
      SubstituteBefore(a, b, caps, k, m - 1);
      var s := a + "$" + NatToString(k) + b;
      var pat := "$" + NatToString(m);
      assert |pat| == 2 && pat[1] == DigitChar(m);
      assert s[|a|] == '$' && s[|a| + 1] == DigitChar(k);
      forall j | 0 <= j <= |s| ensures !OccursAt(s, pat, j) {
        if j + 2 <= |s| {
          assert s[j..j + 2][0] == s[j] && s[j..j + 2][1] == s[j + 1];
        }
      }
      ReplaceAbsent(s, pat, caps[m - 1]);
    }
  }

  /** `$k`, for a single digit k, stands for the k-th capture, whatever
      follows it: the first round that can match it is round k.  (A two-digit
      `$12` is therefore capture 1 followed by `2`.) */
  lemma {:induction false} SubstituteSingleDigit(a: string, b: string, caps: seq<string>, n: nat, k: nat)
    requires 1 <= k <= 9 && k <= n <= |caps|
    requires '$' !in a && '$' !in b && '$' !in caps[k - 1]
    ensures Substitute(a + "$" + NatToString(k) + b, caps, n) == a + caps[k - 1] + b
    decreases n
  {
    if n == k {
      SubstituteBefore(a, b, caps, k, k - 1);
      assert a + "$" + NatToString(k) + b == a + ("$" + NatToString(k)) + b;
      ReplaceSingle(a, "$" + NatToString(k), b, caps[k - 1]);
    } else {
      SubstituteSingleDigit(a, b, caps, n - 1, k);
      var s := a + caps[k - 1] + b;
      var pat := "$" + NatToString(n);
      assert '$' !in s;
      DollarPatternAbsent(s, pat);
      ReplaceAbsent(s, pat, caps[n - 1]);
    }
  }

  /** A digit `1` to `9` that names one of the first `n` captures. */
  predicate IsRefDigit(c: char, n: nat) {
    '1' <= c <= '9' && c as int - '0' as int <= n
  }

  /** The `$n` references of an output read left to right, as the author of
      an alias file writes them: `$d`, for a digit d from 1 to 9 that names
      a capture, stands for capture d; every other character is itself. */
  function SubstRefs(s: string, caps: seq<string>): string
    decreases |s|
  {
    if s == [] then []
    else if |s| >= 2 && s[0] == '$' && IsRefDigit(s[1], |caps|) then
      caps[s[1] as int - '0' as int - 1] + SubstRefs(s[2..], caps)
    else [s[0]] + SubstRefs(s[1..], caps)
  }

  /** No `$$` in the text. */
  predicate NoDoubleDollar(s: string) {
    forall i :: 0 <= i < |s| - 1 ==> !(s[i] == '$' && s[i + 1] == '$')
  }

  predicate NoDollarIn(caps: seq<string>) {
    forall j :: 0 <= j < |caps| ==> '$' !in caps[j]
  }

  /** No `$` is followed by a digit naming one of the first `n` captures. */
  predicate NoLiveRef(s: string, n: nat) {
    forall i :: 0 <= i < |s| - 1 && s[i] == '$' ==> !IsRefDigit(s[i + 1], n)
  }

  lemma NoLiveRefAppend(a: string, t: string, n: nat)
    requires NoLiveRef(a, n) && NoLiveRef(t, n)
    requires a != [] && a[|a| - 1] == '$' && t != [] ==> !IsRefDigit(t[0], n)
    ensures NoLiveRef(a + t, n)
  {
    var s := a + t;
    forall i | 0 <= i < |s| - 1 && s[i] == '$' ensures !IsRefDigit(s[i + 1], n) {
      if i < |a| - 1 {
        assert s[i] == a[i] && s[i + 1] == a[i + 1];
      } else if i == |a| - 1 {
        assert s[i] == a[i] && s[i + 1] == t[0];
      } else {
        assert s[i] == t[i - |a|] && s[i + 1] == t[i + 1 - |a|];
      }
    }
  }

  /** Without captures nothing is replaced. */
  lemma {:induction false} SubstRefsNone(s: string)
    ensures SubstRefs(s, []) == s
    decreases |s|
  {
    if s != [] {
      SubstRefsNone(s[1..]);
    }
  }

  /** References only go up to `$9`: a tenth capture changes nothing. */
  lemma {:induction false} SubstRefsExtend(s: string, caps: seq<string>, x: string)
    requires |caps| >= 9
    ensures SubstRefs(s, caps + [x]) == SubstRefs(s, caps)
    decreases |s|
  {
    if s != [] {
      if |s| >= 2 && s[0] == '$' && IsRefDigit(s[1], |caps|) {
        SubstRefsExtend(s[2..], caps, x);
      } else {
        SubstRefsExtend(s[1..], caps, x);
      }
    }
  }

  /** After reading, every `$` left is followed by something other than a
      reference digit: the text has no live reference left. */
  lemma {:induction false} SubstRefsNoLiveRef(s: string, caps: seq<string>)
    requires NoDollarIn(caps) && NoDoubleDollar(s)
    ensures NoLiveRef(SubstRefs(s, caps), |caps|)
    decreases |s|
  {
    if s != [] {
      if |s| >= 2 && s[0] == '$' && IsRefDigit(s[1], |caps|) {
        var c := caps[s[1] as int - '0' as int - 1];
        NoDoubleDollarTail(s, 2);
        SubstRefsNoLiveRef(s[2..], caps);
        NoLiveRefAppend(c, SubstRefs(s[2..], caps), |caps|);
      } else {
        NoDoubleDollarTail(s, 1);
        SubstRefsNoLiveRef(s[1..], caps);
        var t := SubstRefs(s[1..], caps);
        if |s| >= 2 {
          assert s[1] != '$' || s[0] != '$';
          if s[1] != '$' {
            assert t[0] == s[1];
          }
        }
        NoLiveRefAppend([s[0]], t, |caps|);
      }
    }
  }

  /** A text that has a `$` only at its first character, if anywhere, can be
      copied up to its end before replacing a `$` pattern. */
  lemma {:induction false} ReplaceLeftCleanPrefix(a: string, t: string, pat: string, rep: string)
    requires pat != [] && pat[0] == '$' && '$' !in a
    ensures ReplaceLeft(a + t, pat, rep) == a + ReplaceLeft(t, pat, rep)
    decreases |a|
  {
    if a == [] {
      assert a + t == t;
    } else {
      var s := a + t;
      assert s[0] == a[0] && s[1..] == a[1..] + t;
      assert !OccursAt(s, pat, 0);
      ReplaceLeftCopy(s, pat, rep);
      ReplaceLeftCleanPrefix(a[1..], t, pat, rep);
    }
  }

  lemma NoDoubleDollarTail(s: string, m: nat)
    requires NoDoubleDollar(s) && m <= |s|
    ensures NoDoubleDollar(s[m..])
  {
    forall i | 0 <= i < |s[m..]| - 1 ensures !(s[m..][i] == '$' && s[m..][i + 1] == '$') {
      assert s[m..][i] == s[i + m] && s[m..][i + 1] == s[i + m + 1];
    }
  }

  /** The round for `$k` on a reference to an earlier capture: the capture
      holds no `$`, so it is copied as it is. */
  lemma RoundOnEarlierRef(s: string, caps: seq<string>, x: string, k: nat)
    requires 1 <= k <= 9 && |caps| == k - 1 && NoDollarIn(caps)
    requires |s| >= 2 && s[0] == '$' && IsRefDigit(s[1], |caps|)
    requires ReplaceLeft(SubstRefs(s[2..], caps), ['$', DigitChar(k)], x) == SubstRefs(s[2..], caps + [x])
    ensures ReplaceLeft(SubstRefs(s, caps), ['$', DigitChar(k)], x) == SubstRefs(s, caps + [x])
  {
    var d := s[1] as int - '0' as int;
    assert (caps + [x])[d - 1] == caps[d - 1];
    ReplaceLeftCleanPrefix(caps[d - 1], SubstRefs(s[2..], caps), ['$', DigitChar(k)], x);
  }

  /** Reading a character that starts no reference copies it. */
  lemma SubstRefsCopy(s: string, caps: seq<string>)
    requires s != [] && !(|s| >= 2 && s[0] == '$' && IsRefDigit(s[1], |caps|))
    ensures SubstRefs(s, caps) == [s[0]] + SubstRefs(s[1..], caps)
  {
  }

  /** Before capture k exists, `$k` is read as two literal characters. */
  lemma SubstRefsPendingRef(s: string, caps: seq<string>, k: nat)
    requires 1 <= k <= 9 && |caps| == k - 1
    requires |s| >= 2 && s[0] == '$' && s[1] == DigitChar(k)
    ensures SubstRefs(s, caps) == ['$', DigitChar(k)] + SubstRefs(s[2..], caps)
  {
    assert !IsRefDigit(s[1], |caps|);
    SubstRefsCopy(s, caps);
    SubstRefsCopy(s[1..], caps);
    assert s[1..][1..] == s[2..];
  }

  /** Once capture k exists, `$k` is read as a reference to it. */
  lemma SubstRefsLiveRef(s: string, caps: seq<string>, x: string, k: nat)
    requires 1 <= k <= 9 && |caps| == k - 1
    requires |s| >= 2 && s[0] == '$' && s[1] == DigitChar(k)
    ensures SubstRefs(s, caps + [x]) == x + SubstRefs(s[2..], caps + [x])
  {
    assert s[1] as int - '0' as int == k;
    assert IsRefDigit(s[1], |caps + [x]|);
    assert (caps + [x])[k - 1] == x;
  }

  /** The round for `$k` on `$k` itself: it is replaced by capture k. */
  lemma RoundOnOwnRef(s: string, caps: seq<string>, x: string, k: nat)
    requires 1 <= k <= 9 && |caps| == k - 1
    requires |s| >= 2 && s[0] == '$' && s[1] == DigitChar(k)
    requires ReplaceLeft(SubstRefs(s[2..], caps), ['$', DigitChar(k)], x) == SubstRefs(s[2..], caps + [x])
    ensures ReplaceLeft(SubstRefs(s, caps), ['$', DigitChar(k)], x) == SubstRefs(s, caps + [x])
  {
    SubstRefsPendingRef(s, caps, k);
    ReplaceLeftHit(['$', DigitChar(k)], SubstRefs(s[2..], caps), x);
    SubstRefsLiveRef(s, caps, x, k);
  }

  /** A `$` that starts no reference, and is not followed by the digit k,
      survives the round for `$k`. */
  lemma LoneDollarKept(s: string, caps: seq<string>, x: string, k: nat)
    requires 1 <= k <= 9 && NoDoubleDollar(s)
    requires s != [] && s[0] == '$'
    requires !(|s| >= 2 && IsRefDigit(s[1], |caps|)) && !(|s| >= 2 && s[1] == DigitChar(k))
    ensures ReplaceLeft(SubstRefs(s, caps), ['$', DigitChar(k)], x)
      == ['$'] + ReplaceLeft(SubstRefs(s[1..], caps), ['$', DigitChar(k)], x)
  {
    var pat := ['$', DigitChar(k)];
    var u := ['$'] + SubstRefs(s[1..], caps);
    SubstRefsCopy(s, caps);
    if |s| >= 2 {
      assert s[1] != '$';
      SubstRefsCopy(s[1..], caps);
      assert u[1] == s[1];
      CharMismatch(u, pat, 1);
    } else {
      assert s[1..] == [];
      assert |u| == 1;
    }
    ReplaceLeftCopy(u, pat, x);
    assert u[1..] == SubstRefs(s[1..], caps);
  }

  /** A `$` followed by anything but the digit k starts no reference once
      capture k is added either. */
  lemma LoneDollarStaysLiteral(s: string, caps: seq<string>, x: string, k: nat)
    requires 1 <= k <= 9 && |caps| == k - 1
    requires s != [] && s[0] == '$'
    requires !(|s| >= 2 && IsRefDigit(s[1], |caps|)) && !(|s| >= 2 && s[1] == DigitChar(k))
    ensures SubstRefs(s, caps + [x]) == ['$'] + SubstRefs(s[1..], caps + [x])
  {
    assert !(|s| >= 2 && IsRefDigit(s[1], |caps + [x]|)) by {
      if |s| >= 2 && '1' <= s[1] <= '9' {
        assert s[1] as int - '0' as int != k;
      }
    }
    SubstRefsCopy(s, caps + [x]);
  }

  /** The round for `$k` on a `$` that starts no reference: kept. */
  lemma RoundOnLoneDollar(s: string, caps: seq<string>, x: string, k: nat)
    requires 1 <= k <= 9 && |caps| == k - 1 && NoDoubleDollar(s)
    requires s != [] && s[0] == '$'
    requires !(|s| >= 2 && IsRefDigit(s[1], |caps|)) && !(|s| >= 2 && s[1] == DigitChar(k))
    requires ReplaceLeft(SubstRefs(s[1..], caps), ['$', DigitChar(k)], x) == SubstRefs(s[1..], caps + [x])
    ensures ReplaceLeft(SubstRefs(s, caps), ['$', DigitChar(k)], x) == SubstRefs(s, caps + [x])
  {
    LoneDollarKept(s, caps, x, k);
    LoneDollarStaysLiteral(s, caps, x, k);
  }

  /** The round for `$k` on any other character: kept. */
  lemma RoundOnOther(s: string, caps: seq<string>, x: string, k: nat)
    requires 1 <= k <= 9 && |caps| == k - 1
    requires s != [] && s[0] != '$'
    requires ReplaceLeft(SubstRefs(s[1..], caps), ['$', DigitChar(k)], x) == SubstRefs(s[1..], caps + [x])
    ensures ReplaceLeft(SubstRefs(s, caps), ['$', DigitChar(k)], x) == SubstRefs(s, caps + [x])
  {
    var pat := ['$', DigitChar(k)];
    var t := SubstRefs(s[1..], caps);
    var u := [s[0]] + t;
    assert SubstRefs(s, caps) == u;
    assert SubstRefs(s, caps + [x]) == [s[0]] + SubstRefs(s[1..], caps + [x]);
    CharMismatch(u, pat, 0);
    ReplaceLeftCopy(u, pat, x);
    assert u[1..] == t;
  }

  /** Round k of the wildcard loop, for a single-digit k, turns the reading
      with the first k - 1 captures into the reading with the first k. */
  lemma {:induction false} SubstituteRound(s: string, caps: seq<string>, x: string, k: nat)
    requires 1 <= k <= 9 && |caps| == k - 1
    requires NoDollarIn(caps) && '$' !in x && NoDoubleDollar(s)
    ensures ReplaceLeft(SubstRefs(s, caps), ['$', DigitChar(k)], x) == SubstRefs(s, caps + [x])
    decreases |s|
  {
    if s != [] {
      NoDoubleDollarTail(s, 1);
      if |s| >= 2 && s[0] == '$' && (IsRefDigit(s[1], |caps|) || s[1] == DigitChar(k)) {
        NoDoubleDollarTail(s, 2);
        SubstituteRound(s[2..], caps, x, k);
        if IsRefDigit(s[1], |caps|) {
          RoundOnEarlierRef(s, caps, x, k);
        } else {
          RoundOnOwnRef(s, caps, x, k);
        }
      } else {
        SubstituteRound(s[1..], caps, x, k);
        if s[0] == '$' {
          RoundOnLoneDollar(s, caps, x, k);
        } else {
          RoundOnOther(s, caps, x, k);
        }
      }
    }
  }

  /** The wildcard loop after n rounds is the left-to-right reading of the
      output with the first n captures, provided no capture holds a `$` and
      the output has no `$$` (otherwise a capture starting with a digit
      could complete a new reference). */
  lemma {:induction false} SubstituteRounds(output: string, caps: seq<string>, n: nat)
    requires n <= |caps|
    requires NoDollarIn(caps) && NoDoubleDollar(output)
    ensures Substitute(output, caps, n) == SubstRefs(output, caps[..n])
  {
    if n == 0 {
      SubstRefsNone(output);
    } else {
      SubstituteRounds(output, caps, n - 1);
      var before := caps[..n - 1];
      assert caps[..n] == before + [caps[n - 1]];
      var s := SubstRefs(output, before);
      var pat := "$" + NatToString(n);
      assert NoDollarIn(before);
      if n <= 9 {
        assert pat == ['$', DigitChar(n)];
        ReplaceAllLeft(s, pat, caps[n - 1]);
        SubstituteRound(output, before, caps[n - 1], n);
      } else {
        NatToStringLead(n);
        SubstRefsNoLiveRef(output, before);
        assert IsRefDigit(pat[1], |before|);
        forall i | 0 <= i <= |s| ensures !OccursAt(s, pat, i) {
          if i + |pat| <= |s| {
            assert s[i..i + |pat|][0] == s[i] && s[i..i + |pat|][1] == s[i + 1];
          }
        }
        ReplaceAbsent(s, pat, caps[n - 1]);
        SubstRefsExtend(output, before, caps[n - 1]);
      }
    }
  }

  /** The whole wildcard loop of the callback reads every `$1` to `$9` of
      the output as the matching capture, in one left-to-right pass, even
      when the output holds several references. */
  lemma SubstituteReadsRefs(output: string, caps: seq<string>)
    requires NoDollarIn(caps) && NoDoubleDollar(output)
    ensures Substitute(output, caps, |caps|) == SubstRefs(output, caps)
  {
    SubstituteRounds(output, caps, |caps|);
    assert caps[..|caps|] == caps;
  }

  /** For instance, `$1_$2` after a two-star lookup. */
  lemma TwoReferences(x: string, y: string)
    requires '$' !in x && '$' !in y
    ensures Substitute("$1_$2", [x, y], 2) == x + "_" + y
  {
    SubstituteReadsRefs("$1_$2", [x, y]);
    var s := "$1_$2";
    assert s[2..] == "_$2" && s[2..][1..] == "$2" && s[2..][1..][2..] == [];
    assert SubstRefs("$2", [x, y]) == y + SubstRefs([], [x, y]);
  }

  /** `getTagRegex(part).test(currentValue)`: some tag is an instance of `part`. */
  predicate Present(part: string, current: seq<string>) {
    exists i :: 0 <= i < |current| && Glob(part, current[i]).Some?
  }

  /** The duplicate filter of the replace callback: the parts not already
      present, each kept once, in order (a JS `Set`). */
  function NewParts(parts: seq<string>, current: seq<string>): (r: seq<string>)
    ensures |r| <= |parts|
  {
    if parts == [] then []
    else
      var prefix := parts[..|parts| - 1];
      var last := parts[|parts| - 1];
      var r := NewParts(prefix, current);
      if Present(last, current) || last in r then r else r + [last]
  }

  /** The filter keeps each part that is not present yet, once, and nothing
      else. */
  lemma {:induction false} NewPartsSpec(parts: seq<string>, current: seq<string>)
    ensures Distinct(NewParts(parts, current))
    ensures forall x :: x in NewParts(parts, current) <==> x in parts && !Present(x, current)
  {
    if parts != [] {
      var prefix := parts[..|parts| - 1];
      NewPartsSpec(prefix, current);
      assert parts == prefix + [parts[|parts| - 1]];
    }
  }

  /** `[...result]` lists the kept parts in the order of their first
      occurrence in the output, as a JS `Set` keeps them. */
  lemma {:induction false} NewPartsFirstOrder(parts: seq<string>, current: seq<string>)
    ensures FirstOccurrenceOrder(NewParts(parts, current), parts)
  {
    if parts != [] {
      var prefix := parts[..|parts| - 1];
      var last := parts[|parts| - 1];
      NewPartsFirstOrder(prefix, current);
      NewPartsSpec(prefix, current);
      assert parts == prefix + [last];
      OrderStep(NewParts(prefix, current), prefix, last, NewParts(parts, current));
    }
  }

  /** What the callback puts in place of one matched tag; `[]` stands for the
      single space it returns when every part is already present. */
  function Replacement(output: string, caps: seq<string>, current: seq<string>): seq<string> {
    NewParts(Split(Substitute(output, caps, |caps|), " "), current)
  }

  /** The replace callback, with its two loops. */
  method ReplaceMatch(output: string, caps: seq<string>, current: seq<string>) returns (result: seq<string>)
    ensures result == Replacement(output, caps, current)
  {
    var text := output;
    var i := 1;
    while i <= |caps|
      invariant 1 <= i <= |caps| + 1
      invariant text == Substitute(output, caps, i - 1)
    {
      text := ReplaceAll(text, "$" + NatToString(i), caps[i - 1]);
      i := i + 1;
    }
    var parts := Split(text, " ");
    result := [];
    var j := 0;
    while j < |parts|
      invariant 0 <= j <= |parts|
      invariant result == NewParts(parts[..j], current)
    {
      assert parts[..j + 1][..j] == parts[..j];
      var part := parts[j];
      if !Present(part, current) && part !in result {
        result := result + [part];
      }
      j := j + 1;
    }
    assert parts[..j] == parts;
  }

  /** `replace(getTagRegex(lookup), callback)` run over the tags `ts`, with
      `current` the text before the call: the new tags and the number of
      matches (each match counts as a change). */
  function ApplyDefinition(def: AliasDefinition, ts: seq<string>, current: seq<string>): (r: (seq<string>, nat))
    ensures r.1 <= |ts|
    ensures r.1 == 0 ==> r.0 == ts
  {
    if ts == [] then ([], 0)
    else
      var prefix := ts[..|ts| - 1];
      var t := ts[|ts| - 1];
      var before := ApplyDefinition(def, prefix, current);
      match MatchLookup(def.lookup, t)
      case None =>
        assert ts == prefix + [t];
        (before.0 + [t], before.1)
      case Some(caps) => (before.0 + Replacement(def.output, caps, current), before.1 + 1)
  }

  /** A definition reports a change exactly when one of the tags matches it. */
  lemma {:induction false} ChangesIffSomeMatch(def: AliasDefinition, ts: seq<string>, current: seq<string>)
    ensures ApplyDefinition(def, ts, current).1 == 0 <==>
      forall i :: 0 <= i < |ts| ==> MatchLookup(def.lookup, ts[i]).None?
  {
    if ts != [] {
      var prefix := ts[..|ts| - 1];
      ChangesIffSomeMatch(def, prefix, current);
      assert forall i :: 0 <= i < |prefix| ==> prefix[i] == ts[i];
    }
  }

  method ApplyDefinitionLoop(def: AliasDefinition, current: seq<string>) returns (value: seq<string>, changes: nat)
    ensures (value, changes) == ApplyDefinition(def, current, current)
  {
    value, changes := [], 0;
    var i := 0;
    while i < |current|
      invariant 0 <= i <= |current|
      invariant (value, changes) == ApplyDefinition(def, current[..i], current)
    {
      assert current[..i + 1][..i] == current[..i];
      var t := current[i];
      var m := MatchLookup(def.lookup, t);
      if m.Some? {
        var parts := ReplaceMatch(def.output, m.value, current);
        value := value + parts;
        changes := changes + 1;
      } else {
        value := value + [t];
      }
      i := i + 1;
    }
    assert current[..i] == current;
  }

  /** One definition applied to the text of the moment: the tags it is
      tested against are those it rewrites. */
  function ApplyOnce(def: AliasDefinition, ts: seq<string>): (seq<string>, nat) {
    ApplyDefinition(def, ts, ts)
  }

  type StepFn = (AliasDefinition, seq<string>) -> (seq<string>, nat)

  /** Every definition applied in order, each to the result of the one
      before; the number of changes added up. */
  function Chain(step: StepFn, defs: seq<AliasDefinition>, ts: seq<string>): (seq<string>, nat) {
    if defs == [] then (ts, 0)
    else
      var before := Chain(step, defs[..|defs| - 1], ts);
      var last := step(defs[|defs| - 1], before.0);
      (last.0, before.1 + last.1)
  }

  lemma ChainStep(step: StepFn, defs: seq<AliasDefinition>, j: nat, start: seq<string>)
    requires j < |defs|
    ensures Chain(step, defs[..j + 1], start) ==
      var before := Chain(step, defs[..j], start);
      var last := step(defs[j], before.0);
      (last.0, before.1 + last.1)
  {
    assert defs[..j + 1][..j] == defs[..j];
  }

  /** When no step that reports no change alters the text, neither does a
      chain of them. */
  lemma {:induction false} ChainQuiet(step: StepFn, defs: seq<AliasDefinition>, ts: seq<string>)
    requires forall d, xs :: step(d, xs).1 == 0 ==> step(d, xs).0 == xs
    ensures Chain(step, defs, ts).1 == 0 ==> Chain(step, defs, ts).0 == ts
  {
    if defs != [] {
      ChainQuiet(step, defs[..|defs| - 1], ts);
    }
  }

  /** One pass of the do/while. */
  function Pass(defs: seq<AliasDefinition>, ts: seq<string>): (r: (seq<string>, nat))
    ensures r.1 == 0 ==> r.0 == ts
  {
    ChainQuiet(ApplyOnce, defs, ts);
    Chain(ApplyOnce, defs, ts)
  }

  /** The body of the do/while: every definition in turn, adding up the
      changes. */
  method RunPass(defs: seq<AliasDefinition>, start: seq<string>) returns (value: seq<string>, changes: nat)
    ensures (value, changes) == Pass(defs, start)
  {
    value, changes := start, 0;
    var j := 0;
    assert defs[..0] == [];
    while j < |defs|
      invariant 0 <= j <= |defs|
      invariant value == Chain(ApplyOnce, defs[..j], start).0
      invariant changes == Chain(ApplyOnce, defs[..j], start).1
    {
      ChainStep(ApplyOnce, defs, j, start);
      var next, n := ApplyDefinitionLoop(defs[j], value);
      value, changes := next, changes + n;
      j := j + 1;
    }
    assert defs[..j] == defs;
  }

  /** A pass seen from outside: the new text and the number of changes. */
  type PassFn = seq<string> -> (seq<string>, nat)

  function PassOf(defs: seq<AliasDefinition>): PassFn {
    ts => Pass(defs, ts)
  }

  /** A pass that reports no change leaves the text alone. */
  ghost predicate QuietIsIdentity(pass: PassFn) {
    forall ts :: pass(ts).1 == 0 ==> pass(ts).0 == ts
  }

  lemma PassOfIsQuietIdentity(defs: seq<AliasDefinition>)
    ensures QuietIsIdentity(PassOf(defs))
  {
    forall ts ensures PassOf(defs)(ts).1 == 0 ==> PassOf(defs)(ts).0 == ts {
      assert PassOf(defs)(ts) == Pass(defs, ts);
    }
  }

  /** The text after `n` passes. */
  function Iterate(pass: PassFn, ts: seq<string>, n: nat): seq<string> {
    if n == 0 then ts else pass(Iterate(pass, ts, n - 1)).0
  }

  /** The number of changes in the pass that follows the first `k`. */
  function PassChanges(pass: PassFn, tags: seq<string>, k: nat): nat {
    pass(Iterate(pass, tags, k)).1
  }

  /** Each of the first `n` passes made at least one change. */
  predicate KeptChanging(pass: PassFn, tags: seq<string>, n: nat) {
    n == 0 || (KeptChanging(pass, tags, n - 1) && PassChanges(pass, tags, n - 1) != 0)
  }

  lemma {:induction false} KeptChangingEach(pass: PassFn, tags: seq<string>, n: nat)
    requires KeptChanging(pass, tags, n)
    ensures forall k :: 0 <= k < n ==> PassChanges(pass, tags, k) != 0
  {
    if n > 0 {
      KeptChangingEach(pass, tags, n - 1);
    }
  }

  /** The do/while of step 1 once `done` passes have run and the text is
      `ts`: one more pass, then another round while that pass changed
      something and fewer than ITERATIONS_LIMIT passes have run.  The result
      is the final text and the number of passes. */
  function Expand(pass: PassFn, ts: seq<string>, done: nat): (r: (seq<string>, nat))
    requires done < ITERATIONS_LIMIT
    ensures done < r.1 <= ITERATIONS_LIMIT
    decreases ITERATIONS_LIMIT - done
  {
    var step := pass(ts);
    if step.1 != 0 && done + 1 < ITERATIONS_LIMIT then Expand(pass, step.0, done + 1)
    else (step.0, done + 1)
  }

  lemma {:induction false} ExpandFrom(pass: PassFn, tags: seq<string>, done: nat)
    requires QuietIsIdentity(pass)
    requires done < ITERATIONS_LIMIT
    requires KeptChanging(pass, tags, done)
    ensures var r := Expand(pass, Iterate(pass, tags, done), done);
      && r.0 == Iterate(pass, tags, r.1)
      && KeptChanging(pass, tags, r.1 - 1)
      && (r.1 < ITERATIONS_LIMIT ==> PassChanges(pass, tags, r.1 - 1) == 0 && pass(r.0) == (r.0, 0))
    decreases ITERATIONS_LIMIT - done
  {
    var ts := Iterate(pass, tags, done);
    var step := pass(ts);
    if step.1 != 0 && done + 1 < ITERATIONS_LIMIT {
      assert KeptChanging(pass, tags, done + 1);
      ExpandFrom(pass, tags, done + 1);
    } else if step.1 == 0 {
      assert step.0 == ts;
    }
  }

  /** The expansion runs between one and ITERATIONS_LIMIT passes, every pass
      but the last changed something, and when it stops before the limit the
      last pass changed nothing (the exit test) and the text is a fixed point:
      another pass would change nothing either. */
  lemma ExpansionStops(pass: PassFn, tags: seq<string>)
    requires QuietIsIdentity(pass)
    ensures var r := Expand(pass, tags, 0);
      && 1 <= r.1 <= ITERATIONS_LIMIT
      && r.0 == Iterate(pass, tags, r.1)
      && (forall k :: 0 <= k < r.1 - 1 ==> PassChanges(pass, tags, k) != 0)
      && (r.1 < ITERATIONS_LIMIT ==> PassChanges(pass, tags, r.1 - 1) == 0)
      && (r.1 < ITERATIONS_LIMIT ==> pass(r.0) == (r.0, 0))
  {
    ExpandFrom(pass, tags, 0);
    var r := Expand(pass, tags, 0);
    KeptChangingEach(pass, tags, r.1 - 1);
  }

  /** Step 1 on the tags: with no definitions the text is left alone,
      otherwise the do/while runs. */
  method ExpandAliases(defs: seq<AliasDefinition>, tags: seq<string>) returns (value: seq<string>, passes: nat)
    ensures passes <= ITERATIONS_LIMIT
    ensures defs == [] ==> value == tags && passes == 0
    ensures defs != [] ==> (value, passes) == Expand(PassOf(defs), tags, 0)
  {
    value, passes := tags, 0;
    if defs == [] {
      return;
    }
    while true
      invariant passes < ITERATIONS_LIMIT
      invariant Expand(PassOf(defs), value, passes) == Expand(PassOf(defs), tags, 0)
      decreases ITERATIONS_LIMIT - passes
    {
      ghost var before, done := value, passes;
      var next, changes := RunPass(defs, value);
      assert PassOf(defs)(before) == (next, changes);
      value, passes := next, passes + 1;
      if !(changes != 0 && passes < ITERATIONS_LIMIT) {
        assert Expand(PassOf(defs), before, done) == (value, passes);
        break;
      }
    }
  }

  /** A definition whose output lists the very tag it matched (without a
      wildcard) drops that tag: the part is already present in the text the
      duplicate filter looks at. */
  lemma RepeatedTagIsDropped(def: AliasDefinition, ts: seq<string>, i: nat, caps: seq<string>)
    requires i < |ts| && '*' !in ts[i]
    ensures ts[i] !in Replacement(def.output, caps, ts)
  {
    LiteralMatchesItself(ts[i]);
    assert Present(ts[i], ts);
    NewPartsSpec(Split(Substitute(def.output, caps, |caps|), " "), ts);
  }

  /** Applying an alias adds only parts that are not present yet; when all
      its parts are, the matched tag is simply removed. */
  lemma ReplacementOnlyAddsNewParts(output: string, caps: seq<string>, current: seq<string>)
    ensures forall x :: x in Replacement(output, caps, current) ==> !Present(x, current)
    ensures (forall x :: x in Split(Substitute(output, caps, |caps|), " ") ==> Present(x, current))
      ==> Replacement(output, caps, current) == []
  {
    var r := Replacement(output, caps, current);
    NewPartsSpec(Split(Substitute(output, caps, |caps|), " "), current);
    if r != [] {
      assert r[0] in r;
    }
  }
}
