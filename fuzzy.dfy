/** utils/fuzzy.js: escaping a string for use inside a regular expression,
    the subsequence test of fuzzysearch, and the two fuzzy finders that rank
    candidates by the span of their match.

    The regular expressions the source builds are restated as explicit
    scans. The pattern of the escaped query characters joined by `.*?`
    (case-insensitive) matches at a position when the first character is
    there and each later character is taken at its first occurrence after
    the previous one, the gaps crossing no line terminator: the lazy
    quantifiers try the shortest gap first, and the earliest choice for each
    character never prevents a later one from matching. Case folding is the
    ASCII folding of Common.SameCI. */
module Fuzzy {
  import opened Common

  // ----- escapeRegex -----

  /** The sixteen characters escapeRegex prefixes with a backslash. */
  predicate IsRegexSpecial(c: char) {
    c in "-/\\^$*+?.()|[]{}"
  }

  /** escapeRegex: a backslash before each special character, every other
      character unchanged. */
  function EscapeRegex(e: string): (r: string)
    ensures |r| >= |e|
    ensures (forall i :: 0 <= i < |e| ==> !IsRegexSpecial(e[i])) ==> r == e
  {
    if |e| == 0 then []
    else (if IsRegexSpecial(e[0]) then ['\\', e[0]] else [e[0]]) + EscapeRegex(e[1..])
  }

  /** The text a pattern matches when it is read as a literal: a backslash
      followed by a special character stands for that character, any other
      character that is not special stands for itself. None when the pattern
      holds a bare special character or an escape of anything else. */
  function RegexLiteral(r: string): (t: Option<string>)
  {
    if |r| == 0 then Some([])
    else if r[0] == '\\' then
      if |r| >= 2 && IsRegexSpecial(r[1]) then
        match RegexLiteral(r[2..])
        case None => None
        case Some(rest) => Some([r[1]] + rest)
      else None
    else if IsRegexSpecial(r[0]) then None
    else
      match RegexLiteral(r[1..])
      case None => None
      case Some(rest) => Some([r[0]] + rest)
  }

  /** The escaped string is a literal pattern for exactly the input: dropping
      the added backslashes gives the input back. */
  lemma {:induction false} EscapeRegexIsLiteral(e: string)
    ensures RegexLiteral(EscapeRegex(e)) == Some(e)
  {
    if |e| > 0 {
      EscapeRegexIsLiteral(e[1..]);
      var r := EscapeRegex(e);
      if IsRegexSpecial(e[0]) {
        assert r[2..] == EscapeRegex(e[1..]);
      } else {
        assert r[1..] == EscapeRegex(e[1..]);
      }
      assert e == [e[0]] + e[1..];
    }
  }

  // ----- fuzzysearch -----

  /** `needle` is a subsequence of `hay`: each needle character taken at its
      first occurrence after the one before. */
  predicate IsSubsequence(needle: string, hay: string)
    decreases |hay|
  {
    || |needle| == 0
    || (&& |hay| > 0
        && if needle[0] == hay[0] then IsSubsequence(needle[1..], hay[1..])
           else IsSubsequence(needle, hay[1..]))
  }

  /** `idx` picks, in increasing order, a position of `hay` holding each
      character of `needle`. */
  ghost predicate Embeds(needle: string, hay: string, idx: seq<int>) {
    && |idx| == |needle|
    && (forall k :: 0 <= k < |idx| ==> 0 <= idx[k] < |hay| && hay[idx[k]] == needle[k])
    && (forall a, b :: 0 <= a < b < |idx| ==> idx[a] < idx[b])
  }

  /** Positions one further along. */
  function Shifted(idx: seq<int>): (r: seq<int>)
    ensures |r| == |idx| && forall k :: 0 <= k < |idx| ==> r[k] == idx[k] + 1
  {
    seq(|idx|, k requires 0 <= k < |idx| => idx[k] + 1)
  }

  /** Positions one nearer the start. */
  function Unshifted(idx: seq<int>): (r: seq<int>)
    ensures |r| == |idx| && forall k :: 0 <= k < |idx| ==> r[k] == idx[k] - 1
  {
    seq(|idx|, k requires 0 <= k < |idx| => idx[k] - 1)
  }

  lemma {:induction false} SubsequenceEmbeds(needle: string, hay: string) returns (idx: seq<int>)
    requires IsSubsequence(needle, hay)
    ensures Embeds(needle, hay, idx)
    decreases |hay|
  {
    if |needle| == 0 {
      idx := [];
    } else if needle[0] == hay[0] {
      var rest := SubsequenceEmbeds(needle[1..], hay[1..]);
      idx := [0] + Shifted(rest);
    } else {
      var rest := SubsequenceEmbeds(needle, hay[1..]);
      idx := Shifted(rest);
    }
  }

  lemma {:induction false} EmbedsSubsequence(needle: string, hay: string, idx: seq<int>)
    requires Embeds(needle, hay, idx)
    ensures IsSubsequence(needle, hay)
    decreases |hay|
  {
    if |needle| > 0 {
      assert idx[0] < |hay|;
      if needle[0] == hay[0] {
        var rest := Unshifted(idx[1..]);
        assert Embeds(needle[1..], hay[1..], rest);
        EmbedsSubsequence(needle[1..], hay[1..], rest);
      } else {
        assert idx[0] != 0;
        var rest := Unshifted(idx);
        assert Embeds(needle, hay[1..], rest);
        EmbedsSubsequence(needle, hay[1..], rest);
      }
    }
  }

  /** The first-occurrence scan finds a subsequence exactly when some
      increasing choice of positions spells the needle. */
  lemma SubsequenceIff(needle: string, hay: string)
    ensures IsSubsequence(needle, hay) <==> exists idx :: Embeds(needle, hay, idx)
  {
    if IsSubsequence(needle, hay) {
      var idx := SubsequenceEmbeds(needle, hay);
    }
    if idx :| Embeds(needle, hay, idx) {
      EmbedsSubsequence(needle, hay, idx);
    }
  }

  /** A subsequence is never longer than the string it is taken from. */
  lemma {:induction false} SubsequenceNotLonger(needle: string, hay: string)
    ensures IsSubsequence(needle, hay) ==> |needle| <= |hay|
    decreases |hay|
  {
    if |needle| > 0 && |hay| > 0 {
      if needle[0] == hay[0] {
        SubsequenceNotLonger(needle[1..], hay[1..]);
      } else {
        SubsequenceNotLonger(needle, hay[1..]);
      }
    }
  }

  /** Between strings of the same length, subsequence is equality. */
  lemma {:induction false} SubsequenceSameLength(needle: string, hay: string)
    requires |needle| == |hay|
    ensures IsSubsequence(needle, hay) <==> needle == hay
    decreases |hay|
  {
    if |needle| > 0 {
      if needle[0] == hay[0] {
        SubsequenceSameLength(needle[1..], hay[1..]);
        assert needle == [needle[0]] + needle[1..] && hay == [hay[0]] + hay[1..];
      } else {
        SubsequenceNotLonger(needle, hay[1..]);
      }
    }
  }

  /** fuzzysearch: the needle is too long, equal to the haystack, or its
      characters are found one after another, each at its first occurrence
      after the previous one. */
  method FuzzySearch(needle: string, haystack: string) returns (found: bool)
    ensures found <==> IsSubsequence(needle, haystack)
  {
    var hlen := |haystack|;
    var nlen := |needle|;
    if nlen > hlen {
      SubsequenceNotLonger(needle, haystack);
      return false;
    }
    if nlen == hlen {
      SubsequenceSameLength(needle, haystack);
      return needle == haystack;
    }
    var i, j := 0, 0;
    while i < nlen
      invariant 0 <= i <= nlen && 0 <= j <= hlen
      invariant IsSubsequence(needle, haystack) <==> IsSubsequence(needle[i..], haystack[j..])
    {
      var nch := needle[i];
      var matched := false;
      while j < hlen && !matched
        invariant 0 <= j <= hlen
        invariant !matched ==> (IsSubsequence(needle, haystack) <==> IsSubsequence(needle[i..], haystack[j..]))
        invariant matched ==> (IsSubsequence(needle, haystack) <==> IsSubsequence(needle[i + 1..], haystack[j..]))
      {
        assert needle[i..][1..] == needle[i + 1..] && haystack[j..][1..] == haystack[j + 1..];
        matched := haystack[j] == nch;
        j := j + 1;
      }
      if !matched {
        return false;
      }
      i := i + 1;
    }
    return true;
  }

  // ----- the match span of the lazy pattern -----

  /** The characters `.` in a JavaScript regular expression does not match. */
  predicate IsLineTerminator(c: char) {
    c == '\n' || c == '\r' || c == '\U{2028}' || c == '\U{2029}'
  }

  /** Where `.*?q[0].*?q[1]...` ends when it starts at position j: each
      character taken at its first case-insensitive occurrence, the gaps
      crossing no line terminator; None when it does not match. */
  function LazyEnd(q: string, s: string, j: nat): (r: Option<nat>)
    decreases |s| - j
    ensures r.Some? ==> j + |q| <= r.value <= |s|
    ensures r.Some? && |q| > 0 ==> SameCI(s[r.value - 1], q[|q| - 1])
  {
    if |q| == 0 then (if j <= |s| then Some(j) else None)
    else if j >= |s| then None
    else if SameCI(s[j], q[0]) then LazyEnd(q[1..], s, j + 1)
    else if IsLineTerminator(s[j]) then None
    else LazyEnd(q, s, j + 1)
  }

  /** The length of the text the pattern `q[0].*?q[1].*?...` matches at
      position p, or None: the first character must be at p itself. The
      span covers the whole query and ends on its last character. */
  function MatchAt(q: string, s: string, p: nat): (r: Option<nat>)
    ensures r.Some? ==> |q| <= r.value && p + r.value <= |s|
    ensures r.Some? && |q| > 0 ==> SameCI(s[p], q[0]) && SameCI(s[p + r.value - 1], q[|q| - 1])
  {
    if |q| == 0 then (if p <= |s| then Some(0) else None)
    else if p < |s| && SameCI(s[p], q[0]) then
      match LazyEnd(q[1..], s, p + 1)
      case None => None
      case Some(e) => Some(e - p)
    else None
  }

  /** The start and the length of one match. */
  datatype Match = Match(subLength: nat, start: nat)

  /** `m` is a match of `q` in `s` no other match beats: none is shorter,
      and none as short starts earlier. */
  ghost predicate IsBestMatch(q: string, s: string, m: Match) {
    && m.start <= |s| && MatchAt(q, s, m.start) == Some(m.subLength)
    && forall p :: 0 <= p <= |s| && MatchAt(q, s, p).Some? ==>
         m.subLength < MatchAt(q, s, p).value || (m.subLength == MatchAt(q, s, p).value && m.start <= p)
  }

  /** The query matches somewhere in `s`. */
  ghost predicate HasMatch(q: string, s: string) {
    exists p :: 0 <= p <= |s| && MatchAt(q, s, p).Some?
  }

  /** _findBestMatch: the global lookahead pattern reports a match at every
      position where one starts; the source sorts them by length with a
      stable sort and keeps the first, which is the shortest match, the
      earliest one among equally short ones. The scan keeps that match as
      it goes. */
  method FindBestMatch(q: string, s: string) returns (r: Option<Match>)
    ensures r.None? <==> !HasMatch(q, s)
    ensures r.Some? ==> IsBestMatch(q, s, r.value)
  {
    r := None;
    var p := 0;
    while p <= |s|
      invariant 0 <= p <= |s| + 1
      invariant r.None? <==> forall k :: 0 <= k < p ==> MatchAt(q, s, k).None?
      invariant r.Some? ==> r.value.start < p && MatchAt(q, s, r.value.start) == Some(r.value.subLength)
      invariant r.Some? ==> forall k :: 0 <= k < p && MatchAt(q, s, k).Some? ==>
        r.value.subLength < MatchAt(q, s, k).value ||
        (r.value.subLength == MatchAt(q, s, k).value && r.value.start <= k)
    {
      var m := MatchAt(q, s, p);
      if m.Some? && (r.None? || m.value < r.value.subLength) {
        r := Some(Match(m.value, p));
      }
      p := p + 1;
    }
  }

  /** What exec of the non-global pattern returns: the leftmost position at
      or after `from` where it matches, with the length matched there. */
  function FirstMatch(q: string, s: string, from: nat): (r: Option<Match>)
    decreases |s| + 1 - from
    ensures r.Some? ==> from <= r.value.start <= |s| && MatchAt(q, s, r.value.start) == Some(r.value.subLength)
    ensures r.Some? ==> forall p :: from <= p < r.value.start ==> MatchAt(q, s, p).None?
    ensures r.None? ==> forall p :: from <= p <= |s| ==> MatchAt(q, s, p).None?
  {
    if from > |s| then None
    else match MatchAt(q, s, from)
      case Some(n) => Some(Match(n, from))
      case None => FirstMatch(q, s, from + 1)
  }

  // ----- ranking -----

  /** A candidate of fuzzyMatchTabObjects or fuzzyfinder: the length and
      start of its match, whether it matched on the host name, the string
      that breaks the remaining ties, and the candidate itself. */
  datatype Suggestion<T> = Suggestion(subLength: nat, start: nat, isUrl: bool, tie: string, item: T)

  /** The comparators `cmp` as "a may come before b": matches on the title
      before matches on the host name, then the shorter match, then the
      earlier start, then the tie-breaking string in code-point order (the
      stand-in for localeCompare). */
  predicate RanksBefore<T>(a: Suggestion<T>, b: Suggestion<T>) {
    if a.isUrl != b.isUrl then !a.isUrl
    else if a.subLength != b.subLength then a.subLength < b.subLength
    else if a.start != b.start then a.start < b.start
    else LexLe(a.tie, b.tie)
  }

  lemma RanksTotal<T>(a: Suggestion<T>, b: Suggestion<T>)
    ensures RanksBefore(a, b) || RanksBefore(b, a)
  {
    LexTotal(a.tie, b.tie);
  }

  lemma RanksTransitive<T>(a: Suggestion<T>, b: Suggestion<T>, c: Suggestion<T>)
    requires RanksBefore(a, b) && RanksBefore(b, c)
    ensures RanksBefore(a, c)
  {
    if a.isUrl == b.isUrl == c.isUrl && a.subLength == b.subLength == c.subLength && a.start == b.start == c.start {
      LexTransitive(a.tie, b.tie, c.tie);
    }
  }

  ghost predicate Sorted<T>(s: seq<Suggestion<T>>) {
    forall i, j :: 0 <= i < j < |s| ==> RanksBefore(s[i], s[j])
  }

  /** The candidates, in order. */
  function Items<T>(s: seq<Suggestion<T>>): (r: seq<T>)
    ensures |r| == |s| && forall k :: 0 <= k < |s| ==> r[k] == s[k].item
  {
    seq(|s|, k requires 0 <= k < |s| => s[k].item)
  }

  lemma ItemsSnoc<T>(s: seq<Suggestion<T>>, x: Suggestion<T>)
    ensures Items(s + [x]) == Items(s) + [x.item]
  {
    var a, b := Items(s + [x]), Items(s) + [x.item];
    assert forall k :: 0 <= k < |a| ==> a[k] == b[k];
  }

  lemma ItemsCons<T>(x: Suggestion<T>, s: seq<Suggestion<T>>)
    ensures Items([x] + s) == [x.item] + Items(s)
  {
    var a, b := Items([x] + s), [x.item] + Items(s);
    assert forall k :: 0 <= k < |a| ==> a[k] == b[k];
  }

  lemma ItemsLast<T>(s: seq<Suggestion<T>>)
    requires |s| > 0
    ensures Items(s) == Items(s[..|s| - 1]) + [s[|s| - 1].item]
  {
    assert s == s[..|s| - 1] + [s[|s| - 1]];
    ItemsSnoc(s[..|s| - 1], s[|s| - 1]);
  }

  /** One step of a stable sort: `x` goes after every element that may come
      before it. */
  function Insert<T>(x: Suggestion<T>, s: seq<Suggestion<T>>): (r: seq<Suggestion<T>>)
  {
    if |s| == 0 then [x]
    else if !RanksBefore(s[0], x) then [x] + s
    else [s[0]] + Insert(x, s[1..])
  }

  /** Array.prototype.sort with `cmp`, a stable sort. */
  function SortSuggestions<T>(s: seq<Suggestion<T>>): (r: seq<Suggestion<T>>)
  {
    if |s| == 0 then [] else Insert(s[|s| - 1], SortSuggestions(s[..|s| - 1]))
  }

  /** An element that may come before every element of a sorted sequence
      can go in front of it. */
  lemma PrependSorted<T>(x: Suggestion<T>, s: seq<Suggestion<T>>)
    requires Sorted(s) && forall k :: 0 <= k < |s| ==> RanksBefore(x, s[k])
    ensures Sorted([x] + s)
  {
    var r := [x] + s;
    forall i, j | 0 <= i < j < |r|
      ensures RanksBefore(r[i], r[j])
    {
      if i > 0 {
        assert r[i] == s[i - 1] && r[j] == s[j - 1];
      } else {
        assert r[j] == s[j - 1];
      }
    }
  }

  lemma {:induction false} InsertSorted<T>(x: Suggestion<T>, s: seq<Suggestion<T>>)
    requires Sorted(s)
    ensures Sorted(Insert(x, s))
    ensures multiset(Insert(x, s)) == multiset(s) + multiset{x}
  {
    if |s| == 0 {
    } else if !RanksBefore(s[0], x) {
      RanksTotal(s[0], x);
      forall k | 0 <= k < |s|
        ensures RanksBefore(x, s[k])
      {
        if k > 0 {
          RanksTransitive(x, s[0], s[k]);
        }
      }
      PrependSorted(x, s);
    } else {
      assert s == [s[0]] + s[1..];
      InsertSorted(x, s[1..]);
      var rest := Insert(x, s[1..]);
      forall k | 0 <= k < |rest|
        ensures RanksBefore(s[0], rest[k])
      {
        assert rest[k] in multiset(rest);
        if rest[k] != x {
          assert rest[k] in multiset(s[1..]);
        }
      }
      PrependSorted(s[0], rest);
    }
  }

  lemma {:induction false} InsertItems<T>(x: Suggestion<T>, s: seq<Suggestion<T>>)
    ensures multiset(Items(Insert(x, s))) == multiset(Items(s)) + multiset{x.item}
  {
    if |s| == 0 {
      ItemsCons(x, []);
    } else if !RanksBefore(s[0], x) {
      ItemsCons(x, s);
    } else {
      var rest := Insert(x, s[1..]);
      InsertItems(x, s[1..]);
      ItemsCons(s[0], rest);
      ItemsCons(s[0], s[1..]);
      assert s == [s[0]] + s[1..];
    }
  }

  /** The sort orders the suggestions by `cmp` and keeps each of them. */
  lemma {:induction false} SortSuggestionsSpec<T>(s: seq<Suggestion<T>>)
    ensures Sorted(SortSuggestions(s))
    ensures multiset(SortSuggestions(s)) == multiset(s)
  {
    if |s| > 0 {
      var init := s[..|s| - 1];
      SortSuggestionsSpec(init);
      InsertSorted(s[|s| - 1], SortSuggestions(init));
      assert s == init + [s[|s| - 1]];
    }
  }

  /** The sort keeps the candidates, each as often as before. */
  lemma {:induction false} SortSuggestionsItems<T>(s: seq<Suggestion<T>>)
    ensures multiset(Items(SortSuggestions(s))) == multiset(Items(s))
  {
    if |s| > 0 {
      var init, last := s[..|s| - 1], s[|s| - 1];
      SortSuggestionsItems(init);
      InsertItems(last, SortSuggestions(init));
      assert SortSuggestions(s) == Insert(last, SortSuggestions(init));
      ItemsLast(s);
    }
  }

  /** The suggestions `cmp` cannot tell apart from `e`, in sequence order. */
  function TiedWith<T>(s: seq<Suggestion<T>>, e: Suggestion<T>): seq<Suggestion<T>>
  {
    if |s| == 0 then []
    else (if RanksBefore(s[0], e) && RanksBefore(e, s[0]) then [s[0]] else []) + TiedWith(s[1..], e)
  }

  lemma TiedWithCons<T>(a: Suggestion<T>, s: seq<Suggestion<T>>, e: Suggestion<T>)
    ensures TiedWith([a] + s, e) == (if RanksBefore(a, e) && RanksBefore(e, a) then [a] else []) + TiedWith(s, e)
  {
    assert ([a] + s)[1..] == s;
  }

  lemma {:induction false} TiedWithSnoc<T>(s: seq<Suggestion<T>>, x: Suggestion<T>, e: Suggestion<T>)
    ensures TiedWith(s + [x], e) == TiedWith(s, e) + (if RanksBefore(x, e) && RanksBefore(e, x) then [x] else [])
  {
    if |s| > 0 {
      assert (s + [x])[1..] == s[1..] + [x];
      TiedWithSnoc(s[1..], x, e);
    }
  }

  /** No suggestion of `s` is tied with `e`, so none is kept. */
  lemma {:induction false} NoneTied<T>(s: seq<Suggestion<T>>, e: Suggestion<T>)
    requires forall k :: 0 <= k < |s| ==> !(RanksBefore(s[k], e) && RanksBefore(e, s[k]))
    ensures TiedWith(s, e) == []
  {
    if |s| > 0 {
      NoneTied(s[1..], e);
    }
  }

  /** Inserting `x` into a sorted sequence puts it after the suggestions tied
      with it. */
  lemma {:induction false} InsertTied<T>(x: Suggestion<T>, s: seq<Suggestion<T>>, e: Suggestion<T>)
    requires Sorted(s)
    ensures TiedWith(Insert(x, s), e) == TiedWith(s, e) + (if RanksBefore(x, e) && RanksBefore(e, x) then [x] else [])
  {
    var mine := if RanksBefore(x, e) && RanksBefore(e, x) then [x] else [];
    if |s| == 0 {
      TiedWithCons(x, [], e);
    } else if !RanksBefore(s[0], x) {
      assert Insert(x, s) == [x] + s;
      TiedWithCons(x, s, e);
      if RanksBefore(x, e) && RanksBefore(e, x) {
        forall k | 0 <= k < |s|
          ensures !(RanksBefore(s[k], e) && RanksBefore(e, s[k]))
        {
          if RanksBefore(s[k], e) && RanksBefore(e, s[k]) {
            RanksTransitive(s[k], e, x);
            if k > 0 {
              RanksTransitive(s[0], s[k], x);
            }
          }
        }
        NoneTied(s, e);
      }
    } else {
      var head := if RanksBefore(s[0], e) && RanksBefore(e, s[0]) then [s[0]] else [];
      var rest := Insert(x, s[1..]);
      assert Insert(x, s) == [s[0]] + rest;
      InsertTied(x, s[1..], e);
      TiedWithCons(s[0], rest, e);
      TiedWithCons(s[0], s[1..], e);
      assert [s[0]] + s[1..] == s;
      ConcatAssociates(head, TiedWith(s[1..], e), mine);
    }
  }

  /** The sort is stable: suggestions `cmp` ranks equal keep their input order. */
  lemma {:induction false} SortSuggestionsStable<T>(s: seq<Suggestion<T>>, e: Suggestion<T>)
    ensures TiedWith(SortSuggestions(s), e) == TiedWith(s, e)
  {
    if |s| > 0 {
      var init, last := s[..|s| - 1], s[|s| - 1];
      var sorted := SortSuggestions(init);
      SortSuggestionsStable(init, e);
      SortSuggestionsSpec(init);
      InsertTied(last, sorted, e);
      TiedWithSnoc(init, last, e);
      assert s == init + [last];
      calc {
        TiedWith(SortSuggestions(s), e);
        TiedWith(Insert(last, sorted), e);
        TiedWith(sorted, e) + (if RanksBefore(last, e) && RanksBefore(e, last) then [last] else []);
        TiedWith(init + [last], e);
      }
    }
  }

  // ----- fuzzyMatchTabObjects -----

  /** A tab as the popup hands it over: title, url, and the host name that
      `new URL(url).hostname` yields (URL parsing is not modelled). */
  datatype TabObject = TabObject(title: string, url: string, hostname: string)

  /** A tab matches when the query occurs in its host name, ignoring case,
      or the fuzzy pattern matches its title. */
  ghost predicate TabMatches(q: string, t: TabObject) {
    SearchCI(t.hostname, q).Some? || HasMatch(q, t.title)
  }

  /** The tabs that match, in order. */
  ghost function MatchingTabs(q: string, tabs: seq<TabObject>): (r: seq<TabObject>)
  {
    if |tabs| == 0 then []
    else MatchingTabs(q, tabs[..|tabs| - 1]) + if TabMatches(q, tabs[|tabs| - 1]) then [tabs[|tabs| - 1]] else []
  }

  /** The suggestion fuzzyMatchTabObjects makes for its tab: a host-name hit
      (the first one) counts as a match of the query's length; only without
      one is the best title match used. */
  ghost predicate TabRanking(q: string, s: Suggestion<TabObject>) {
    var t := s.item;
    match SearchCI(t.hostname, q)
    case Some(k) => s == Suggestion(|q|, k, true, t.hostname, t)
    case None => !s.isUrl && s.tie == t.title && IsBestMatch(q, t.title, Match(s.subLength, s.start))
  }

  /** The loop of fuzzyMatchTabObjects: a suggestion for each tab that
      matches, in order. */
  method TabSuggestions(query: string, tabs: seq<TabObject>) returns (suggestions: seq<Suggestion<TabObject>>)
    ensures Items(suggestions) == MatchingTabs(query, tabs)
    ensures forall k :: 0 <= k < |suggestions| ==> TabRanking(query, suggestions[k])
  {
    suggestions := [];
    var i := 0;
    while i < |tabs|
      invariant 0 <= i <= |tabs|
      invariant Items(suggestions) == MatchingTabs(query, tabs[..i])
      invariant forall k :: 0 <= k < |suggestions| ==> TabRanking(query, suggestions[k])
    {
      assert tabs[..i + 1][..i] == tabs[..i];
      var tab := tabs[i];
      var urlIndex := SearchCI(tab.hostname, query);
      if urlIndex.Some? {
        var sg := Suggestion(|query|, urlIndex.value, true, tab.hostname, tab);
        ItemsSnoc(suggestions, sg);
        suggestions := suggestions + [sg];
      } else {
        var m := FindBestMatch(query, tab.title);
        if m.Some? {
          var sg := Suggestion(m.value.subLength, m.value.start, false, tab.title, tab);
          ItemsSnoc(suggestions, sg);
          suggestions := suggestions + [sg];
        }
      }
      i := i + 1;
    }
    assert tabs[..i] == tabs;
  }

  /** fuzzyMatchTabObjects: exactly the matching tabs, ranked by `cmp`;
      suggestions `cmp` ranks equal stay in tab order (`unsorted` holds the
      suggestions in that order). */
  method FuzzyMatchTabObjects(query: string, tabs: seq<TabObject>)
      returns (result: seq<TabObject>, ghost ranked: seq<Suggestion<TabObject>>,
               ghost unsorted: seq<Suggestion<TabObject>>)
    ensures multiset(result) == multiset(MatchingTabs(query, tabs))
    ensures result == Items(ranked) && Sorted(ranked)
    ensures forall k :: 0 <= k < |ranked| ==> TabRanking(query, ranked[k])
    ensures Items(unsorted) == MatchingTabs(query, tabs) && ranked == SortSuggestions(unsorted)
    ensures forall e :: TiedWith(ranked, e) == TiedWith(unsorted, e)
  {
    var suggestions := TabSuggestions(query, tabs);
    SortSuggestionsSpec(suggestions);
    SortSuggestionsItems(suggestions);
    var sorted := SortSuggestions(suggestions);
    forall k | 0 <= k < |sorted|
      ensures TabRanking(query, sorted[k])
    {
      assert sorted[k] in multiset(suggestions);
    }
    forall e {
      SortSuggestionsStable(suggestions, e);
    }
    result, ranked, unsorted := Items(sorted), sorted, suggestions;
  }

  // ----- fuzzyfinder -----

  /** The items whose key the pattern matches, in order. */
  ghost function MatchingItems<T>(text: string, items: seq<T>, key: T -> string): (r: seq<T>)
  {
    if |items| == 0 then []
    else MatchingItems(text, items[..|items| - 1], key)
         + if HasMatch(text, key(items[|items| - 1])) then [items[|items| - 1]] else []
  }

  /** The suggestion fuzzyfinder makes for its item: the leftmost match of
      the pattern in the item's key. */
  ghost predicate FinderRanking<T>(text: string, key: T -> string, s: Suggestion<T>) {
    && FirstMatch(text, key(s.item), 0) == Some(Match(s.subLength, s.start))
    && !s.isUrl && s.tie == key(s.item)
  }

  /** The last loop of fuzzyfinder: the items of the ranked suggestions, in order. */
  method CollectItems<T>(ranked: seq<Suggestion<T>>) returns (items: seq<T>)
    ensures items == Items(ranked)
  {
    items := [];
    var k := 0;
    while k < |ranked|
      invariant 0 <= k <= |ranked| && items == Items(ranked[..k])
    {
      assert ranked[..k + 1] == ranked[..k] + [ranked[k]];
      ItemsSnoc(ranked[..k], ranked[k]);
      items := items + [ranked[k].item];
      k := k + 1;
    }
    assert ranked[..k] == ranked;
  }

  /** The first loop of fuzzyfinder: a suggestion for each item whose key
      matches, in order. */
  method FinderSuggestions<T>(text: string, collection: seq<T>, key: T -> string)
      returns (suggestions: seq<Suggestion<T>>)
    ensures Items(suggestions) == MatchingItems(text, collection, key)
    ensures forall k :: 0 <= k < |suggestions| ==> FinderRanking(text, key, suggestions[k])
  {
    suggestions := [];
    var i := 0;
    while i < |collection|
      invariant 0 <= i <= |collection|
      invariant Items(suggestions) == MatchingItems(text, collection[..i], key)
      invariant forall k :: 0 <= k < |suggestions| ==> FinderRanking(text, key, suggestions[k])
    {
      assert collection[..i + 1][..i] == collection[..i];
      var item := collection[i];
      var toSearch := key(item);
      var m := FirstMatch(text, toSearch, 0);
      if m.Some? {
        var sg := Suggestion(m.value.subLength, m.value.start, false, toSearch, item);
        ItemsSnoc(suggestions, sg);
        suggestions := suggestions + [sg];
      }
      i := i + 1;
    }
    assert collection[..i] == collection;
  }

  /** fuzzyfinder: exactly the items whose key matches, ranked by match
      length, then start, then key; ties stay in collection order (`unsorted`
      holds the suggestions in that order). Without a key function the items
      are strings and `key` is the identity. */
  method FuzzyFinder<T(==)>(text: string, collection: seq<T>, key: T -> string)
      returns (items: seq<T>, ghost ranked: seq<Suggestion<T>>, ghost unsorted: seq<Suggestion<T>>)
    ensures multiset(items) == multiset(MatchingItems(text, collection, key))
    ensures items == Items(ranked) && Sorted(ranked)
    ensures forall k :: 0 <= k < |ranked| ==> FinderRanking(text, key, ranked[k])
    ensures Items(unsorted) == MatchingItems(text, collection, key) && ranked == SortSuggestions(unsorted)
    ensures forall e :: TiedWith(ranked, e) == TiedWith(unsorted, e)
  {
    var suggestions := FinderSuggestions(text, collection, key);
    SortSuggestionsSpec(suggestions);
    SortSuggestionsItems(suggestions);
    var sorted := SortSuggestions(suggestions);
    forall k | 0 <= k < |sorted|
      ensures FinderRanking(text, key, sorted[k])
    {
      assert sorted[k] in multiset(suggestions);
    }
    forall e {
      SortSuggestionsStable(suggestions, e);
    }
    items := CollectItems(sorted);
    ranked, unsorted := sorted, suggestions;
  }
}
