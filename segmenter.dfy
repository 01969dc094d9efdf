/** The greedy longest-match phrase segmenter that all three display
    components implement, as a reference definition over an already split
    token list. A loop in each component is proved equal to it.

    At cursor `i` the segmenter tries the windows of `min(4, n - i)`, ...,
    1 tokens and looks each one up under its phrase key; the first (so the
    widest) window that the dictionary maps to a non-empty path is emitted
    and skipped. When no window matches, the token at `i` is unmatched:
    it yields a gap (`null`) and the cursor moves by one.

    The definitions take the phrase key as a parameter (`phrase`); the
    components all use PhraseKey, the window joined with single spaces and
    lowercased. The properties of the scan hold for any key, and the ones
    about letter case for any key that ignores case, as PhraseKey does. */
module Segmenter {
  import opened Seqs
  import opened Text

  /** `isl_dictionary.json`: normalised phrase to clip path. */
  type Dict = map<string, string>

  /** How a window of tokens becomes a dictionary key. */
  type Phrasing = seq<string> -> string

  /** The widest phrase the segmenter tries. */
  const MaxWindow: nat := 4

  /** `ws.join(" ").toLowerCase()`: the key all three components use. */
  function PhraseKey(ws: seq<string>): string
  {
    Lower(Join(ws))
  }

  /** `if (dictionary[phrase])`: present, and the path is not the empty
      (falsy) string. */
  predicate Hit(d: Dict, key: string)
  {
    key in d && d[key] != ""
  }

  /** The key of `words.slice(i, i + j)`. */
  function Window(phrase: Phrasing, tokens: seq<string>, i: nat, j: nat): string
    requires i + j <= |tokens|
  {
    phrase(tokens[i..i + j])
  }

  /** `${prefix}/${dictionary[key]}`; a template literal shows a missing
      key as `undefined` (the scan only builds URLs for keys it found). */
  function Url(prefix: string, d: Dict, key: string): string
  {
    prefix + "/" + (if key in d then d[key] else "undefined")
  }

  /** The widest window the inner loop tries at cursor `i`. */
  function Reach(tokens: seq<string>, i: nat): nat
    requires i < |tokens|
  {
    Min(MaxWindow, |tokens| - i)
  }

  /** The width of the widest window of at most `j` tokens at cursor `i`
      that the dictionary matches, or 0 when none of them does. */
  function MatchWidth(d: Dict, phrase: Phrasing, tokens: seq<string>, i: nat, j: nat): (w: nat)
    requires i + j <= |tokens|
    ensures w <= j
    decreases j
  {
    if j == 0 then 0
    else if Hit(d, Window(phrase, tokens, i, j)) then j
    else MatchWidth(d, phrase, tokens, i, j - 1)
  }

  /** How far the cursor moves from `i`: the matched width, or one token. */
  function Advance(d: Dict, phrase: Phrasing, tokens: seq<string>, i: nat): (w: nat)
    requires i < |tokens|
    ensures 1 <= w <= MaxWindow && i + w <= |tokens|
  {
    var m := MatchWidth(d, phrase, tokens, i, Reach(tokens, i));
    if m == 0 then 1 else m
  }

  /** What one step at cursor `i` pushes: a URL, or `null` for a gap. */
  function EntryAt(prefix: string, d: Dict, phrase: Phrasing, tokens: seq<string>, i: nat): Option<string>
    requires i < |tokens|
  {
    var m := MatchWidth(d, phrase, tokens, i, Reach(tokens, i));
    if m == 0 then None else Some(Url(prefix, d, Window(phrase, tokens, i, m)))
  }

  /** The entries pushed from cursor `i` to the end, gaps included. */
  function SegmentsFrom(prefix: string, d: Dict, phrase: Phrasing, tokens: seq<string>, i: nat): seq<Option<string>>
    requires i <= |tokens|
    decreases |tokens| - i
  {
    if i == |tokens| then []
    else [EntryAt(prefix, d, phrase, tokens, i)] + SegmentsFrom(prefix, d, phrase, tokens, i + Advance(d, phrase, tokens, i))
  }

  /** One step of the scan, on its own: kept apart so that the proofs below
      can unfold the scan without exposing the lookups behind it. */
  lemma {:induction false} SegmentsStep(prefix: string, d: Dict, phrase: Phrasing, tokens: seq<string>, i: nat)
    requires i < |tokens|
    ensures SegmentsFrom(prefix, d, phrase, tokens, i) ==
      [EntryAt(prefix, d, phrase, tokens, i)] + SegmentsFrom(prefix, d, phrase, tokens, i + Advance(d, phrase, tokens, i))
  {
  }

  function Segments(prefix: string, d: Dict, phrase: Phrasing, tokens: seq<string>): seq<Option<string>>
  {
    SegmentsFrom(prefix, d, phrase, tokens, 0)
  }

  /** The values the cursor takes at the top of the outer loop. */
  function Cursors(d: Dict, phrase: Phrasing, tokens: seq<string>, i: nat): (c: seq<nat>)
    requires i <= |tokens|
    decreases |tokens| - i
  {
    if i == |tokens| then [] else [i] + Cursors(d, phrase, tokens, i + Advance(d, phrase, tokens, i))
  }

  /** `urls.filter(url => url !== null)`. */
  function Present(s: seq<Option<string>>): seq<string>
  {
    if s == [] then []
    else Present(s[..|s| - 1]) + (if s[|s| - 1].Some? then [s[|s| - 1].value] else [])
  }

  predicate IsSome(e: Option<string>)
  {
    e.Some?
  }

  function Wrap(s: seq<string>): (r: seq<Option<string>>)
    ensures |r| == |s|
  {
    seq(|s|, k requires 0 <= k < |s| => Some(s[k]))
  }

  // ----- the lookup at one cursor -----

  /** MatchWidth is the widest match: when it is not 0 the window of that
      width matches, and no wider window up to `j` does. */
  lemma {:induction false} MatchWidthMeans(d: Dict, phrase: Phrasing, tokens: seq<string>, i: nat, j: nat)
    requires i + j <= |tokens|
    ensures var w := MatchWidth(d, phrase, tokens, i, j);
      (w > 0 ==> Hit(d, Window(phrase, tokens, i, w))) &&
      forall k :: w < k <= j ==> !Hit(d, Window(phrase, tokens, i, k))
    decreases j
  {
    if j > 0 && !Hit(d, Window(phrase, tokens, i, j)) {
      MatchWidthMeans(d, phrase, tokens, i, j - 1);
    }
  }

  /** The inner loop's result is determined: a width that matches and has
      no wider match above it (or 0 when nothing matches) is the one
      MatchWidth gives. */
  lemma {:induction false} MatchWidthIs(d: Dict, phrase: Phrasing, tokens: seq<string>, i: nat, j: nat, w: nat)
    requires i + j <= |tokens| && w <= j
    requires w > 0 ==> Hit(d, Window(phrase, tokens, i, w))
    requires forall k :: w < k <= j ==> !Hit(d, Window(phrase, tokens, i, k))
    ensures MatchWidth(d, phrase, tokens, i, j) == w
    decreases j
  {
    if j > w {
      assert !Hit(d, Window(phrase, tokens, i, j));
      MatchWidthIs(d, phrase, tokens, i, j - 1, w);
    }
  }

  /** What a step at cursor `a` emits, stated without MatchWidth: a gap,
      exactly when no window of 1 to `min(4, n - a)` tokens matches, and
      then the cursor moves by one; otherwise the URL of the widest window
      that matches, and the cursor moves past that window. */
  lemma {:induction false} EntryMeaning(prefix: string, d: Dict, phrase: Phrasing, tokens: seq<string>, a: nat)
    requires a < |tokens|
    ensures EntryAt(prefix, d, phrase, tokens, a).None? <==>
      forall k :: 1 <= k <= Reach(tokens, a) ==> !Hit(d, Window(phrase, tokens, a, k))
    ensures EntryAt(prefix, d, phrase, tokens, a).None? ==> Advance(d, phrase, tokens, a) == 1
    ensures EntryAt(prefix, d, phrase, tokens, a).Some? ==>
      var w := Advance(d, phrase, tokens, a);
      w <= Reach(tokens, a) &&
      Hit(d, Window(phrase, tokens, a, w)) &&
      EntryAt(prefix, d, phrase, tokens, a).value == Url(prefix, d, Window(phrase, tokens, a, w)) &&
      forall k :: w < k <= Reach(tokens, a) ==> !Hit(d, Window(phrase, tokens, a, k))
  {
    MatchWidthMeans(d, phrase, tokens, a, Reach(tokens, a));
  }

  /** Longest match: when the window of `j` tokens matches and no wider
      one (up to `min(4, n - i)`) does, the step emits that window's URL and
      continues right after it; a shorter match that also exists is
      ignored. */
  lemma {:induction false} LongestMatchWins(prefix: string, d: Dict, phrase: Phrasing, tokens: seq<string>, i: nat, j: nat)
    requires i < |tokens| && 1 <= j <= Reach(tokens, i)
    requires Hit(d, Window(phrase, tokens, i, j))
    requires forall k :: j < k <= Reach(tokens, i) ==> !Hit(d, Window(phrase, tokens, i, k))
    ensures SegmentsFrom(prefix, d, phrase, tokens, i) ==
      [Some(Url(prefix, d, Window(phrase, tokens, i, j)))] + SegmentsFrom(prefix, d, phrase, tokens, i + j)
  {
    MatchWidthIs(d, phrase, tokens, i, Reach(tokens, i), j);
  }

  /** An unmatched token yields one gap and the cursor moves by one. */
  lemma {:induction false} UnmatchedTokenIsGap(prefix: string, d: Dict, phrase: Phrasing, tokens: seq<string>, i: nat)
    requires i < |tokens|
    requires forall k :: 1 <= k <= Reach(tokens, i) ==> !Hit(d, Window(phrase, tokens, i, k))
    ensures SegmentsFrom(prefix, d, phrase, tokens, i) == [None] + SegmentsFrom(prefix, d, phrase, tokens, i + 1)
  {
    MatchWidthIs(d, phrase, tokens, i, Reach(tokens, i), 0);
  }

  /** One pass of a component's outer loop, as the loop's invariant sees
      it: when the pass moved the cursor by the scan's advance and appended
      the scan's entry (a URL or a gap), then the entries pushed so far
      followed by what the scan emits from the new cursor are still the
      whole result. */
  lemma {:induction false} ScanStep(prefix: string, d: Dict, phrase: Phrasing, tokens: seq<string>,
                 raw: seq<Option<string>>, i: nat, raw': seq<Option<string>>, next: nat)
    requires i < |tokens|
    requires raw + SegmentsFrom(prefix, d, phrase, tokens, i) == Segments(prefix, d, phrase, tokens)
    requires next == i + Advance(d, phrase, tokens, i)
    requires raw' == raw + [EntryAt(prefix, d, phrase, tokens, i)]
    ensures next <= |tokens|
    ensures raw' + SegmentsFrom(prefix, d, phrase, tokens, next) == Segments(prefix, d, phrase, tokens)
  {
    SegmentsStep(prefix, d, phrase, tokens, i);
    var rest := SegmentsFrom(prefix, d, phrase, tokens, next);
    assert raw' + rest == raw + ([EntryAt(prefix, d, phrase, tokens, i)] + rest);
  }

  /** The same pass for a loop that pushes only the URLs: when it appended
      the scan's entry only if it is a URL, the URL list is still the
      entries so far (now including this one) without their gaps. */
  lemma {:induction false} ScanPass(prefix: string, d: Dict, phrase: Phrasing, tokens: seq<string>, raw: seq<Option<string>>,
                 i: nat, urls: seq<string>, next: nat, urls': seq<string>)
      returns (raw': seq<Option<string>>)
    requires i < |tokens|
    requires raw + SegmentsFrom(prefix, d, phrase, tokens, i) == Segments(prefix, d, phrase, tokens)
    requires urls == Present(raw)
    requires next == i + Advance(d, phrase, tokens, i)
    requires var e := EntryAt(prefix, d, phrase, tokens, i); urls' == urls + (if e.Some? then [e.value] else [])
    ensures next <= |tokens|
    ensures raw' + SegmentsFrom(prefix, d, phrase, tokens, next) == Segments(prefix, d, phrase, tokens)
    ensures urls' == Present(raw')
  {
    var e := EntryAt(prefix, d, phrase, tokens, i);
    raw' := raw + [e];
    ScanStep(prefix, d, phrase, tokens, raw, i, raw', next);
    PresentSnoc(raw, e);
  }

  /** The one-word lookup the components retry after the inner loop,
      `dictionary[words[i].toLowerCase()]`, can never succeed: the inner
      loop has already tried the same key with `j = 1`. */
  lemma {:induction false} FallbackNeverHits(d: Dict, tokens: seq<string>, i: nat)
    requires i < |tokens|
    requires forall k :: 1 <= k <= Reach(tokens, i) ==> !Hit(d, Window(PhraseKey, tokens, i, k))
    ensures !Hit(d, Lower(tokens[i]))
  {
    assert tokens[i..i + 1] == [tokens[i]];
    JoinOne(tokens[i]);
    assert Window(PhraseKey, tokens, i, 1) == Lower(tokens[i]);
  }

  /** Where the scan emits a gap, the one-word retry misses too and the
      cursor moves by one. */
  lemma {:induction false} GapFallbackMisses(prefix: string, d: Dict, tokens: seq<string>, i: nat)
    requires i < |tokens| && EntryAt(prefix, d, PhraseKey, tokens, i).None?
    ensures !Hit(d, Lower(tokens[i])) && Advance(d, PhraseKey, tokens, i) == 1
  {
    EntryMeaning(prefix, d, PhraseKey, tokens, i);
    FallbackNeverHits(d, tokens, i);
  }

  // ----- the whole scan -----

  /** The scan tiles the tokens: the cursor starts at `i`, moves by 1 to 4
      tokens each step (strictly increasing, the step's window or the
      single unmatched token), never passes the end and stops exactly at
      it; entry `k` is what the step at the `k`-th cursor emits. Hence
      there are at most as many entries as tokens, at least a quarter as
      many, and their order is the order of the tokens. */
  lemma {:induction false} CursorsTile(prefix: string, d: Dict, phrase: Phrasing, tokens: seq<string>, i: nat)
    requires i <= |tokens|
    ensures var c, s := Cursors(d, phrase, tokens, i), SegmentsFrom(prefix, d, phrase, tokens, i);
      |c| == |s| &&
      |s| <= |tokens| - i <= MaxWindow * |s| &&
      (forall k :: 0 <= k < |c| ==> i <= c[k] < |tokens| && s[k] == EntryAt(prefix, d, phrase, tokens, c[k])) &&
      (c != [] ==> c[0] == i && c[|c| - 1] + Advance(d, phrase, tokens, c[|c| - 1]) == |tokens|) &&
      (forall k :: 0 <= k < |c| - 1 ==> c[k + 1] == c[k] + Advance(d, phrase, tokens, c[k]))
  {
    CursorsCount(prefix, d, phrase, tokens, i);
    CursorsEntries(prefix, d, phrase, tokens, i);
    CursorsSteps(d, phrase, tokens, i);
  }

  /** One cursor per entry, and each step covers one to four tokens. */
  lemma {:induction false} CursorsCount(prefix: string, d: Dict, phrase: Phrasing, tokens: seq<string>, i: nat)
    requires i <= |tokens|
    ensures var c, s := Cursors(d, phrase, tokens, i), SegmentsFrom(prefix, d, phrase, tokens, i);
      |c| == |s| && |s| <= |tokens| - i <= MaxWindow * |s|
  {
    CursorsLength(prefix, d, phrase, tokens, i);
    SegmentsLength(prefix, d, phrase, tokens, i);
    assert MaxWindow == 4;
  }

  lemma {:induction false} CursorsLength(prefix: string, d: Dict, phrase: Phrasing, tokens: seq<string>, i: nat)
    requires i <= |tokens|
    ensures |Cursors(d, phrase, tokens, i)| == |SegmentsFrom(prefix, d, phrase, tokens, i)|
    decreases |tokens| - i
  {
    if i < |tokens| {
      CursorsLength(prefix, d, phrase, tokens, i + Advance(d, phrase, tokens, i));
      CursorsStep(d, phrase, tokens, i);
      SegmentsStep(prefix, d, phrase, tokens, i);
    }
  }

  lemma {:induction false} SegmentsLength(prefix: string, d: Dict, phrase: Phrasing, tokens: seq<string>, i: nat)
    requires i <= |tokens|
    ensures var n := |SegmentsFrom(prefix, d, phrase, tokens, i)|; n <= |tokens| - i <= 4 * n
    decreases |tokens| - i
  {
    if i < |tokens| {
      var a := Advance(d, phrase, tokens, i);
      SegmentsLength(prefix, d, phrase, tokens, i + a);
      SegmentsStep(prefix, d, phrase, tokens, i);
    }
  }

  /** Entry `k` is what the step at the `k`-th cursor emits. */
  lemma {:induction false} CursorsEntries(prefix: string, d: Dict, phrase: Phrasing, tokens: seq<string>, i: nat)
    requires i <= |tokens|
    ensures var c, s := Cursors(d, phrase, tokens, i), SegmentsFrom(prefix, d, phrase, tokens, i);
      |c| == |s| &&
      forall k :: 0 <= k < |c| ==> i <= c[k] < |tokens| && s[k] == EntryAt(prefix, d, phrase, tokens, c[k])
    decreases |tokens| - i
  {
    if i < |tokens| {
      var a := Advance(d, phrase, tokens, i);
      CursorsEntries(prefix, d, phrase, tokens, i + a);
      var c', s' := Cursors(d, phrase, tokens, i + a), SegmentsFrom(prefix, d, phrase, tokens, i + a);
      var c, s := Cursors(d, phrase, tokens, i), SegmentsFrom(prefix, d, phrase, tokens, i);
      assert c == [i] + c';
      assert s == [EntryAt(prefix, d, phrase, tokens, i)] + s';
      forall k | 0 <= k < |c|
        ensures i <= c[k] < |tokens| && s[k] == EntryAt(prefix, d, phrase, tokens, c[k])
      {
        if k > 0 {
          assert c[k] == c'[k - 1] && s[k] == s'[k - 1];
        }
      }
    }
  }

  /** The cursor starts at `i`, moves by the step's advance and the last
      step ends exactly at the end of the tokens. */
  lemma {:induction false} CursorsSteps(d: Dict, phrase: Phrasing, tokens: seq<string>, i: nat)
    requires i <= |tokens|
    ensures var c := Cursors(d, phrase, tokens, i);
      (c != [] ==> c[0] == i && c[|c| - 1] < |tokens| && c[|c| - 1] + Advance(d, phrase, tokens, c[|c| - 1]) == |tokens|) &&
      (forall k :: 0 <= k < |c| - 1 ==> c[k] < |tokens| && c[k + 1] == c[k] + Advance(d, phrase, tokens, c[k]))
  {
    var c := Cursors(d, phrase, tokens, i);
    if c != [] {
      CursorLast(d, phrase, tokens, i);
    }
    forall k | 0 <= k < |c| - 1
      ensures c[k] < |tokens| && c[k + 1] == c[k] + Advance(d, phrase, tokens, c[k])
    {
      CursorNext(d, phrase, tokens, i, k);
    }
  }

  lemma {:induction false} CursorLast(d: Dict, phrase: Phrasing, tokens: seq<string>, i: nat)
    requires i <= |tokens| && Cursors(d, phrase, tokens, i) != []
    ensures var c := Cursors(d, phrase, tokens, i);
      c[0] == i && c[|c| - 1] < |tokens| && c[|c| - 1] + Advance(d, phrase, tokens, c[|c| - 1]) == |tokens|
    decreases |tokens| - i
  {
    var a := Advance(d, phrase, tokens, i);
    var c' := Cursors(d, phrase, tokens, i + a);
    var c := Cursors(d, phrase, tokens, i);
    assert c == [i] + c';
    if c' != [] {
      CursorLast(d, phrase, tokens, i + a);
      var last := c'[|c'| - 1];
      assert c[|c| - 1] == last;
      assert last + Advance(d, phrase, tokens, last) == |tokens|;
    } else {
      assert i + a == |tokens|;
    }
  }

  lemma {:induction false} CursorNext(d: Dict, phrase: Phrasing, tokens: seq<string>, i: nat, k: nat)
    requires i <= |tokens| && k + 1 < |Cursors(d, phrase, tokens, i)|
    ensures var c := Cursors(d, phrase, tokens, i);
      c[k] < |tokens| && c[k + 1] == c[k] + Advance(d, phrase, tokens, c[k])
    decreases k
  {
    var a := Advance(d, phrase, tokens, i);
    var c' := Cursors(d, phrase, tokens, i + a);
    assert Cursors(d, phrase, tokens, i) == [i] + c';
    if k > 0 {
      CursorNext(d, phrase, tokens, i + a, k - 1);
    } else {
      CursorLast(d, phrase, tokens, i + a);
    }
  }

  // ----- filtering the gaps -----

  lemma {:induction false} PresentSnoc(s: seq<Option<string>>, e: Option<string>)
    ensures Present(s + [e]) == Present(s) + (if e.Some? then [e.value] else [])
  {
    assert (s + [e])[..|s|] == s;
  }

  /** Dropping the gaps keeps exactly the URLs: wrapping each kept URL
      again gives precisely the non-null entries, in their order. */
  lemma {:induction false} PresentIsFilter(s: seq<Option<string>>)
    ensures Wrap(Present(s)) == Filter(s, IsSome)
  {
    if s != [] {
      var front, e := s[..|s| - 1], s[|s| - 1];
      PresentIsFilter(front);
      if e.Some? {
        assert Wrap(Present(front) + [e.value]) == Wrap(Present(front)) + [e];
      }
    }
  }

  /** Every URL that survives the filter is the URL of a window of 1 to 4
      consecutive tokens that the dictionary matches. */
  lemma {:induction false} EveryUrlIsAWindow(prefix: string, d: Dict, phrase: Phrasing, tokens: seq<string>, u: string)
    requires u in Present(Segments(prefix, d, phrase, tokens))
    ensures exists a: nat, w: nat :: (1 <= w <= MaxWindow && a + w <= |tokens| &&
                                      Hit(d, Window(phrase, tokens, a, w)) && u == Url(prefix, d, Window(phrase, tokens, a, w)))
  {
    var s := Segments(prefix, d, phrase, tokens);
    var p := Present(s);
    var k :| 0 <= k < |p| && p[k] == u;
    PresentIsFilter(s);
    FilterIsExact(s, IsSome);
    assert Filter(s, IsSome)[k] == Some(u);
    FilterMember(s, IsSome, k);
    var m :| 0 <= m < |s| && s[m] == Some(u);
    CursorsTile(prefix, d, phrase, tokens, 0);
    var a := Cursors(d, phrase, tokens, 0)[m];
    EntryMeaning(prefix, d, phrase, tokens, a);
    var w := Advance(d, phrase, tokens, a);
    assert Hit(d, Window(phrase, tokens, a, w)) && u == Url(prefix, d, Window(phrase, tokens, a, w));
  }

  /** When no window the scan can try (1 to 4 tokens) matches, every token
      is a gap and no URL is left after filtering. The empty key is never
      tried, so the dictionary may hold one. */
  lemma {:induction false} NothingMatches(prefix: string, d: Dict, phrase: Phrasing, tokens: seq<string>, i: nat)
    requires i <= |tokens|
    requires forall a: nat, w: nat :: 1 <= w <= MaxWindow && a + w <= |tokens| ==> !Hit(d, Window(phrase, tokens, a, w))
    ensures |SegmentsFrom(prefix, d, phrase, tokens, i)| == |tokens| - i
    ensures forall k :: 0 <= k < |tokens| - i ==> SegmentsFrom(prefix, d, phrase, tokens, i)[k].None?
    ensures Present(SegmentsFrom(prefix, d, phrase, tokens, i)) == []
    decreases |tokens| - i
  {
    if i < |tokens| {
      UnmatchedTokenIsGap(prefix, d, phrase, tokens, i);
      NothingMatches(prefix, d, phrase, tokens, i + 1);
      var rest := SegmentsFrom(prefix, d, phrase, tokens, i + 1);
      var s := [None] + rest;
      assert SegmentsFrom(prefix, d, phrase, tokens, i) == s;
      assert forall k :: 0 <= k < |s| ==> s[k].None?;
      PresentAllGaps(s);
    }
  }

  lemma {:induction false} PresentAllGaps(s: seq<Option<string>>)
    requires forall k :: 0 <= k < |s| ==> s[k].None?
    ensures Present(s) == []
  {
    if s != [] {
      PresentAllGaps(s[..|s| - 1]);
    }
  }

  // ----- case -----

  /** The key ignores letter case: lowercasing the words first gives the
      same key. */
  ghost predicate CaseBlind(phrase: Phrasing)
  {
    forall ws :: phrase(MapLower(ws)) == phrase(ws)
  }

  /** Lowercasing the joined window makes the components' key blind to
      case. */
  lemma PhraseKeyIsCaseBlind()
    ensures CaseBlind(PhraseKey)
  {
    forall ws: seq<string>
      ensures PhraseKey(MapLower(ws)) == PhraseKey(ws)
    {
      LowerJoin(ws);
      LowerIdempotent(Join(ws));
    }
  }

  /** Two token lists of the same length whose windows all have the same
      keys. */
  ghost predicate SameWindows(phrase: Phrasing, t1: seq<string>, t2: seq<string>)
  {
    |t1| == |t2| &&
    forall i: nat, j: nat :: i + j <= |t1| ==> Window(phrase, t1, i, j) == Window(phrase, t2, i, j)
  }

  lemma {:induction false} MatchWidthAgrees(d: Dict, phrase: Phrasing, t1: seq<string>, t2: seq<string>, i: nat, j: nat)
    requires SameWindows(phrase, t1, t2) && i + j <= |t1|
    ensures MatchWidth(d, phrase, t1, i, j) == MatchWidth(d, phrase, t2, i, j)
    decreases j
  {
    if j > 0 {
      assert Window(phrase, t1, i, j) == Window(phrase, t2, i, j);
      MatchWidthAgrees(d, phrase, t1, t2, i, j - 1);
    }
  }

  lemma {:induction false} StepAgrees(prefix: string, d: Dict, phrase: Phrasing, t1: seq<string>, t2: seq<string>, i: nat)
    requires SameWindows(phrase, t1, t2) && i < |t1|
    ensures EntryAt(prefix, d, phrase, t1, i) == EntryAt(prefix, d, phrase, t2, i)
    ensures Advance(d, phrase, t1, i) == Advance(d, phrase, t2, i)
  {
    MatchWidthAgrees(d, phrase, t1, t2, i, Reach(t1, i));
    var m := MatchWidth(d, phrase, t1, i, Reach(t1, i));
    if m > 0 {
      assert Window(phrase, t1, i, m) == Window(phrase, t2, i, m);
    }
  }

  /** The scan sees the tokens only through the keys of their windows. */
  lemma {:induction false} SegmentsAgree(prefix: string, d: Dict, phrase: Phrasing, t1: seq<string>, t2: seq<string>, i: nat)
    requires SameWindows(phrase, t1, t2) && i <= |t1|
    ensures SegmentsFrom(prefix, d, phrase, t1, i) == SegmentsFrom(prefix, d, phrase, t2, i)
  {
    CursorsAgree(d, phrase, t1, t2, i);
    CursorsEntries(prefix, d, phrase, t1, i);
    CursorsEntries(prefix, d, phrase, t2, i);
    var c := Cursors(d, phrase, t1, i);
    var s1, s2 := SegmentsFrom(prefix, d, phrase, t1, i), SegmentsFrom(prefix, d, phrase, t2, i);
    forall k | 0 <= k < |s1|
      ensures s1[k] == s2[k]
    {
      StepAgrees(prefix, d, phrase, t1, t2, c[k]);
    }
  }

  /** The cursors, too, see the tokens only through their windows. */
  lemma {:induction false} CursorsAgree(d: Dict, phrase: Phrasing, t1: seq<string>, t2: seq<string>, i: nat)
    requires SameWindows(phrase, t1, t2) && i <= |t1|
    ensures Cursors(d, phrase, t1, i) == Cursors(d, phrase, t2, i)
    decreases |t1| - i
  {
    if i < |t1| {
      var a := Advance(d, phrase, t1, i);
      StepAgrees("", d, phrase, t1, t2, i);
      CursorsAgree(d, phrase, t1, t2, i + a);
      CursorsStep(d, phrase, t1, i);
      CursorsStep(d, phrase, t2, i);
    }
  }

  lemma {:induction false} CursorsStep(d: Dict, phrase: Phrasing, tokens: seq<string>, i: nat)
    requires i < |tokens|
    ensures Cursors(d, phrase, tokens, i) == [i] + Cursors(d, phrase, tokens, i + Advance(d, phrase, tokens, i))
  {
  }

  /** A window of the lowercased tokens has the same key as the window of
      the tokens themselves. */
  lemma {:induction false} LoweredSameWindows(phrase: Phrasing, tokens: seq<string>)
    requires CaseBlind(phrase)
    ensures SameWindows(phrase, MapLower(tokens), tokens)
  {
    forall i: nat, j: nat | i + j <= |tokens|
      ensures Window(phrase, MapLower(tokens), i, j) == Window(phrase, tokens, i, j)
    {
      MapLowerSlice(tokens, i, i + j);
      assert phrase(MapLower(tokens[i..i + j])) == phrase(tokens[i..i + j]);
    }
  }

  /** Lowercasing every token first does not change the segmentation. */
  lemma {:induction false} SegmentsOfLowered(prefix: string, d: Dict, phrase: Phrasing, tokens: seq<string>)
    requires CaseBlind(phrase)
    ensures Segments(prefix, d, phrase, MapLower(tokens)) == Segments(prefix, d, phrase, tokens)
  {
    LoweredSameWindows(phrase, tokens);
    SegmentsAgree(prefix, d, phrase, MapLower(tokens), tokens, 0);
  }

  /** Token lists that differ only in letter case segment identically
      under the components' key. */
  lemma {:induction false} SegmentsIgnoreCase(prefix: string, d: Dict, t1: seq<string>, t2: seq<string>)
    requires MapLower(t1) == MapLower(t2)
    ensures Segments(prefix, d, PhraseKey, t1) == Segments(prefix, d, PhraseKey, t2)
  {
    PhraseKeyIsCaseBlind();
    SegmentsOfLowered(prefix, d, PhraseKey, t1);
    SegmentsOfLowered(prefix, d, PhraseKey, t2);
  }
}
