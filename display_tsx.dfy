/** components/sign-language-display.tsx: the TypeScript display component.
    It trims the text, splits it on runs of white space, segments it with
    the greedy longest-match rule, drops unmatched words and plays the
    resulting clips one after another, with an error skip, a restart button
    and a progress bar. */
module DisplayTsx {
  import opened Seqs
  import opened Text
  import opened Segmenter

  /** `getBaseUrl()`. */
  const BaseUrl: string := ""

  /** `text.trim().split(/\s+/)`. */
  function Words(text: string): seq<string>
  {
    SplitRuns(Trim(text))
  }

  /** Tokenising gives back any list of words written out with single
      spaces, as long as every word is non-empty and has no white space in
      it: punctuation and letter case stay as they are in the tokens. */
  lemma WordsOfJoin(ws: seq<string>)
    requires |ws| >= 1 && forall k :: 0 <= k < |ws| ==> ws[k] != "" && NoSpace(ws[k])
    ensures Words(Join(ws)) == ws
  {
    var s := Join(ws);
    JoinStartsWithWord(ws);
    JoinEndsWithWord(ws);
    assert !IsSpace(s[0]) && !IsSpace(s[|s| - 1]);
    assert TrimStart(s) == s;
    assert Trim(s) == s;
    SplitRunsJoin(ws);
  }

  /** The URL list the component stores for a non-blank text. */
  function UrlsFor(d: Dict, text: string): seq<string>
  {
    Present(Segments(BaseUrl, d, PhraseKey, Words(text)))
  }

  /** Texts that differ only in letter case are both blank or both not,
      and get the same scan and the same clips. */
  lemma UrlsIgnoreCase(d: Dict, t1: string, t2: string)
    requires Lower(t1) == Lower(t2)
    ensures Trim(t1) == "" <==> Trim(t2) == ""
    ensures Segments(BaseUrl, d, PhraseKey, Words(t1)) == Segments(BaseUrl, d, PhraseKey, Words(t2))
    ensures UrlsFor(d, t1) == UrlsFor(d, t2)
  {
    LowerTrim(t1);
    LowerTrim(t2);
    assert |Lower(Trim(t1))| == |Trim(t1)| && |Lower(Trim(t2))| == |Trim(t2)|;
    LowerSplitRuns(Trim(t1));
    LowerSplitRuns(Trim(t2));
    SegmentsIgnoreCase(BaseUrl, d, Words(t1), Words(t2));
  }

  /** One pass of the outer `while (i < words.length)` loop at cursor `i`.
      The inner `for (let j = Math.min(4, words.length - i); j > 0; j--)`
      loop tries the widest window first; on the first match it pushes that
      window's URL, moves the cursor past it and stops. When no window
      matched, the one-word retry runs and the cursor moves by one. The pass
      pushes the scan's entry at `i` when it is a URL, nothing for a gap, and
      moves by the scan's advance. */
  method ScanAt(d: Dict, words: seq<string>, i0: nat, urls0: seq<string>)
      returns (urls: seq<string>, i: nat)
    requires i0 < |words|
    ensures var e := EntryAt(BaseUrl, d, PhraseKey, words, i0);
      i == i0 + Advance(d, PhraseKey, words, i0) &&
      urls == urls0 + (if e.Some? then [e.value] else [])
  {
    urls, i := urls0, i0;
    var foundPhrase := false;
    var j := Min(MaxWindow, |words| - i);
    while j > 0
      invariant 0 <= j <= Reach(words, i0)
      invariant forall k :: j < k <= Reach(words, i0) ==> !Hit(d, Window(PhraseKey, words, i0, k))
      invariant i == i0 && urls == urls0 && !foundPhrase
      decreases j
    {
      var phrase := Lower(Join(words[i..i + j]));
      assert phrase == Window(PhraseKey, words, i0, j);
      if Hit(d, phrase) {
        var videoPath := BaseUrl + "/" + d[phrase];
        MatchWidthIs(d, PhraseKey, words, i0, Reach(words, i0), j);
        urls := urls + [videoPath];
        i := i + j;
        foundPhrase := true;
        break;
      }
      j := j - 1;
    }
    if !foundPhrase {
      MatchWidthIs(d, PhraseKey, words, i0, Reach(words, i0), 0);
      var word := Lower(words[i]);
      GapFallbackMisses(BaseUrl, d, words, i);
      if Hit(d, word) {
        // The source pushes `${getBaseUrl()}/${dictionaryTyped[word]}` here;
        // the inner loop already tried this key, so the branch is dead.
        assert false;
      }
      i := i + 1;
    }
  }

  /** The body of `generateSignLanguage` after the blank-text guard and
      the tokenisation: the scan loop, which pushes a URL per matched window
      and nothing for an unmatched word. */
  method GenerateUrls(d: Dict, words: seq<string>) returns (urls: seq<string>)
    ensures urls == Present(Segments(BaseUrl, d, PhraseKey, words))
  {
    urls := [];
    ghost var raw: seq<Option<string>> := [];
    var i := 0;
    while i < |words|
      invariant 0 <= i <= |words|
      invariant raw + SegmentsFrom(BaseUrl, d, PhraseKey, words, i) == Segments(BaseUrl, d, PhraseKey, words)
      invariant urls == Present(raw)
      decreases |words| - i
    {
      ghost var i0, urls0 := i, urls;
      urls, i := ScanAt(d, words, i, urls);
      raw := ScanPass(BaseUrl, d, PhraseKey, words, raw, i0, urls0, i, urls);
    }
    assert raw == Segments(BaseUrl, d, PhraseKey, words);
  }

  /** `(currentVideoIndex / videoUrls.length) * 100`, exactly. */
  function Percent(index: nat, total: nat): real
    requires total > 0
  {
    (index as real / total as real) * 100.0
  }

  /** The progress bar stays within 0..100 while the index is within the
      list, reads 0 at the first clip and 100 exactly when every clip has
      been played. */
  lemma PercentBounds(index: nat, total: nat)
    requires total > 0 && index <= total
    ensures 0.0 <= Percent(index, total) <= 100.0
    ensures Percent(index, total) == 0.0 <==> index == 0
    ensures Percent(index, total) == 100.0 <==> index == total
  {
    var q := index as real / total as real;
    assert q * (total as real) == index as real;
    if index < total {
      assert q < 1.0;
    }
  }

  /** `Unable to load video file: ${videoUrls[currentVideoIndex]}`; a
      template literal shows an index past the end as `undefined`. */
  function ErrorMessage(urls: seq<string>, index: nat): string
  {
    "Unable to load video file: " + (if index < |urls| then urls[index] else "undefined")
  }

  /** The component's state cells. React's batching makes each handler's
      updates take effect together; the progress effect runs after each of
      them. */
  class SignLanguageDisplay {
    const dictionary: Dict
    var videoUrls: seq<string>
    var currentVideoIndex: nat
    var loading: bool
    var error: Option<string>
    var progress: real
    /** Advances scheduled by `setTimeout(() => handleVideoEnded(), 1000)`
        that have not run yet; nothing ever cancels them. */
    var pendingAdvances: nat

    /** The progress bar agrees with the index whenever there are clips. */
    ghost predicate Valid()
      reads this
    {
      |videoUrls| > 0 ==> progress == Percent(currentVideoIndex, |videoUrls|)
    }

    constructor (dictionary: Dict)
      ensures this.dictionary == dictionary
      ensures videoUrls == [] && currentVideoIndex == 0 && !loading && error == None
      ensures progress == 0.0 && pendingAdvances == 0
      ensures Valid()
    {
      this.dictionary := dictionary;
      videoUrls := [];
      currentVideoIndex := 0;
      loading := false;
      error := None;
      progress := 0.0;
      pendingAdvances := 0;
    }

    /** The progress effect: recomputed only when there are clips. */
    method SyncProgress()
      modifies this`progress
      ensures progress == if |videoUrls| > 0 then Percent(currentVideoIndex, |videoUrls|) else old(progress)
      ensures Valid()
    {
      if |videoUrls| > 0 {
        progress := Percent(currentVideoIndex, |videoUrls|);
      }
    }

    /** `generateSignLanguage(text)`, run by the effect whenever `text`
        changes. Blank text empties the list but keeps the index; other text
        stores the segmented URLs and rewinds to the first. The error is
        cleared either way, and a pending error skip is not cancelled. */
    method GenerateSignLanguage(text: string)
      modifies this
      ensures !loading && error == None
      ensures Trim(text) == "" ==> videoUrls == [] && currentVideoIndex == old(currentVideoIndex)
      ensures Trim(text) != "" ==> videoUrls == UrlsFor(dictionary, text) && currentVideoIndex == 0
      ensures progress == if |videoUrls| > 0 then Percent(currentVideoIndex, |videoUrls|) else old(progress)
      ensures pendingAdvances == old(pendingAdvances)
      ensures Valid()
    {
      loading := true;
      error := None;
      if text == "" || Trim(text) == "" {
        videoUrls := [];
        loading := false;
        SyncProgress();
        return;
      }
      var urls := GenerateUrls(dictionary, Words(text));
      videoUrls := urls;
      currentVideoIndex := 0;
      loading := false;
      SyncProgress();
    }

    /** `handleVideoEnded`: the functional update `prevIndex + 1`, without
        a clamp. */
    method HandleVideoEnded()
      requires Valid()
      modifies this
      ensures currentVideoIndex == old(currentVideoIndex) + 1
      ensures videoUrls == old(videoUrls) && loading == old(loading) && error == old(error)
      ensures pendingAdvances == old(pendingAdvances)
      ensures progress == if |videoUrls| > 0 then Percent(currentVideoIndex, |videoUrls|) else old(progress)
      ensures Valid()
    {
      currentVideoIndex := currentVideoIndex + 1;
      SyncProgress();
    }

    /** `handleVideoError`: show which clip failed and schedule one advance
        in 1000 ms. The index does not move yet. */
    method HandleVideoError()
      requires Valid()
      modifies this
      ensures error == Some(ErrorMessage(videoUrls, currentVideoIndex))
      ensures pendingAdvances == old(pendingAdvances) + 1
      ensures videoUrls == old(videoUrls) && currentVideoIndex == old(currentVideoIndex)
      ensures loading == old(loading) && progress == old(progress)
      ensures Valid()
    {
      error := Some(ErrorMessage(videoUrls, currentVideoIndex));
      pendingAdvances := pendingAdvances + 1;
    }

    /** One scheduled advance runs: it is `handleVideoEnded`, applied to
        whatever the index is by then, and it leaves the message shown. */
    method AdvanceTimerFires()
      requires Valid() && pendingAdvances > 0
      modifies this
      ensures pendingAdvances == old(pendingAdvances) - 1
      ensures currentVideoIndex == old(currentVideoIndex) + 1
      ensures videoUrls == old(videoUrls) && loading == old(loading) && error == old(error)
      ensures progress == if |videoUrls| > 0 then Percent(currentVideoIndex, |videoUrls|) else old(progress)
      ensures Valid()
    {
      pendingAdvances := pendingAdvances - 1;
      HandleVideoEnded();
    }

    /** The Restart button: `setCurrentVideoIndex(0)`. It is rendered only
        when there are clips and can be clicked only when it is enabled. */
    method Restart()
      requires Valid() && ShowsControls() && !RestartDisabled()
      modifies this
      ensures currentVideoIndex == 0
      ensures videoUrls == old(videoUrls) && loading == old(loading) && error == old(error)
      ensures pendingAdvances == old(pendingAdvances)
      ensures progress == 0.0
      ensures Valid()
    {
      currentVideoIndex := 0;
      SyncProgress();
    }

    /** "Loading videos..." */
    predicate ShowsLoading()
      reads this
    {
      loading
    }

    /** "No sign language videos available." */
    predicate ShowsNoVideos()
      reads this
    {
      !loading && |videoUrls| == 0
    }

    /** "Playing video i+1 of n" and the video element. */
    predicate IsPlaying()
      reads this
    {
      |videoUrls| > 0 && currentVideoIndex < |videoUrls|
    }

    /** "All videos have been played." */
    predicate ShowsFinished()
      reads this
    {
      |videoUrls| > 0 && currentVideoIndex >= |videoUrls|
    }

    /** The Restart button and the progress bar are shown. */
    predicate ShowsControls()
      reads this
    {
      |videoUrls| > 0
    }

    predicate RestartDisabled()
      reads this
    {
      currentVideoIndex == 0
    }

    /** The clip the video element plays. */
    function CurrentSource(): string
      reads this
      requires IsPlaying()
    {
      videoUrls[currentVideoIndex]
    }
  }

  /** With clips, the player shows exactly one of "playing" and "all
      played", and the controls are shown; without clips it shows neither. */
  lemma PlayerShowsOneThing(s: SignLanguageDisplay)
    ensures s.ShowsControls() <==> (s.IsPlaying() || s.ShowsFinished())
    ensures !(s.IsPlaying() && s.ShowsFinished())
  {
  }
}
