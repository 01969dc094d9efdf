/** src/SignLanguageDisplay.jsx: the JavaScript display component with
    loading and error state. Its scan pushes `null` for an unmatched word
    and filters the nulls out afterwards; otherwise it tokenises, segments
    and plays the clips as the TypeScript component does, without the
    progress bar. */
module DisplayJsx {
  import opened Seqs
  import opened Text
  import opened Segmenter
  import DisplayTsx

  /** `getBaseUrl()`. */
  const BaseUrl: string := ""

  /** One pass of the outer `while (i < words.length)` loop at cursor `i`:
      the inner loop over `j = min(4, n - i), ..., 1` pushes the URL of the
      widest matching window and moves past it; when nothing matched, the
      one-word retry fails and the pass pushes `null` and moves by one. The
      pass appends exactly the scan's entry at `i`, gap included. */
  method ScanAt(d: Dict, words: seq<string>, i0: nat, urls0: seq<Option<string>>)
      returns (urls: seq<Option<string>>, i: nat)
    requires i0 < |words|
    ensures i == i0 + Advance(d, PhraseKey, words, i0)
    ensures urls == urls0 + [EntryAt(BaseUrl, d, PhraseKey, words, i0)]
  {
    urls, i := urls0, i0;
    var foundPhrase := false;
    var j := Min(MaxWindow, |words| - i);
    while j > 0
      invariant 0 <= j <= Reach(words, i0)
      invariant forall k :: j < k <= Reach(words, i0) ==> !Hit(d, Window(PhraseKey, words, i0, k))
      invariant i == i0 && urls == urls0 && !foundPhrase
      decreases j
    {
      var phrase := Lower(Join(words[i..i + j]));
      assert phrase == Window(PhraseKey, words, i0, j);
      if Hit(d, phrase) {
        var videoPath := BaseUrl + "/" + d[phrase];
        MatchWidthIs(d, PhraseKey, words, i0, Reach(words, i0), j);
        urls := urls + [Some(videoPath)];
        i := i + j;
        foundPhrase := true;
        break;
      }
      j := j - 1;
    }
    if !foundPhrase {
      MatchWidthIs(d, PhraseKey, words, i0, Reach(words, i0), 0);
      var word := Lower(words[i]);
      GapFallbackMisses(BaseUrl, d, words, i);
      if Hit(d, word) {
        // The source pushes `${getBaseUrl()}/${dictionary[word]}` here;
        // the inner loop already tried this key, so the branch is dead.
        assert false;
      } else {
        urls := urls + [None];
      }
      i := i + 1;
    }
  }

  /** The scan loop of `generateSignLanguage`: the list it builds, nulls
      included, is the scan's whole output. */
  method GenerateUrls(d: Dict, words: seq<string>) returns (urls: seq<Option<string>>)
    ensures urls == Segments(BaseUrl, d, PhraseKey, words)
  {
    urls := [];
    var i := 0;
    while i < |words|
      invariant 0 <= i <= |words|
      invariant urls + SegmentsFrom(BaseUrl, d, PhraseKey, words, i) == Segments(BaseUrl, d, PhraseKey, words)
      decreases |words| - i
    {
      ghost var i0, urls0 := i, urls;
      urls, i := ScanAt(d, words, i, urls);
      ScanStep(BaseUrl, d, PhraseKey, words, urls0, i0, urls, i);
    }
    assert urls == Segments(BaseUrl, d, PhraseKey, words);
  }

  /** The list the component stores, the scan's URLs without its gaps, is
      the list the TypeScript component stores for the same text. */
  lemma {:induction false} SameUrlsAsTsx(d: Dict, text: string, raw: seq<Option<string>>)
    requires raw == Segments(BaseUrl, d, PhraseKey, DisplayTsx.Words(text))
    ensures Present(raw) == DisplayTsx.UrlsFor(d, text)
  {
    assert BaseUrl == DisplayTsx.BaseUrl;
  }

  /** Texts that differ only in letter case give the same list, gaps
      included. */
  lemma UrlsIgnoreCase(d: Dict, t1: string, t2: string)
    requires Lower(t1) == Lower(t2)
    ensures Segments(BaseUrl, d, PhraseKey, DisplayTsx.Words(t1)) == Segments(BaseUrl, d, PhraseKey, DisplayTsx.Words(t2))
  {
    assert BaseUrl == DisplayTsx.BaseUrl;
    DisplayTsx.UrlsIgnoreCase(d, t1, t2);
  }

  /** The component's state cells. */
  class SignLanguageDisplay {
    const dictionary: Dict
    var videoUrls: seq<string>
    var currentVideoIndex: nat
    var loading: bool
    var error: Option<string>
    /** Advances scheduled by `setTimeout(() => handleVideoEnded(), 1000)`
        that have not run yet; nothing ever cancels them. */
    var pendingAdvances: nat

    constructor (dictionary: Dict)
      ensures this.dictionary == dictionary
      ensures videoUrls == [] && currentVideoIndex == 0 && !loading && error == None
      ensures pendingAdvances == 0
    {
      this.dictionary := dictionary;
      videoUrls := [];
      currentVideoIndex := 0;
      loading := false;
      error := None;
      pendingAdvances := 0;
    }

    /** `generateSignLanguage(text)`, run by the effect whenever `text`
        changes. Blank text empties the list and keeps the index; other text
        stores the non-null URLs of the scan, which is the list the
        TypeScript component stores for the same text, and rewinds to the
        first clip. */
    method GenerateSignLanguage(text: string)
      modifies this
      ensures !loading && error == None
      ensures Trim(text) == "" ==> videoUrls == [] && currentVideoIndex == old(currentVideoIndex)
      ensures Trim(text) != "" ==> videoUrls == DisplayTsx.UrlsFor(dictionary, text) && currentVideoIndex == 0
      ensures pendingAdvances == old(pendingAdvances)
    {
      loading := true;
      error := None;
      if text == "" || Trim(text) == "" {
        videoUrls := [];
        loading := false;
        return;
      }
      var urls := GenerateUrls(dictionary, DisplayTsx.Words(text));
      var present := Present(urls);
      SameUrlsAsTsx(dictionary, text, urls);
      videoUrls := present;
      currentVideoIndex := 0;
      loading := false;
    }

    /** `handleVideoEnded`: the functional update `prevIndex + 1`, without
        a clamp. */
    method HandleVideoEnded()
      modifies this
      ensures currentVideoIndex == old(currentVideoIndex) + 1
      ensures videoUrls == old(videoUrls) && loading == old(loading) && error == old(error)
      ensures pendingAdvances == old(pendingAdvances)
    {
      currentVideoIndex := currentVideoIndex + 1;
    }

    /** `handleVideoError`: show which clip failed and schedule one advance
        in 1000 ms. */
    method HandleVideoError()
      modifies this
      ensures error == Some(DisplayTsx.ErrorMessage(videoUrls, currentVideoIndex))
      ensures pendingAdvances == old(pendingAdvances) + 1
      ensures videoUrls == old(videoUrls) && currentVideoIndex == old(currentVideoIndex)
      ensures loading == old(loading)
    {
      error := Some(DisplayTsx.ErrorMessage(videoUrls, currentVideoIndex));
      pendingAdvances := pendingAdvances + 1;
    }

    /** One scheduled advance runs; the message stays. */
    method AdvanceTimerFires()
      requires pendingAdvances > 0
      modifies this
      ensures pendingAdvances == old(pendingAdvances) - 1
      ensures currentVideoIndex == old(currentVideoIndex) + 1
      ensures videoUrls == old(videoUrls) && loading == old(loading) && error == old(error)
    {
      pendingAdvances := pendingAdvances - 1;
      HandleVideoEnded();
    }

    /** The Restart button: `setCurrentVideoIndex(0)`. It is rendered only
        when there are clips and can be clicked only when it is enabled. */
    method Restart()
      requires ShowsControls() && !RestartDisabled()
      modifies this
      ensures currentVideoIndex == 0
      ensures videoUrls == old(videoUrls) && loading == old(loading) && error == old(error)
      ensures pendingAdvances == old(pendingAdvances)
    {
      currentVideoIndex := 0;
    }

    /** "Loading videos..." */
    predicate ShowsLoading()
      reads this
    {
      loading
    }

    /** "Playing video i+1 of n" and the video element. */
    predicate IsPlaying()
      reads this
    {
      |videoUrls| > 0 && currentVideoIndex < |videoUrls|
    }

    /** The clip the video element plays. */
    function CurrentSource(): string
      reads this
      requires IsPlaying()
    {
      videoUrls[currentVideoIndex]
    }

    /** "All videos have been played." */
    predicate ShowsFinished()
      reads this
    {
      |videoUrls| > 0 && currentVideoIndex >= |videoUrls|
    }

    /** "No sign language videos available for the provided text." */
    predicate ShowsNoVideos()
      reads this
    {
      !loading && |videoUrls| == 0
    }

    /** The Restart button is shown. */
    predicate ShowsControls()
      reads this
    {
      |videoUrls| > 0
    }

    /** `disabled={currentVideoIndex === 0 && videoUrls.length > 0}`. */
    predicate RestartDisabled()
      reads this
    {
      currentVideoIndex == 0 && |videoUrls| > 0
    }
  }

  /** Where the Restart button is shown, it is disabled exactly at the
      first clip, as in the TypeScript component: the extra length test in
      its `disabled` condition changes nothing there. */
  lemma RestartDisabledAtStart(s: SignLanguageDisplay)
    requires s.ShowsControls()
    ensures s.RestartDisabled() <==> s.currentVideoIndex == 0
  {
  }
}
