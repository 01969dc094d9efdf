/** src/SignLanguageDisplay.js: the earliest display component. It splits
    the text on single spaces without trimming, keeps a `null` in its list
    for every unmatched word, prefixes the clip paths with the deployment's
    public URL and only ever moves forward through the clips. */
module DisplayJs {
  import opened Seqs
  import opened Text
  import opened Segmenter

  /** `text.split(' ')`. */
  function Words(text: string): seq<string>
  {
    SplitOnSpace(text)
  }

  /** The tokens keep the whole text: joined with single spaces they give
      it back, and there is one more of them than the text has spaces, so
      leading, trailing and doubled spaces give empty tokens, which the scan
      looks up like any other. */
  lemma WordsKeepEverything(text: string)
    ensures Join(Words(text)) == text
    ensures |Words(text)| == CountChar(text, ' ') + 1
  {
    JoinSplitOnSpace(text);
    SplitOnSpaceLength(text);
  }

  /** Tokenising gives back any list of words without a space in them
      written out with single spaces, empty words included. */
  lemma WordsOfJoin(ws: seq<string>)
    requires |ws| >= 1 && forall k :: 0 <= k < |ws| ==> ' ' !in ws[k]
    ensures Words(Join(ws)) == ws
  {
    SplitOnSpaceJoin(ws);
  }

  /** One pass of the outer `while (i < words.length)` loop at cursor `i`
      under the prefix `publicUrl` (`process.env.PUBLIC_URL`): it appends
      exactly the scan's entry at `i`, `null` for a gap, and moves by the
      scan's advance. */
  method ScanAt(publicUrl: string, d: Dict, words: seq<string>, i0: nat, urls0: seq<Option<string>>)
      returns (urls: seq<Option<string>>, i: nat)
    requires i0 < |words|
    ensures i == i0 + Advance(d, PhraseKey, words, i0)
    ensures urls == urls0 + [EntryAt(publicUrl, d, PhraseKey, words, i0)]
  {
    urls, i := urls0, i0;
    var foundPhrase := false;
    var j := Min(MaxWindow, |words| - i);
    while j > 0
      invariant 0 <= j <= Reach(words, i0)
      invariant forall k :: j < k <= Reach(words, i0) ==> !Hit(d, Window(PhraseKey, words, i0, k))
      invariant i == i0 && urls == urls0 && !foundPhrase
      decreases j
    {
      var phrase := Lower(Join(words[i..i + j]));
      assert phrase == Window(PhraseKey, words, i0, j);
      if Hit(d, phrase) {
        MatchWidthIs(d, PhraseKey, words, i0, Reach(words, i0), j);
        urls := urls + [Some(publicUrl + "/" + d[phrase])];
        i := i + j;
        foundPhrase := true;
        break;
      }
      j := j - 1;
    }
    if !foundPhrase {
      MatchWidthIs(d, PhraseKey, words, i0, Reach(words, i0), 0);
      var word := Lower(words[i]);
      GapFallbackMisses(publicUrl, d, words, i);
      if Hit(d, word) {
        // The source pushes `${process.env.PUBLIC_URL}/${dictionary[word]}`
        // here; the inner loop already tried this key, so the branch is dead.
        assert false;
      } else {
        urls := urls + [None];
      }
      i := i + 1;
    }
  }

  /** The scan loop of `generateSignLanguage`: the list it builds, nulls
      included, is the scan's whole output. */
  method GenerateUrls(publicUrl: string, d: Dict, words: seq<string>) returns (urls: seq<Option<string>>)
    ensures urls == Segments(publicUrl, d, PhraseKey, words)
  {
    urls := [];
    var i := 0;
    while i < |words|
      invariant 0 <= i <= |words|
      invariant urls + SegmentsFrom(publicUrl, d, PhraseKey, words, i) == Segments(publicUrl, d, PhraseKey, words)
      decreases |words| - i
    {
      ghost var i0, urls0 := i, urls;
      urls, i := ScanAt(publicUrl, d, words, i, urls);
      ScanStep(publicUrl, d, PhraseKey, words, urls0, i0, urls, i);
    }
    assert urls == Segments(publicUrl, d, PhraseKey, words);
  }

  /** Texts that differ only in letter case are both empty or both not,
      and get the same list, gaps included. */
  lemma UrlsIgnoreCase(publicUrl: string, d: Dict, t1: string, t2: string)
    requires Lower(t1) == Lower(t2)
    ensures t1 == "" <==> t2 == ""
    ensures Segments(publicUrl, d, PhraseKey, Words(t1)) == Segments(publicUrl, d, PhraseKey, Words(t2))
  {
    assert |Lower(t1)| == |t1| && |Lower(t2)| == |t2|;
    LowerSplitOnSpace(t1);
    LowerSplitOnSpace(t2);
    SegmentsIgnoreCase(publicUrl, d, Words(t1), Words(t2));
  }

  /** The component's state cells. The list keeps its nulls: a `null`
      entry is still a clip slot, played as a video element without a
      source. */
  class SignLanguageDisplay {
    const dictionary: Dict
    /** `process.env.PUBLIC_URL`, fixed at build time. */
    const publicUrl: string
    var videoUrls: seq<Option<string>>
    var currentVideoIndex: nat

    constructor (dictionary: Dict, publicUrl: string)
      ensures this.dictionary == dictionary && this.publicUrl == publicUrl
      ensures videoUrls == [] && currentVideoIndex == 0
    {
      this.dictionary := dictionary;
      this.publicUrl := publicUrl;
      videoUrls := [];
      currentVideoIndex := 0;
    }

    /** `generateSignLanguage(text)`: store the scan's entries, nulls
        included, and rewind to the first. */
    method GenerateSignLanguage(text: string)
      modifies this
      ensures videoUrls == Segments(publicUrl, dictionary, PhraseKey, Words(text))
      ensures currentVideoIndex == 0
    {
      var urls := GenerateUrls(publicUrl, dictionary, Words(text));
      videoUrls := urls;
      currentVideoIndex := 0;
    }

    /** The effect on `text`: `if (text) generateSignLanguage(text)`. The
        empty text is falsy and leaves everything as it was. */
    method TextChanged(text: string)
      modifies this
      ensures text == "" ==> videoUrls == old(videoUrls) && currentVideoIndex == old(currentVideoIndex)
      ensures text != "" ==> videoUrls == Segments(publicUrl, dictionary, PhraseKey, Words(text)) && currentVideoIndex == 0
    {
      if text != "" {
        GenerateSignLanguage(text);
      }
    }

    /** `handleVideoEnded`: the functional update `prevIndex + 1`; it is the
        only way the index moves besides a new text. */
    method HandleVideoEnded()
      modifies this
      ensures currentVideoIndex == old(currentVideoIndex) + 1
      ensures videoUrls == old(videoUrls)
    {
      currentVideoIndex := currentVideoIndex + 1;
    }

    /** The video element is rendered. */
    predicate IsPlaying()
      reads this
    {
      |videoUrls| > 0 && currentVideoIndex < |videoUrls|
    }

    /** The `src` of the rendered video element; `None` is a `null` entry. */
    function CurrentSource(): Option<string>
      reads this
      requires IsPlaying()
    {
      videoUrls[currentVideoIndex]
    }
  }

  /** Once the index has passed the last slot nothing is rendered. */
  lemma PastTheEndShowsNothing(s: SignLanguageDisplay)
    requires s.currentVideoIndex >= |s.videoUrls|
    ensures !s.IsPlaying()
  {
  }
}
