/** new.py: the `ISLTranslator` back end. Its state is six lists that the
    pipeline steps fill and rewrite one after another: the sentences, the
    words of each sentence and their pipeline records, the words left after
    filtering and lemma substitution, and the final output in which words
    outside the known vocabulary are spelled out letter by letter. */
module Translator {
  import opened Seqs
  import opened Text
  import opened Nlp

  // ----- _clean_input -----

  /** The characters Python's `str.isspace` accepts among the ASCII ones:
      the six white-space characters and the four separators 0x1C-0x1F. */
  predicate IsPySpace(c: char)
  {
    IsSpace(c) || ('\U{1C}' <= c <= '\U{1F}')
  }

  /** `str.lstrip()`: the suffix left after the leading white space. */
  function StripStart(s: string): (r: string)
    ensures r == [] || !IsPySpace(r[0])
  {
    if s != [] && IsPySpace(s[0]) then StripStart(s[1..]) else s
  }

  /** `str.rstrip()`: the prefix left before the trailing white space. */
  function StripEnd(s: string): (r: string)
    ensures |r| <= |s| && r == s[..|r|]
    ensures r == [] || !IsPySpace(r[|r| - 1])
  {
    if s != [] && IsPySpace(s[|s| - 1]) then StripEnd(s[..|s| - 1]) else s
  }

  /** `lstrip()` keeps a suffix and drops only white space. */
  lemma {:induction false} StripStartDropsSpace(s: string)
    ensures |StripStart(s)| <= |s| && StripStart(s) == s[|s| - |StripStart(s)|..]
    ensures forall k :: 0 <= k < |s| - |StripStart(s)| ==> IsPySpace(s[k])
  {
    if s != [] && IsPySpace(s[0]) {
      StripStartDropsSpace(s[1..]);
    }
  }

  /** `rstrip()` keeps a prefix and drops only white space. */
  lemma {:induction false} StripEndDropsSpace(s: string)
    ensures forall k :: |StripEnd(s)| <= k < |s| ==> IsPySpace(s[k])
  {
    if s != [] && IsPySpace(s[|s| - 1]) {
      StripEndDropsSpace(s[..|s| - 1]);
    }
  }

  /** `str.strip()`. */
  function Strip(s: string): (r: string)
    ensures r == [] || (!IsPySpace(r[0]) && !IsPySpace(r[|r| - 1]))
  {
    var t := StripStart(s);
    assert t == [] || !IsPySpace(t[0]);
    StripEnd(t)
  }

  /** `strip()` keeps a contiguous middle of the text and drops only the
      white space before and after it. */
  lemma StripDropsOnlySpace(s: string)
    ensures exists a, b :: (0 <= a <= b <= |s| && Strip(s) == s[a..b] &&
                            (forall k :: 0 <= k < a ==> IsPySpace(s[k])) &&
                            (forall k :: b <= k < |s| ==> IsPySpace(s[k])))
  {
    var t := StripStart(s);
    var a := |s| - |t|;
    StripStartDropsSpace(s);
    StripEndDropsSpace(t);
    var b := a + |StripEnd(t)|;
    assert Strip(s) == s[a..b];
  }

  /** A string that starts and ends with a non-space is its own strip. */
  lemma StripStripped(s: string)
    requires s == [] || (!IsPySpace(s[0]) && !IsPySpace(s[|s| - 1]))
    ensures Strip(s) == s
  {
  }

  /** `s.replace(c, "")` for a one-character `c`. */
  function Without(s: string, c: char): (r: string)
    ensures c !in r
  {
    if s == [] then []
    else Without(s[..|s| - 1], c) + (if s[|s| - 1] == c then [] else [s[|s| - 1]])
  }

  /** Removing `c` removes nothing else: every other character occurs in
      the result exactly when it occurs in the input. */
  lemma {:induction false} WithoutKeepsOthers(s: string, c: char, d: char)
    requires d != c
    ensures d in Without(s, c) <==> d in s
  {
    if s != [] {
      var front := s[..|s| - 1];
      WithoutKeepsOthers(front, c, d);
      assert s == front + [s[|s| - 1]];
    }
  }

  /** `replace(c, "")` keeps the other characters in order and with their
      counts: it is the filter that drops `c`. */
  lemma {:induction false} WithoutIsFilter(s: string, c: char)
    ensures Without(s, c) == Filter(s, x => x != c)
    ensures IsSubseq(Without(s, c), s) && |Without(s, c)| == Count(s, x => x != c)
  {
    if s != [] {
      WithoutIsFilter(s[..|s| - 1], c);
    }
    FilterIsExact(s, x => x != c);
  }

  /** Removal works piece by piece. */
  lemma {:induction false} WithoutAppend(a: string, b: string, c: char)
    ensures Without(a + b, c) == Without(a, c) + Without(b, c)
    decreases |b|
  {
    if b == [] {
      assert a + b == a;
    } else {
      var front := b[..|b| - 1];
      assert (a + b)[..|a + b| - 1] == a + front;
      assert (a + b)[|a + b| - 1] == b[|b| - 1];
      WithoutAppend(a, front, c);
    }
  }

  /** A string without `c` is left as it is. */
  lemma {:induction false} WithoutAbsent(s: string, c: char)
    requires c !in s
    ensures Without(s, c) == s
  {
    if s != [] {
      var front := s[..|s| - 1];
      assert front + [s[|s| - 1]] == s;
      WithoutAbsent(front, c);
    }
  }

  /** The first and the last character survive when they are not `c`. */
  lemma {:induction false} WithoutKeepsEnds(s: string, c: char)
    requires s != [] && s[0] != c && s[|s| - 1] != c
    ensures Without(s, c) != [] && Without(s, c)[0] == s[0]
    ensures Without(s, c)[|Without(s, c)| - 1] == s[|s| - 1]
  {
    WithoutKeepsFirst(s, c);
  }

  lemma {:induction false} WithoutKeepsFirst(s: string, c: char)
    requires s != [] && s[0] != c
    ensures Without(s, c) != [] && Without(s, c)[0] == s[0]
  {
    var front := s[..|s| - 1];
    if front != [] {
      WithoutKeepsFirst(front, c);
    }
  }

  /** The characters `_clean_input` keeps after stripping. */
  predicate NotNewlineOrTab(x: char)
  {
    x != '\n' && x != '\t'
  }

  /** Removing newlines and then tabs is one filter over both. */
  lemma {:induction false} WithoutNewlinesAndTabs(s: string)
    ensures Without(Without(s, '\n'), '\t') == Filter(s, NotNewlineOrTab)
  {
    if s != [] {
      var front, x := s[..|s| - 1], s[|s| - 1];
      WithoutNewlinesAndTabs(front);
      var once := if x == '\n' then [] else [x];
      assert Without(s, '\n') == Without(front, '\n') + once;
      WithoutAppend(Without(front, '\n'), once, '\t');
      if once != [] {
        assert once == [x] && Without(once, '\t') == Without([], '\t') + (if x == '\t' then [] else [x]);
      }
    }
  }

  /** `_clean_input`: `text.strip().replace("\n", "").replace("\t", "")`. */
  function CleanInput(text: string): string
  {
    Without(Without(Strip(text), '\n'), '\t')
  }

  /** The cleaned text has no newline and no tab, keeps every other
      character of the stripped text, and neither starts nor ends with
      white space. */
  lemma CleanInputMeaning(text: string, d: char)
    requires d != '\n' && d != '\t'
    ensures '\n' !in CleanInput(text) && '\t' !in CleanInput(text)
    ensures d in CleanInput(text) <==> d in Strip(text)
    ensures var r := CleanInput(text); r == [] || (!IsPySpace(r[0]) && !IsPySpace(r[|r| - 1]))
    ensures CleanInput(text) == Filter(Strip(text), NotNewlineOrTab)
  {
    WithoutNewlinesAndTabs(Strip(text));
    var t := Strip(text);
    var u := Without(t, '\n');
    WithoutKeepsOthers(t, '\n', '\t');
    WithoutKeepsOthers(u, '\t', '\n');
    WithoutKeepsOthers(t, '\n', d);
    WithoutKeepsOthers(u, '\t', d);
    if t != [] {
      WithoutKeepsEnds(t, '\n');
      WithoutKeepsEnds(u, '\t');
    } else {
      assert u == [];
    }
  }

  /** Cleaning a cleaned text changes nothing. */
  lemma CleanInputIdempotent(text: string)
    ensures CleanInput(CleanInput(text)) == CleanInput(text)
  {
    var r := CleanInput(text);
    CleanInputMeaning(text, ' ');
    StripStripped(r);
    WithoutAbsent(r, '\n');
    WithoutAbsent(r, '\t');
  }

  // ----- _reorder_sentence -----

  /** `all(len(word) == 1 for word in words)`, true for the empty sentence. */
  predicate AllSingleCharacters(words: seq<string>)
  {
    forall k :: 0 <= k < |words| ==> |words[k]| == 1
  }

  /** `_reorder_sentence`. The constituency parse and the tree rewriting
      that follows it are not part of this model; `parse` stands for
      what they make of a sentence. */
  function ReorderSentence(words: seq<string>, parse: seq<string> -> seq<string>): seq<string>
  {
    if AllSingleCharacters(words) then words else parse(words)
  }

  /** A sentence of single characters comes back as it is, whatever the
      parser would have made of it: the parser is never consulted. */
  lemma ShortcutSkipsParser(words: seq<string>)
    requires forall k :: 0 <= k < |words| ==> |words[k]| == 1
    ensures forall parse: seq<string> -> seq<string> :: ReorderSentence(words, parse) == words
  {
  }

  /** A sentence with a longer word is whatever the parser makes of it. */
  lemma LongWordGoesToParser(words: seq<string>, parse: seq<string> -> seq<string>, k: nat)
    requires k < |words| && |words[k]| != 1
    ensures ReorderSentence(words, parse) == parse(words)
  {
  }

  // ----- _remove_punctuation -----

  /** A word and its record survive unless the record is tagged 'PUNCT'. */
  predicate NotPunct(p: (string, Word))
  {
    p.1.upos != "PUNCT"
  }

  /** The word/record pairs of one sentence that survive; `zip` stops at
      the shorter list. */
  function KeptPairs(ws: seq<string>, ds: seq<Word>): seq<(string, Word)>
  {
    Filter(Zip(ws, ds), NotPunct)
  }

  /** The word lists after `_remove_punctuation`; sentences past the last
      record list are not touched. */
  function WordsWithoutPunct(wss: seq<seq<string>>, dss: seq<seq<Word>>): (r: seq<seq<string>>)
    ensures |r| == |wss|
  {
    seq(|wss|, i requires 0 <= i < |wss| => if i < |dss| then Firsts(KeptPairs(wss[i], dss[i])) else wss[i])
  }

  /** The record lists after `_remove_punctuation`. */
  function DetailsWithoutPunct(wss: seq<seq<string>>, dss: seq<seq<Word>>): (r: seq<seq<Word>>)
    ensures |r| == |dss|
  {
    seq(|dss|, i requires 0 <= i < |dss| => if i < |wss| then Seconds(KeptPairs(wss[i], dss[i])) else dss[i])
  }

  /** In every sentence both lists process, punctuation removal keeps the
      words and the records aligned, keeps no 'PUNCT' record, keeps every
      other pair, and keeps the pairs in their order. */
  lemma PunctuationRemovedExactly(wss: seq<seq<string>>, dss: seq<seq<Word>>, i: nat)
    requires i < |wss| && i < |dss|
    ensures var w, d := WordsWithoutPunct(wss, dss)[i], DetailsWithoutPunct(wss, dss)[i];
      |w| == |d| &&
      (forall k :: 0 <= k < |d| ==> d[k].upos != "PUNCT") &&
      IsSubseq(Zip(w, d), Zip(wss[i], dss[i])) &&
      |w| == Count(Zip(wss[i], dss[i]), NotPunct) &&
      (forall m :: 0 <= m < |wss[i]| && m < |dss[i]| && dss[i][m].upos != "PUNCT" ==> (wss[i][m], dss[i][m]) in Zip(w, d))
  {
    var z := Zip(wss[i], dss[i]);
    var kp := KeptPairs(wss[i], dss[i]);
    FilterIsExact(z, NotPunct);
    UnzipZip(kp);
    forall m | 0 <= m < |wss[i]| && m < |dss[i]| && dss[i][m].upos != "PUNCT"
      ensures (wss[i][m], dss[i][m]) in kp
    {
      assert z[m] == (wss[i][m], dss[i][m]);
      FilterKeepsSatisfying(z, NotPunct, m);
    }
    forall k | 0 <= k < |kp|
      ensures Seconds(kp)[k].upos != "PUNCT"
    {
      assert NotPunct(kp[k]);
    }
  }

  lemma PunctStep(ws: seq<string>, ds: seq<Word>, j: nat, kept: seq<(string, Word)>)
    requires j < |ws| && j < |ds|
    requires kept == Filter(Zip(ws, ds)[..j], NotPunct)
    ensures Filter(Zip(ws, ds)[..j + 1], NotPunct) == kept + (if ds[j].upos != "PUNCT" then [(ws[j], ds[j])] else [])
  {
    var z := Zip(ws, ds);
    assert z[..j + 1] == z[..j] + [(ws[j], ds[j])];
    FilterSnoc(z[..j], (ws[j], ds[j]), NotPunct);
  }

  /** The inner loop of `_remove_punctuation` over one sentence. */
  method SentenceWithoutPunct(ws: seq<string>, ds: seq<Word>) returns (fw: seq<string>, fd: seq<Word>)
    ensures fw == Firsts(KeptPairs(ws, ds)) && fd == Seconds(KeptPairs(ws, ds))
  {
    fw, fd := [], [];
    ghost var kept: seq<(string, Word)> := [];
    var n := Min(|ws|, |ds|);
    var j := 0;
    while j < n
      invariant 0 <= j <= n
      invariant kept == Filter(Zip(ws, ds)[..j], NotPunct)
      invariant fw == Firsts(kept) && fd == Seconds(kept)
      decreases n - j
    {
      PunctStep(ws, ds, j, kept);
      if ds[j].upos != "PUNCT" {
        UnzipSnoc(kept, (ws[j], ds[j]));
        kept := kept + [(ws[j], ds[j])];
        fw := fw + [ws[j]];
        fd := fd + [ds[j]];
      }
      j := j + 1;
    }
    assert Zip(ws, ds)[..j] == Zip(ws, ds);
  }

  // ----- _filter_stop_words -----

  /** `word.lower() not in STOP_WORDS`. */
  predicate NotStopWord(w: string)
  {
    Lower(w) !in StopWords
  }

  /** `[word for word, detail in zip(words, details) if word.lower() not in STOP_WORDS]`. */
  function StopFiltered(ws: seq<string>, ds: seq<Word>): seq<string>
  {
    Filter(Firsts(Zip(ws, ds)), NotStopWord)
  }

  /** `final_words` after `_filter_stop_words`: one list per sentence that
      has both words and records. */
  function FinalWordsFor(wss: seq<seq<string>>, dss: seq<seq<Word>>): (r: seq<seq<string>>)
    ensures |r| == Min(|wss|, |dss|)
  {
    seq(Min(|wss|, |dss|), i requires 0 <= i < Min(|wss|, |dss|) => StopFiltered(wss[i], dss[i]))
  }

  /** Stop-word filtering keeps, in order, exactly the words whose
      lowercase form is not a stop word, so "Is" goes as well as "is". */
  lemma StopWordsFiltered(ws: seq<string>, ds: seq<Word>)
    ensures var r, cand := StopFiltered(ws, ds), Firsts(Zip(ws, ds));
      (forall k :: 0 <= k < |r| ==> Lower(r[k]) !in StopWords) &&
      IsSubseq(r, cand) &&
      |r| == Count(cand, NotStopWord) &&
      (forall m :: 0 <= m < |cand| && Lower(cand[m]) !in StopWords ==> cand[m] in r)
  {
    var cand := Firsts(Zip(ws, ds));
    FilterIsExact(cand, NotStopWord);
    var r := StopFiltered(ws, ds);
    forall k | 0 <= k < |r|
      ensures Lower(r[k]) !in StopWords
    {
      assert NotStopWord(r[k]);
    }
    forall m | 0 <= m < |cand| && Lower(cand[m]) !in StopWords
      ensures cand[m] in r
    {
      FilterKeepsSatisfying(cand, NotStopWord, m);
    }
  }

  // ----- _lemmatize_words -----

  /** The inner loop of `_lemmatize_words` over one sentence, which
      overwrites the words in place. */
  method LemmatizeSentence(details: seq<Word>, ws: seq<string>) returns (r: seq<string>)
    ensures r == Lemmatized(details, ws)
  {
    r := ws;
    var n := Min(|details|, |ws|);
    var j := 0;
    while j < n
      invariant 0 <= j <= n && |r| == |ws|
      invariant forall k :: 0 <= k < j ==> r[k] == LemmaOrKeep(details[k], ws[k])
      invariant forall k :: j <= k < |ws| ==> r[k] == ws[k]
      decreases n - j
    {
      if |r[j]| > 1 {
        r := r[j := details[j].lemmaForm];
      }
      j := j + 1;
    }
  }

  // ----- _generate_final_output -----

  /** `list(s)`: one entry per character. */
  function Letters(s: string): (r: seq<string>)
    ensures |r| == |s|
  {
    seq(|s|, k requires 0 <= k < |s| => [s[k]])
  }

  /** The entries one word contributes: a word whose lowercase form is
      in the vocabulary is one lowercase entry, any other word is spelled
      out as its uppercase letters. */
  function Rendered(valid: set<string>, w: string): seq<string>
  {
    if Lower(w) !in valid then Letters(Upper(w)) else [Lower(w)]
  }

  /** The `processed` list of one sentence. */
  function RenderedSentence(valid: set<string>, ws: seq<string>): seq<string>
  {
    if ws == [] then [] else RenderedSentence(valid, ws[..|ws| - 1]) + Rendered(valid, ws[|ws| - 1])
  }

  /** `processed_output` after `_generate_final_output`. */
  function RenderedAll(valid: set<string>, wss: seq<seq<string>>): (r: seq<seq<string>>)
    ensures |r| == |wss|
  {
    seq(|wss|, i requires 0 <= i < |wss| => RenderedSentence(valid, wss[i]))
  }

  /** The word as the output shows it. */
  function Spelled(valid: set<string>, w: string): string
  {
    if Lower(w) in valid then Lower(w) else Upper(w)
  }

  /** The words of a sentence as the output shows them, run together. */
  function SpelledText(valid: set<string>, ws: seq<string>): string
  {
    if ws == [] then "" else SpelledText(valid, ws[..|ws| - 1]) + Spelled(valid, ws[|ws| - 1])
  }

  lemma {:induction false} LettersSpell(s: string)
    ensures Flatten(Letters(s)) == s
  {
    if s != [] {
      var front := s[..|s| - 1];
      LettersSpell(front);
      assert Letters(s)[..|s| - 1] == Letters(front);
    }
  }

  /** A word outside the vocabulary becomes one entry per letter, each a
      single uppercase character; either way its entries run together give
      the word in the case the output uses. */
  lemma RenderedWord(valid: set<string>, w: string)
    ensures Flatten(Rendered(valid, w)) == Spelled(valid, w)
    ensures Lower(w) !in valid ==>
      |Rendered(valid, w)| == |w| &&
      forall k :: 0 <= k < |w| ==> Rendered(valid, w)[k] == [UpperChar(w[k])]
  {
    if Lower(w) !in valid {
      LettersSpell(Upper(w));
    } else {
      assert Flatten([Lower(w)]) == Flatten([]) + Lower(w);
    }
  }

  /** A sentence's entries run together give its words in order, each in
      the case the output uses: spelling out changes no order and loses no
      letter. */
  lemma {:induction false} RenderedSentenceSpells(valid: set<string>, ws: seq<string>)
    ensures Flatten(RenderedSentence(valid, ws)) == SpelledText(valid, ws)
  {
    if ws != [] {
      var front, w := ws[..|ws| - 1], ws[|ws| - 1];
      RenderedSentenceSpells(valid, front);
      FlattenAppend(RenderedSentence(valid, front), Rendered(valid, w));
      RenderedWord(valid, w);
    }
  }

  /** The inner loop of `_generate_final_output` over one sentence. */
  method RenderSentence(valid: set<string>, ws: seq<string>) returns (processed: seq<string>)
    ensures processed == RenderedSentence(valid, ws)
  {
    processed := [];
    var j := 0;
    while j < |ws|
      invariant 0 <= j <= |ws|
      invariant processed == RenderedSentence(valid, ws[..j])
      decreases |ws| - j
    {
      var word := ws[j];
      assert ws[..j + 1][..j] == ws[..j];
      if Lower(word) !in valid {
        processed := processed + Letters(Upper(word));
      } else {
        processed := processed + [Lower(word)];
      }
      j := j + 1;
    }
    assert ws[..j] == ws;
  }

  // ----- _format_response -----

  /** How `_format_response` shows one entry: a single character in upper
      case, anything longer as it is. */
  function Shown(item: string): string
  {
    if |item| == 1 then Upper(item) else item
  }

  /** Spelled-out letters are shown as they are; a one-letter word of the
      vocabulary, emitted in lower case, is shown in upper case. */
  lemma ShownEntries(valid: set<string>, w: string, k: nat)
    requires k < |Rendered(valid, w)|
    ensures Lower(w) !in valid ==> Shown(Rendered(valid, w)[k]) == Rendered(valid, w)[k]
    ensures Lower(w) in valid && |w| == 1 ==> Shown(Rendered(valid, w)[k]) == Upper(w)
  {
    if Lower(w) !in valid {
      var e := Rendered(valid, w)[k];
      assert e == [UpperChar(w[k])];
      assert Upper(e)[0] == UpperChar(UpperChar(w[k]));
    } else if |w| == 1 {
      assert Upper(Lower(w))[0] == UpperChar(LowerChar(w[0]));
    }
  }

  /** The translator's six lists. The vocabulary, read from words.txt at
      start-up, is a parameter. */
  class ISLTranslator {
    const validWords: set<string>
    var sentences: seq<string>
    var detailedSentences: seq<Sentence>
    var words: seq<seq<string>>
    var detailedWords: seq<seq<Word>>
    var finalWords: seq<seq<string>>
    var processedOutput: seq<seq<string>>

    /** `__init__`: every list empty. */
    constructor (validWords: set<string>)
      ensures this.validWords == validWords
      ensures sentences == [] && detailedSentences == [] && words == []
      ensures detailedWords == [] && finalWords == [] && processedOutput == []
    {
      this.validWords := validWords;
      sentences, detailedSentences, words := [], [], [];
      detailedWords, finalWords, processedOutput := [], [], [];
    }

    /** `_clear_state`: every list emptied. */
    method ClearState()
      modifies this
      ensures sentences == [] && detailedSentences == [] && words == []
      ensures detailedWords == [] && finalWords == [] && processedOutput == []
    {
      sentences, detailedSentences, words := [], [], [];
      detailedWords, finalWords, processedOutput := [], [], [];
    }

    /** `_reorder_words`: every sentence's word list is replaced by what
        `_reorder_sentence` makes of it, with the parser as `parse`. */
    method ReorderWords(parse: seq<string> -> seq<string>)
      modifies this`words
      ensures |words| == |old(words)|
      ensures forall i :: 0 <= i < |words| ==> words[i] == ReorderSentence(old(words)[i], parse)
    {
      ghost var w0 := words;
      var wss := words;
      var i := 0;
      while i < |wss|
        invariant 0 <= i <= |wss| && |wss| == |w0|
        invariant forall k :: 0 <= k < i ==> wss[k] == ReorderSentence(w0[k], parse)
        invariant forall k :: i <= k < |wss| ==> wss[k] == w0[k]
        decreases |wss| - i
      {
        wss := wss[i := ReorderSentence(wss[i], parse)];
        i := i + 1;
      }
      words := wss;
    }

    /** `_remove_punctuation`: each sentence that has both a word list and
        a record list has both replaced by their non-'PUNCT' pairs. */
    method RemovePunctuation()
      modifies this`words, this`detailedWords
      ensures words == WordsWithoutPunct(old(words), old(detailedWords))
      ensures detailedWords == DetailsWithoutPunct(old(words), old(detailedWords))
      ensures sentences == old(sentences) && detailedSentences == old(detailedSentences)
      ensures finalWords == old(finalWords) && processedOutput == old(processedOutput)
    {
      var wss, dss := words, detailedWords;
      ghost var w0, d0 := words, detailedWords;
      var n := Min(|wss|, |dss|);
      var i := 0;
      while i < n
        invariant 0 <= i <= n && |wss| == |w0| && |dss| == |d0|
        invariant forall k :: 0 <= k < i ==> wss[k] == Firsts(KeptPairs(w0[k], d0[k]))
        invariant forall k :: 0 <= k < i ==> dss[k] == Seconds(KeptPairs(w0[k], d0[k]))
        invariant forall k :: i <= k < |wss| ==> wss[k] == w0[k]
        invariant forall k :: i <= k < |dss| ==> dss[k] == d0[k]
        decreases n - i
      {
        var fw, fd := SentenceWithoutPunct(wss[i], dss[i]);
        wss := wss[i := fw];
        dss := dss[i := fd];
        i := i + 1;
      }
      words, detailedWords := wss, dss;
    }

    /** `_filter_stop_words`: `final_words` becomes, sentence by sentence,
        the words whose lowercase form is not a stop word. The records are
        not filtered. */
    method FilterStopWords()
      modifies this`finalWords
      ensures finalWords == FinalWordsFor(words, detailedWords)
    {
      var fws: seq<seq<string>> := [];
      var n := Min(|words|, |detailedWords|);
      var i := 0;
      while i < n
        invariant 0 <= i <= n && |fws| == i
        invariant forall k :: 0 <= k < i ==> fws[k] == StopFiltered(words[k], detailedWords[k])
        decreases n - i
      {
        fws := fws + [StopFiltered(words[i], detailedWords[i])];
        i := i + 1;
      }
      finalWords := fws;
    }

    /** `_lemmatize_words`: position by position, every word of
        `final_words` longer than one character becomes the lemma of the
        record at the same position of `detailed_words`. */
    method LemmatizeWords()
      modifies this`finalWords
      ensures finalWords == LemmatizedAll(detailedWords, old(finalWords))
    {
      var fws := finalWords;
      ghost var f0 := finalWords;
      var n := Min(|detailedWords|, |fws|);
      var i := 0;
      while i < n
        invariant 0 <= i <= n && |fws| == |f0|
        invariant forall k :: 0 <= k < i ==> fws[k] == Lemmatized(detailedWords[k], f0[k])
        invariant forall k :: i <= k < |fws| ==> fws[k] == f0[k]
        decreases n - i
      {
        var r := LemmatizeSentence(detailedWords[i], fws[i]);
        fws := fws[i := r];
        i := i + 1;
      }
      finalWords := fws;
    }

    /** `_preprocess`: the three steps in order. The lemma records are the
        punctuation-free ones, which still hold the stop words the word
        lists have lost. */
    method Preprocess()
      modifies this`words, this`detailedWords, this`finalWords
      ensures words == WordsWithoutPunct(old(words), old(detailedWords))
      ensures detailedWords == DetailsWithoutPunct(old(words), old(detailedWords))
      ensures finalWords == LemmatizedAll(detailedWords, FinalWordsFor(words, detailedWords))
      ensures sentences == old(sentences) && detailedSentences == old(detailedSentences)
      ensures processedOutput == old(processedOutput)
    {
      RemovePunctuation();
      FilterStopWords();
      LemmatizeWords();
    }

    /** `_generate_final_output`: one list of entries per sentence of
        `final_words`. */
    method GenerateFinalOutput()
      modifies this`processedOutput
      ensures processedOutput == RenderedAll(validWords, finalWords)
    {
      var out: seq<seq<string>> := [];
      var i := 0;
      while i < |finalWords|
        invariant 0 <= i <= |finalWords| && |out| == i
        invariant forall k :: 0 <= k < i ==> out[k] == RenderedSentence(validWords, finalWords[k])
        decreases |finalWords| - i
      {
        var processed := RenderSentence(validWords, finalWords[i]);
        out := out + [processed];
        i := i + 1;
      }
      processedOutput := out;
    }

    /** `_format_response`: the entries of all sentences in order, keyed
        1, 2, ..., N with no gap, N the number of entries. */
    method FormatResponse() returns (response: map<int, string>)
      ensures |Flatten(processedOutput)| == TotalLength(processedOutput)
      ensures forall k :: k in response <==> 1 <= k <= |Flatten(processedOutput)|
      ensures forall k :: 1 <= k <= |Flatten(processedOutput)| ==>
        response[k] == Shown(Flatten(processedOutput)[k - 1])
    {
      var items := Flatten(processedOutput);
      FlattenLength(processedOutput);
      response := map[];
      var i := 0;
      while i < |items|
        invariant 0 <= i <= |items|
        invariant forall k :: k in response <==> 1 <= k <= i
        invariant forall k :: 1 <= k <= i ==> response[k] == Shown(items[k - 1])
        decreases |items| - i
      {
        response := response[i + 1 := Shown(items[i])];
        i := i + 1;
      }
    }
  }
}
