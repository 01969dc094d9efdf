/** main.py: the older back end's word-list steps. `preprocess_text` copies
    the pipeline's sentences and words into four lists, `remove_stopwords`
    drops the stop words with an exact, case-sensitive test, and
    `lemmatize_words` rewrites the word lists in place. */
module Preprocess {
  import opened Seqs
  import opened Nlp

  /** `preprocess_text`: the sentence texts, the sentences, and for each
      sentence the texts and the records of its words, in order. All four
      lists have one entry per sentence. */
  method PreprocessText(doc: seq<Sentence>)
      returns (sentList: seq<string>, sentListDetailed: seq<Sentence>,
               wordList: seq<seq<string>>, wordListDetailed: seq<seq<Word>>)
    ensures sentList == SentenceTexts(doc) && sentListDetailed == doc
    ensures wordList == WordTexts(doc) && wordListDetailed == WordDetails(doc)
    ensures |sentList| == |sentListDetailed| == |wordList| == |wordListDetailed| == |doc|
  {
    sentList, sentListDetailed := [], [];
    wordList, wordListDetailed := [], [];
    var k := 0;
    while k < |doc|
      invariant 0 <= k <= |doc|
      invariant sentList == SentenceTexts(doc[..k]) && sentListDetailed == doc[..k]
      decreases |doc| - k
    {
      sentList := sentList + [doc[k].text];
      sentListDetailed := sentListDetailed + [doc[k]];
      k := k + 1;
    }
    assert sentListDetailed == doc;
    k := 0;
    while k < |sentListDetailed|
      invariant 0 <= k <= |doc| && |wordList| == k && |wordListDetailed| == k
      invariant forall m :: 0 <= m < k ==> wordList[m] == Texts(doc[m].words)
      invariant forall m :: 0 <= m < k ==> wordListDetailed[m] == doc[m].words
      decreases |doc| - k
    {
      var tempList: seq<string> := [];
      var tempListDetailed: seq<Word> := [];
      var ws := sentListDetailed[k].words;
      var j := 0;
      while j < |ws|
        invariant 0 <= j <= |ws|
        invariant tempList == Texts(ws[..j]) && tempListDetailed == ws[..j]
        decreases |ws| - j
      {
        tempList := tempList + [ws[j].text];
        tempListDetailed := tempListDetailed + [ws[j]];
        j := j + 1;
      }
      assert tempListDetailed == ws;
      wordList := wordList + [tempList];
      wordListDetailed := wordListDetailed + [tempListDetailed];
      k := k + 1;
    }
  }

  /** `word not in STOP_WORDS`: exact membership, so "Is" is not a stop
      word here. */
  predicate NotStopWord(w: string)
  {
    w !in StopWords
  }

  /** `remove_stopwords`: `[[word for word in words if word not in STOP_WORDS] for words in word_list]`. */
  function RemoveStopwords(wordList: seq<seq<string>>): (r: seq<seq<string>>)
    ensures |r| == |wordList|
  {
    seq(|wordList|, i requires 0 <= i < |wordList| => Filter(wordList[i], NotStopWord))
  }

  /** Each sentence keeps, in order, exactly its words that are not stop
      words, spelled exactly as they are. */
  lemma RemoveStopwordsExactly(wordList: seq<seq<string>>, i: nat)
    requires i < |wordList|
    ensures var r := RemoveStopwords(wordList)[i];
      (forall k :: 0 <= k < |r| ==> r[k] !in StopWords) &&
      IsSubseq(r, wordList[i]) &&
      |r| == Count(wordList[i], NotStopWord) &&
      (forall m :: 0 <= m < |wordList[i]| && wordList[i][m] !in StopWords ==> wordList[i][m] in r)
  {
    var ws := wordList[i];
    var r := RemoveStopwords(wordList)[i];
    FilterIsExact(ws, NotStopWord);
    forall k | 0 <= k < |r|
      ensures r[k] !in StopWords
    {
      assert NotStopWord(r[k]);
    }
    forall m | 0 <= m < |ws| && ws[m] !in StopWords
      ensures ws[m] in r
    {
      FilterKeepsSatisfying(ws, NotStopWord, m);
    }
  }

  /** The rows of a word list are distinct list objects. */
  ghost predicate DistinctRows(rows: seq<array<string>>)
  {
    forall i, j :: 0 <= i < j < |rows| ==> rows[i] != rows[j]
  }

  /** The inner loop of `lemmatize_words` over one sentence:
      `final[i] = word.lemma if len(fin) > 1 else fin` for each position the
      `zip` reaches. */
  method LemmatizeRow(details: seq<Word>, row: array<string>)
    modifies row
    ensures row[..] == Lemmatized(details, old(row[..]))
  {
    var n := Min(|details|, row.Length);
    var j := 0;
    while j < n
      invariant 0 <= j <= n
      invariant forall k :: 0 <= k < j ==> row[k] == LemmaOrKeep(details[k], old(row[k]))
      invariant forall k :: j <= k < row.Length ==> row[k] == old(row[k])
      decreases n - j
    {
      row[j] := if |row[j]| > 1 then details[j].lemmaForm else row[j];
      j := j + 1;
    }
  }

  /** `lemmatize_words`: rewrites each row of `finalWordList` that has a
      record list, in place, and returns the same list. */
  method LemmatizeWords(wordListDetailed: seq<seq<Word>>, finalWordList: seq<array<string>>)
      returns (r: seq<array<string>>)
    requires DistinctRows(finalWordList)
    modifies set i | 0 <= i < |finalWordList| :: finalWordList[i]
    ensures r == finalWordList
    ensures forall i :: 0 <= i < |finalWordList| ==>
      finalWordList[i][..] == (if i < |wordListDetailed| then Lemmatized(wordListDetailed[i], old(finalWordList[i][..]))
                               else old(finalWordList[i][..]))
  {
    var n := Min(|wordListDetailed|, |finalWordList|);
    var i := 0;
    while i < n
      invariant 0 <= i <= n
      invariant forall k :: 0 <= k < i ==> finalWordList[k][..] == Lemmatized(wordListDetailed[k], old(finalWordList[k][..]))
      invariant forall k :: i <= k < |finalWordList| ==> finalWordList[k][..] == old(finalWordList[k][..])
      decreases n - i
    {
      LemmatizeRow(wordListDetailed[i], finalWordList[i]);
      i := i + 1;
    }
    r := finalWordList;
  }
}
