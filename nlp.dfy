/** What the two Python back ends receive from their NLP pipeline and the
    word-list rules they share: a tokenised word with its universal part of
    speech and its lemma, a sentence with its words, the stop-word list,
    and positional lemma substitution. */
module Nlp {
  import opened Seqs

  /** A pipeline word: `word.text`, `word.upos` and `word.lemma`. */
  datatype Word = Word(text: string, upos: string, lemmaForm: string)

  /** A pipeline sentence: `sentence.text` and `sentence.words`. */
  datatype Sentence = Sentence(text: string, words: seq<Word>)

  /** `STOP_WORDS`, the same 23 words in both back ends: eight forms of
      "be", three of "have", "does" and "did", nine modal verbs and "let". */
  const StopWords: set<string> :=
    {"am", "are", "is", "was", "were", "be", "being", "been",
     "have", "has", "had", "does", "did", "could", "should",
     "would", "can", "shall", "will", "may", "might", "must", "let"}

  /** `[word.text for word in sentence.words]`. */
  function Texts(ws: seq<Word>): (r: seq<string>)
    ensures |r| == |ws|
  {
    seq(|ws|, k requires 0 <= k < |ws| => ws[k].text)
  }

  /** The sentence texts of a parsed document. */
  function SentenceTexts(doc: seq<Sentence>): (r: seq<string>)
    ensures |r| == |doc|
  {
    seq(|doc|, k requires 0 <= k < |doc| => doc[k].text)
  }

  /** For each sentence of a parsed document, the texts of its words. */
  function WordTexts(doc: seq<Sentence>): (r: seq<seq<string>>)
    ensures |r| == |doc|
  {
    seq(|doc|, k requires 0 <= k < |doc| => Texts(doc[k].words))
  }

  /** For each sentence of a parsed document, its word records. */
  function WordDetails(doc: seq<Sentence>): (r: seq<seq<Word>>)
    ensures |r| == |doc|
  {
    seq(|doc|, k requires 0 <= k < |doc| => doc[k].words)
  }

  /** The substitution both back ends apply at one position: a word longer
      than one character is replaced by the lemma of the word record at the
      same position; a shorter one is kept. */
  function LemmaOrKeep(detail: Word, word: string): string
  {
    if |word| > 1 then detail.lemmaForm else word
  }

  /** One sentence after positional lemma substitution. `zip` pairs the
      records and the words by position and stops at the shorter list, so
      words past the last record are left alone. */
  function Lemmatized(details: seq<Word>, words: seq<string>): (r: seq<string>)
    ensures |r| == |words|
  {
    seq(|words|, j requires 0 <= j < |words| =>
      if j < |details| then LemmaOrKeep(details[j], words[j]) else words[j])
  }

  /** Every sentence after positional lemma substitution; sentences past
      the last record list are left alone. */
  function LemmatizedAll(details: seq<seq<Word>>, words: seq<seq<string>>): (r: seq<seq<string>>)
    ensures |r| == |words|
  {
    seq(|words|, i requires 0 <= i < |words| =>
      if i < |details| then Lemmatized(details[i], words[i]) else words[i])
  }

  /** Substitution changes no length, keeps every word of at most one
      character and every word without a record, and puts the record's
      lemma everywhere else. */
  lemma LemmatizedMeaning(details: seq<Word>, words: seq<string>, j: nat)
    requires j < |words|
    ensures |Lemmatized(details, words)| == |words|
    ensures |words[j]| <= 1 ==> Lemmatized(details, words)[j] == words[j]
    ensures j >= |details| ==> Lemmatized(details, words)[j] == words[j]
    ensures j < |details| && |words[j]| > 1 ==> Lemmatized(details, words)[j] == details[j].lemmaForm
  {
  }

  /** Substituting twice with the same records is substituting once: a
      lemma that replaced a long word is replaced by itself, and a short
      word stays as it was. */
  lemma LemmatizedIdempotent(details: seq<Word>, words: seq<string>)
    ensures Lemmatized(details, Lemmatized(details, words)) == Lemmatized(details, words)
  {
    var once := Lemmatized(details, words);
    forall j | 0 <= j < |words|
      ensures Lemmatized(details, once)[j] == once[j]
    {
      if j < |details| && |words[j]| > 1 {
        assert once[j] == details[j].lemmaForm;
      }
    }
  }

  /** The records are paired with the words by position, not by identity:
      once a word has been dropped from the word list but not from the
      record list, every later word takes the lemma of the record before
      it. "He is going" with "is" dropped becomes "he be", not "he go". */
  lemma PairingIsPositional()
    ensures Lemmatized([Word("He", "PRON", "he"), Word("is", "AUX", "be"), Word("going", "VERB", "go")],
                       ["He", "going"]) == ["he", "be"]
  {
  }
}
