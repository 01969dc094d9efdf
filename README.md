# Sign-Language-Module: segmenter, players and word-list back ends

This project models the core of an English to Indian Sign Language (ISL)
translator and proves properties of the model in Dafny.

The front end comes in three versions of one display component:
`components/sign-language-display.tsx`, `src/SignLanguageDisplay.jsx` and
`src/SignLanguageDisplay.js`. Each one splits the text into words. It then
walks the words with a greedy longest-match rule: at each position it tries
the windows of 4, 3, 2 and 1 words, lowercased and joined with single spaces,
and looks each one up in the phrase-to-clip dictionary. Each match becomes a
clip URL. The component then plays the clips one after another.
- The `.tsx` and `.jsx` versions trim the text and split it on runs of
  white space. They drop unmatched words, skip a clip that fails to load
  after a delay, and have a Restart button. The `.tsx` version also has a
  progress bar.
- The `.js` version splits on single spaces and keeps a `null` slot for
  each unmatched word. It only advances when a clip ends.

The back ends are `new.py` (class `ISLTranslator`) and `main.py`. Both take
a parsed document from the NLP pipeline. The stop words are the same 23
words in both: eight forms of "be", three of "have", "does" and "did", nine
modal verbs and "let".
- `new.py` is meant to clean the input text, reorder each sentence
  (sentences of single characters are kept as they are), drop punctuation,
  drop stop words, replace each word longer than one character by its lemma
  (matched by position), fingerspell every word outside the known-word
  list, and number the output entries from 1. As written, the reordering
  of any sentence with a word of another length raises `NameError`, so the
  later steps are reached only when every sentence is made of
  one-character words (see "## Left out"). The model states each step as
  intended.
- `main.py` lists the sentences and words, drops stop words and replaces
  words by their lemmas in the same positional way. It has no punctuation
  step and no fingerspelling.

Modules:
- `Seqs` (seqs.dfy): filtering, zipping and flattening of sequences, with
  their laws.
- `Text` (text.dfy): ASCII case mapping, JavaScript `trim`, joining with
  spaces, `split(/\s+/)` and `split(' ')`.
- `Segmenter` (segmenter.dfy): the greedy longest-match scan as one
  reference definition, `Segments`, with its laws. The scan yields one entry
  per step: a URL, or a gap (`null`) for an unmatched word.
- `DisplayTsx`, `DisplayJsx`, `DisplayJs`: each component's scan loop, as
  a method proved equal to `Segments`, and its state cells as a class whose
  methods are the event handlers.
- `Nlp` (nlp.dfy): pipeline words and sentences, the stop-word list, and
  positional lemma substitution. Both back ends share these.
- `Translator` (translator.dfy): `ISLTranslator` of `new.py`.
- `Preprocess` (preprocess.dfy): the functions of `main.py`.
- `Scenarios` (scenarios.dfy): concrete cases that pin down where the three
  components and the two back ends differ.

The model follows these behaviours of the code:
- A pending error skip (`setTimeout(() => handleVideoEnded(), 1000)`) is
  never cancelled, not by new text and not by Restart.
  `Scenarios.StaleSkipAfterRestart` shows a restart during the wait being
  followed by the pending skip, so playback goes on at the second clip
  instead of the first.
- The index can therefore run past the end of the list.
- In the `.tsx` and `.jsx` versions, blank text empties the list and keeps
  the index. The `.js` version ignores empty text (`if (text)`) and treats
  other blank text, such as `" "`, like any other text: it regenerates the
  list and resets the index to 0.
- The one-word fallback in all three versions looks up a key that the inner
  loop has already tried. It can never find anything, and is proved dead
  (`Segmenter.FallbackNeverHits`, `Segmenter.GapFallbackMisses`).
- The stop-word check differs between the back ends. `new.py` lowercases
  the word first and `main.py` does not, so "Is" survives only in
  `main.py`.

## Model

| member | source | states |
|---|---|---|
| Segmenter.PhraseKey | components/sign-language-display.tsx:52 | the key of a window is its words joined with single spaces and lowercased (case-blind by PhraseKeyIsCaseBlind) |
| Segmenter.Window | components/sign-language-display.tsx:52 | the key of `words.slice(i, i + j)`, for a window inside the text |
| Segmenter.Hit | components/sign-language-display.tsx:55 | a lookup succeeds when the key is present and its path is not the empty (falsy) string |
| Segmenter.Url | components/sign-language-display.tsx:56 | a clip URL is the base URL, a slash and the dictionary path of the key |
| Segmenter.Reach | components/sign-language-display.tsx:51 | the inner loop starts at `Math.min(4, words.length - i)` |
| Segmenter.EntryAt | components/sign-language-display.tsx:49-77 | one outer pass yields the URL of the widest window that hits, or a gap when none hits (characterised by EntryMeaning) |
| Segmenter.SegmentsFrom | components/sign-language-display.tsx:48-78 | the entries from cursor i to the end: the entry at i, then the entries from i plus its advance (laws: SegmentsStep, CursorsTile, SegmentsLength) |
| Segmenter.Segments | components/sign-language-display.tsx:44-78 | the whole scan from cursor 0, gaps included; the three GenerateUrls loops are proved equal to it |
| Segmenter.Cursors | components/sign-language-display.tsx:48-78 | the values of `i` at the top of the outer loop (laws: CursorsTile, CursorsEntries) |
| Segmenter.Present | src/SignLanguageDisplay.jsx:65 | the URLs of the scan, in order, with the gaps removed (PresentIsFilter, PresentSnoc) |
| Segmenter.IsSome | src/SignLanguageDisplay.jsx:65 | the filter test `url !== null` |
| Segmenter.MatchWidth | components/sign-language-display.tsx:51-63 | the width the inner loop settles on is at most the widest window it may try |
| Segmenter.Advance | components/sign-language-display.tsx:48-78 | each outer pass moves the cursor by 1 to 4 words and never past the end |
| Segmenter.SegmentsStep | components/sign-language-display.tsx:48-78 | the scan from a cursor is the entry there followed by the scan from the cursor plus its advance |
| Segmenter.MatchWidthMeans | components/sign-language-display.tsx:51-63 | a chosen width hits the dictionary and no wider window up to the limit does |
| Segmenter.MatchWidthIs | components/sign-language-display.tsx:51-63 | a width that hits, with no wider hit, is exactly the width chosen (0 when nothing hits) |
| Segmenter.EntryMeaning | components/sign-language-display.tsx:49-77 | a gap exactly when no window of 1 to min(4, n-i) words hits (then the cursor moves by 1); otherwise the URL of the widest window that hits, with the cursor moved past it |
| Segmenter.LongestMatchWins | components/sign-language-display.tsx:51-62 | when the widest hit at i has width j, the scan emits that window's URL and resumes at i+j |
| Segmenter.UnmatchedTokenIsGap | components/sign-language-display.tsx:65-77 | when no window hits at i, the scan yields a gap and resumes at i+1 |
| Segmenter.ScanStep | src/SignLanguageDisplay.jsx:32-62 | one outer pass appends exactly the scan's entry and keeps the loop invariant |
| Segmenter.ScanPass | components/sign-language-display.tsx:48-78 | one outer pass that pushes only URLs keeps the URL list equal to the URLs of the entries so far |
| Segmenter.FallbackNeverHits | components/sign-language-display.tsx:65-69 | when no window hit, the one-word key of the fallback does not hit either |
| Segmenter.GapFallbackMisses | src/SignLanguageDisplay.jsx:48-61 | at a gap the fallback lookup misses and the cursor moves by exactly one word |
| Segmenter.CursorsTile | components/sign-language-display.tsx:48-78 | the step positions start at i, each follows the last by its advance, the last reaches the end, and there are between n/4 and n of them |
| Segmenter.CursorsCount | components/sign-language-display.tsx:48-78 | the scan of n words has between n/4 and n entries, one per step |
| Segmenter.CursorsLength | components/sign-language-display.tsx:48-78 | one step position per scan entry |
| Segmenter.SegmentsLength | components/sign-language-display.tsx:48-78 | the number of entries lies between a quarter of the remaining words and all of them |
| Segmenter.CursorsEntries | components/sign-language-display.tsx:48-78 | the k-th entry is the entry at the k-th step position, and every position lies inside the text |
| Segmenter.CursorsSteps | components/sign-language-display.tsx:48-78 | the step positions start at the cursor, follow each other by the advance and end exactly at the last word |
| Segmenter.CursorLast | components/sign-language-display.tsx:48-78 | the last step covers the last word |
| Segmenter.CursorNext | components/sign-language-display.tsx:48-78 | consecutive steps are one advance apart |
| Segmenter.CursorsStep | components/sign-language-display.tsx:48-78 | the step positions from i are i followed by those from i plus its advance |
| Segmenter.PresentSnoc | src/SignLanguageDisplay.jsx:58-65 | removing nulls from a list with one more entry appends that entry exactly when it is a URL |
| Segmenter.PresentIsFilter | src/SignLanguageDisplay.jsx:65 | dropping the gaps is `filter(url => url !== null)` |
| Segmenter.EveryUrlIsAWindow | components/sign-language-display.tsx:55-58 | every URL produced is the URL of some window of 1 to 4 words that hits the dictionary |
| Segmenter.NothingMatches | src/SignLanguageDisplay.js:25-31 | with no hit anywhere, the scan is one gap per word and produces no URL |
| Segmenter.PresentAllGaps | src/SignLanguageDisplay.jsx:65 | a list of gaps only filters to the empty list |
| Segmenter.PhraseKeyIsCaseBlind | components/sign-language-display.tsx:52 | the phrase key of a window is unchanged when its words are lowercased |
| Segmenter.MatchWidthAgrees | components/sign-language-display.tsx:51-63 | token lists with the same window keys choose the same widths |
| Segmenter.StepAgrees | components/sign-language-display.tsx:49-77 | token lists with the same window keys have the same entry and advance at every cursor |
| Segmenter.CursorsAgree | components/sign-language-display.tsx:48-78 | token lists with the same window keys step through the same positions |
| Segmenter.SegmentsAgree | components/sign-language-display.tsx:48-78 | token lists with the same window keys have the same scan |
| Segmenter.LoweredSameWindows | components/sign-language-display.tsx:52 | under a case-blind key, lowercasing the tokens keeps every window key |
| Segmenter.SegmentsOfLowered | components/sign-language-display.tsx:52 | under a case-blind key, lowercasing the tokens keeps the scan |
| Segmenter.SegmentsIgnoreCase | components/sign-language-display.tsx:52 | two texts whose words agree up to letter case get the same clips |
| Segmenter.Wrap | src/SignLanguageDisplay.jsx:58-65 | wraps a URL list as a list of non-null entries of the same length |
| DisplayTsx.Words | components/sign-language-display.tsx:43 | `text.trim().split(/\s+/)` (inverted by WordsOfJoin; its words are non-empty by Text.SplitTrimmedWords) |
| DisplayTsx.UrlsFor | components/sign-language-display.tsx:43-81 | the list `setVideoUrls` receives for non-blank text: the scan of the words with the gaps removed (GenerateUrls proves the loop builds it) |
| DisplayTsx.Percent | components/sign-language-display.tsx:100 | `(currentVideoIndex / videoUrls.length) * 100` (bounds: PercentBounds) |
| DisplayTsx.ErrorMessage | components/sign-language-display.tsx:113 | "Unable to load video file: " followed by the current URL, or by `undefined` past the end |
| DisplayTsx.SignLanguageDisplay.Valid | components/sign-language-display.tsx:98-102 | whenever there are clips, the progress bar agrees with the index |
| DisplayTsx.WordsOfJoin | components/sign-language-display.tsx:43 | `text.trim().split(/\s+/)` gives back any non-empty words joined with single spaces |
| DisplayTsx.ScanAt | components/sign-language-display.tsx:49-77 | one pass of the inner loop plus fallback pushes the scan's entry when it is a URL and moves the cursor by the scan's advance |
| DisplayTsx.GenerateUrls | components/sign-language-display.tsx:44-80 | the loop's URL list is the scan of the words with the gaps removed |
| DisplayTsx.UrlsIgnoreCase | components/sign-language-display.tsx:36-52 | texts that differ only in letter case are both blank or both not, and get the same scan and the same clips |
| DisplayTsx.PercentBounds | components/sign-language-display.tsx:98-102 | progress lies in 0..100 while the index is within the list, is 0 exactly at the first clip and 100 exactly when all clips have played |
| DisplayTsx.SignLanguageDisplay.constructor | components/sign-language-display.tsx:16-20 | an empty list, index 0, not loading, no error, progress 0 and no pending skip |
| DisplayTsx.SignLanguageDisplay.SyncProgress | components/sign-language-display.tsx:98-102 | progress becomes index/length*100 when there are clips; otherwise unchanged |
| DisplayTsx.SignLanguageDisplay.GenerateSignLanguage | components/sign-language-display.tsx:31-95 | blank text: empty list, index kept; other text: the segmented URLs and index 0; the error is cleared; loading ends false; pending skips and the progress invariant are kept |
| DisplayTsx.SignLanguageDisplay.HandleVideoEnded | components/sign-language-display.tsx:105-108 | the index grows by one and nothing else changes except progress |
| DisplayTsx.SignLanguageDisplay.HandleVideoError | components/sign-language-display.tsx:111-115 | shows "Unable to load video file:" with the current URL (or `undefined`) and schedules one more skip |
| DisplayTsx.SignLanguageDisplay.AdvanceTimerFires | components/sign-language-display.tsx:114 | a scheduled skip runs `handleVideoEnded`: one pending skip fewer and the index grows by one |
| DisplayTsx.SignLanguageDisplay.Restart | components/sign-language-display.tsx:156-161 | clickable only while shown and enabled (index not 0); the index and the progress go back to 0 and pending skips stay |
| DisplayTsx.SignLanguageDisplay.ShowsLoading | components/sign-language-display.tsx:119-124 | "Loading videos..." shows while `loading` is set |
| DisplayTsx.SignLanguageDisplay.ShowsNoVideos | components/sign-language-display.tsx:134 | "No sign language videos available." shows when not loading and there are no clips |
| DisplayTsx.SignLanguageDisplay.IsPlaying | components/sign-language-display.tsx:137-150 | the video element shows when there are clips and the index is inside the list |
| DisplayTsx.SignLanguageDisplay.ShowsFinished | components/sign-language-display.tsx:151-152 | "All videos have been played." shows when there are clips and the index is at or past the end |
| DisplayTsx.SignLanguageDisplay.ShowsControls | components/sign-language-display.tsx:156-163 | the Restart button and the progress bar show when there are clips |
| DisplayTsx.SignLanguageDisplay.RestartDisabled | components/sign-language-display.tsx:158 | Restart is disabled exactly at index 0 |
| DisplayTsx.SignLanguageDisplay.CurrentSource | components/sign-language-display.tsx:142 | the `src` of the video element is the URL at the current index |
| DisplayTsx.PlayerShowsOneThing | components/sign-language-display.tsx:134-156 | with clips the player shows exactly one of "playing" and "all played" plus the controls; without clips it shows neither |
| DisplayJsx.ScanAt | src/SignLanguageDisplay.jsx:33-61 | one pass appends exactly the scan's entry (a URL or `null`) and moves by the scan's advance |
| DisplayJsx.GenerateUrls | src/SignLanguageDisplay.jsx:27-62 | the list built with `null`s is exactly the scan of the words |
| DisplayJsx.SameUrlsAsTsx | src/SignLanguageDisplay.jsx:65 | the `null`-free list is the TypeScript list for the same text; this holds once the two loops are proved equal to the scan (DisplayTsx.GenerateUrls, DisplayJsx.GenerateUrls), and the lemma itself only unfolds the definitions |
| DisplayJsx.UrlsIgnoreCase | src/SignLanguageDisplay.jsx:26-35 | texts that differ only in letter case get the same list, gaps included |
| DisplayJsx.SignLanguageDisplay.constructor | src/SignLanguageDisplay.jsx:5-8 | an empty list, index 0, not loading, no error, no pending skip |
| DisplayJsx.SignLanguageDisplay.GenerateSignLanguage | src/SignLanguageDisplay.jsx:14-78 | blank text: empty list, index kept; other text: the filtered scan, equal to the TypeScript URLs, and index 0; the error is cleared; pending skips stay |
| DisplayJsx.SignLanguageDisplay.HandleVideoEnded | src/SignLanguageDisplay.jsx:80-87 | the index grows by one and nothing else changes |
| DisplayJsx.SignLanguageDisplay.HandleVideoError | src/SignLanguageDisplay.jsx:89-94 | shows the error for the current URL and schedules one more skip |
| DisplayJsx.SignLanguageDisplay.AdvanceTimerFires | src/SignLanguageDisplay.jsx:93 | a scheduled skip: one pending skip fewer and the index grows by one |
| DisplayJsx.SignLanguageDisplay.Restart | src/SignLanguageDisplay.jsx:126-136 | clickable only while shown and enabled; the index goes back to 0 and pending skips stay |
| DisplayJsx.SignLanguageDisplay.ShowsNoVideos | src/SignLanguageDisplay.jsx:102-104 | the "no videos" message shows when not loading and there are no clips |
| DisplayJsx.SignLanguageDisplay.IsPlaying | src/SignLanguageDisplay.jsx:107-120 | the video element shows when there are clips and the index is inside the list |
| DisplayJsx.SignLanguageDisplay.ShowsFinished | src/SignLanguageDisplay.jsx:121-122 | "All videos have been played." shows when there are clips and the index is at or past the end |
| DisplayJsx.SignLanguageDisplay.ShowsControls | src/SignLanguageDisplay.jsx:126-136 | the Restart button shows when there are clips |
| DisplayJsx.SignLanguageDisplay.RestartDisabled | src/SignLanguageDisplay.jsx:130 | Restart is disabled when the index is 0 and there are clips, as written |
| DisplayJsx.SignLanguageDisplay.ShowsLoading | src/SignLanguageDisplay.jsx:98 | "Loading videos..." shows while `loading` is set |
| DisplayJsx.SignLanguageDisplay.CurrentSource | src/SignLanguageDisplay.jsx:112 | the `src` of the video element is the URL at the current index |
| DisplayJsx.RestartDisabledAtStart | src/SignLanguageDisplay.jsx:130 | while the controls show, the button is disabled exactly at index 0 (the length test in the source is redundant) |
| DisplayJs.Words | src/SignLanguageDisplay.js:9 | `text.split(' ')`, empty tokens kept (inverted by WordsOfJoin; lossless by WordsKeepEverything) |
| DisplayJs.WordsKeepEverything | src/SignLanguageDisplay.js:9 | `split(' ')` loses nothing: joining the tokens back gives the text, and there is one token more than there are spaces |
| DisplayJs.WordsOfJoin | src/SignLanguageDisplay.js:9 | `split(' ')` gives back any words without spaces joined with single spaces, empty words included |
| DisplayJs.ScanAt | src/SignLanguageDisplay.js:15-33 | one pass appends exactly the scan's entry under the `PUBLIC_URL` prefix (a URL or `null`) and moves by the scan's advance |
| DisplayJs.GenerateUrls | src/SignLanguageDisplay.js:10-34 | the list, `null`s kept, is exactly the scan of the words |
| DisplayJs.UrlsIgnoreCase | src/SignLanguageDisplay.js:9-17 | texts that differ only in letter case are both empty or both not, and get the same list, gaps included |
| DisplayJs.SignLanguageDisplay.constructor | src/SignLanguageDisplay.js:5-6 | an empty list and index 0 |
| DisplayJs.SignLanguageDisplay.GenerateSignLanguage | src/SignLanguageDisplay.js:8-38 | the list becomes the scan of `text.split(' ')`, `null`s kept, and the index 0 |
| DisplayJs.SignLanguageDisplay.TextChanged | src/SignLanguageDisplay.js:40-44 | empty text changes nothing; other text regenerates the list and rewinds |
| DisplayJs.SignLanguageDisplay.HandleVideoEnded | src/SignLanguageDisplay.js:46-48 | the index grows by one and the list stays |
| DisplayJs.SignLanguageDisplay.IsPlaying | src/SignLanguageDisplay.js:53 | the video element shows when there are slots and the index is inside the list |
| DisplayJs.SignLanguageDisplay.CurrentSource | src/SignLanguageDisplay.js:56 | the `src` of the video element is the slot at the current index, which may be `null` |
| DisplayJs.PastTheEndShowsNothing | src/SignLanguageDisplay.js:53 | once the index reaches the length, no video is shown |
| Text.IsSpace | components/sign-language-display.tsx:43 | the white space of `trim()` and `\s`: space, tab, newline, carriage return, vertical tab and form feed |
| Text.Lower | components/sign-language-display.tsx:52 | `toLowerCase()` on ASCII letters, other characters kept (idempotent: LowerIdempotent) |
| Text.Join | components/sign-language-display.tsx:52 | `join(" ")`: the words with one space between neighbours (LowerJoin) |
| Text.SplitRuns | components/sign-language-display.tsx:43 | `split(/\s+/)`: every maximal run of white space ends a piece (SplitRunsJoin, SplitTrimmedWords) |
| Text.SplitOnSpace | src/SignLanguageDisplay.js:9 | `split(' ')`: every single space ends a piece, so doubled and outer spaces give empty pieces (JoinSplitOnSpace, SplitOnSpaceJoin) |
| Text.Upper | new.py:214 | `str.upper()` on ASCII letters, other characters kept |
| Text.Trim | components/sign-language-display.tsx:36 | `trim()` leaves neither leading nor trailing white space |
| Text.TrimDropsOnlySpace | components/sign-language-display.tsx:43 | `trim()` removes only white space, from both ends, and keeps a contiguous middle |
| Text.LowerTrim | components/sign-language-display.tsx:43 | lowercasing commutes with `trim()` |
| Text.LowerSplitRuns | components/sign-language-display.tsx:43 | lowercasing commutes with `split(/\s+/)` |
| Text.SplitTrimmedWords | components/sign-language-display.tsx:43 | splitting a trimmed non-empty text on white-space runs gives non-empty words without white space |
| Text.SplitRunsJoin | src/SignLanguageDisplay.jsx:26 | `split(/\s+/)` inverts joining non-empty words with single spaces |
| Text.JoinSplitOnSpace | src/SignLanguageDisplay.js:9 | joining the pieces of `split(' ')` with spaces gives back the text |
| Text.SplitOnSpaceLength | src/SignLanguageDisplay.js:9 | `split(' ')` yields one more piece than there are spaces |
| Text.SplitOnSpaceJoin | src/SignLanguageDisplay.js:9 | `split(' ')` inverts joining space-free words with single spaces |
| Text.LowerSplitOnSpace | src/SignLanguageDisplay.js:9 | lowercasing commutes with `split(' ')` |
| Text.LowerJoin | components/sign-language-display.tsx:52 | lowercasing a joined phrase is joining the lowercased words |
| Text.LowerIdempotent | components/sign-language-display.tsx:52 | `toLowerCase()` twice is `toLowerCase()` once |
| Nlp.Texts | new.py:123 | one word text per pipeline word |
| Nlp.SentenceTexts | new.py:117-119 | one sentence text per sentence |
| Nlp.WordTexts | new.py:121-126 | one word list per sentence |
| Nlp.WordDetails | new.py:124-126 | one list of word details per sentence |
| Nlp.LemmaOrKeep | new.py:205-206 | a word longer than one character becomes the lemma of the record at its position, and a shorter one stays; `main.py:98` does the same |
| Nlp.Lemmatized | new.py:204-206 | lemma substitution keeps the length of the word list |
| Nlp.LemmatizedAll | new.py:202-206 | lemma substitution keeps the number of sentences |
| Nlp.LemmatizedMeaning | new.py:202-206 | position j becomes the lemma of detail j when the word is longer than one character and a detail exists there; otherwise it stays |
| Nlp.LemmatizedIdempotent | new.py:202-206 | substituting lemmas twice gives the same list as once |
| Nlp.PairingIsPositional | new.py:203-204 | after stop words are removed, lemmas are still paired by position, so a removed word's detail lands on its neighbour |
| Translator.IsPySpace | new.py:114 | the white space of `str.strip()` among ASCII characters: the six of `Text.IsSpace` and the separators 0x1C to 0x1F |
| Translator.StripStart | new.py:114 | the leading half of Python `strip()`: the result does not start with white space (what it keeps and drops: StripStartDropsSpace) |
| Translator.StripEnd | new.py:114 | the trailing half: a prefix of the text that does not end with white space (what it drops: StripEndDropsSpace) |
| Translator.StripStartDropsSpace | new.py:114 | the leading half keeps a suffix of the text, and every character it drops is white space |
| Translator.StripEndDropsSpace | new.py:114 | every character the trailing half drops is white space |
| Translator.Strip | new.py:114 | `strip()` leaves no white space at either end (which characters go is StripDropsOnlySpace) |
| Translator.StripDropsOnlySpace | new.py:114 | `strip()` keeps a contiguous middle of the text and drops only white space before and after it |
| Translator.StripStripped | new.py:114 | `strip()` leaves a text without white space at its ends as it is |
| Translator.Without | new.py:114 | `replace(c, "")` leaves no `c` |
| Translator.WithoutIsFilter | new.py:114 | `replace(c, "")` is the filter that drops `c`: the result is a subsequence of the input, as long as the number of characters other than `c` |
| Translator.WithoutKeepsOthers | new.py:114 | a character other than `c` occurs in the result of `replace(c, "")` exactly when it occurs in the input (order and counts: WithoutIsFilter) |
| Translator.WithoutAppend | new.py:114 | `replace(c, "")` works piece by piece over a concatenation |
| Translator.WithoutAbsent | new.py:114 | `replace(c, "")` on a text without `c` changes nothing |
| Translator.WithoutKeepsEnds | new.py:114 | `replace(c, "")` keeps the first and last characters when neither is `c` |
| Translator.WithoutKeepsFirst | new.py:114 | `replace(c, "")` keeps the first character when it is not `c` |
| Translator.WithoutNewlinesAndTabs | new.py:114 | removing newlines and then tabs is one filter that drops both |
| Translator.CleanInput | new.py:113-114 | `text.strip().replace("\n", "").replace("\t", "")` (meaning: CleanInputMeaning; idempotent: CleanInputIdempotent) |
| Translator.CleanInputMeaning | new.py:113-114 | `_clean_input` is the stripped text with exactly its newlines and tabs filtered out, in order; so no newline or tab is left, every other character of the stripped text stays, and neither end is white space |
| Translator.CleanInputIdempotent | new.py:113-114 | cleaning a cleaned text changes nothing |
| Translator.AllSingleCharacters | new.py:133 | `all(len(word) == 1 for word in words)`, true of the empty sentence |
| Translator.ReorderSentence | new.py:132-140 | a sentence of single characters is returned as it is; any other goes to the parser, given as `parse` (ShortcutSkipsParser, LongWordGoesToParser) |
| Translator.ShortcutSkipsParser | new.py:132-134 | a sentence of single characters comes back unchanged for every parser: the parser is not consulted |
| Translator.LongWordGoesToParser | new.py:132-140 | a sentence with a word of another length is what the parser makes of it |
| Translator.NotPunct | new.py:190 | a pair survives when its record is not tagged `PUNCT` |
| Translator.KeptPairs | new.py:189-192 | the surviving pairs of one sentence, `zip` stopping at the shorter list (PunctuationRemovedExactly) |
| Translator.WordsWithoutPunct | new.py:185-194 | one filtered word list per sentence |
| Translator.DetailsWithoutPunct | new.py:185-194 | one filtered detail list per sentence |
| Translator.PunctuationRemovedExactly | new.py:185-194 | after `_remove_punctuation` words and details stay paired; no detail is PUNCT; the kept pairs are, in order, exactly the non-PUNCT pairs of the zipped input |
| Translator.PunctStep | new.py:189-192 | one inner iteration appends the pair exactly when its detail is not PUNCT |
| Translator.SentenceWithoutPunct | new.py:187-192 | the inner loop's two lists are the two halves of the kept pairs |
| Translator.NotStopWord | new.py:199 | a word survives when its lowercase form is not a stop word |
| Translator.StopFiltered | new.py:199 | the surviving words of one zipped sentence (StopWordsFiltered) |
| Translator.FinalWordsFor | new.py:196-200 | one filtered list per zipped sentence |
| Translator.StopWordsFiltered | new.py:199 | no kept word is a stop word after lowercasing; the kept words are, in order, exactly the non-stop words of the zipped words |
| Translator.LemmatizeSentence | new.py:204-206 | the inner loop substitutes lemmas in place as `Lemmatized` does |
| Translator.Letters | new.py:214 | `list(s)`: one entry per character |
| Translator.RenderedAll | new.py:208-217 | one output list per sentence |
| Translator.LettersSpell | new.py:214 | the single letters of a word spell it |
| Translator.Rendered | new.py:213-216 | a known word is one lowercase entry; any other is its uppercase letters, one entry each |
| Translator.RenderedSentence | new.py:211-216 | the entries of a sentence, word after word (RenderedSentenceSpells) |
| Translator.Spelled | new.py:213-216 | the text a word's entries spell: lowercase when known, uppercase otherwise |
| Translator.SpelledText | new.py:211-216 | the words of a sentence as spelled, run together |
| Translator.RenderedWord | new.py:212-216 | the entries of a word spell its output form; an unknown word becomes one upper-case letter per character |
| Translator.RenderedSentenceSpells | new.py:211-216 | the entries of a sentence spell its words' output forms in order |
| Translator.RenderSentence | new.py:211-216 | the inner loop builds exactly the sentence's rendering |
| Translator.Shown | new.py:222 | `word.upper() if len(word) == 1 else word` |
| Translator.ShownEntries | new.py:222 | a fingerspelled letter is shown as it is; a known one-letter word is shown upper-cased |
| Translator.ISLTranslator.constructor | new.py:92-98 | every list starts empty |
| Translator.ISLTranslator.ClearState | new.py:225-231 | every list becomes empty |
| Translator.ISLTranslator.ReorderWords | new.py:128-130 | every sentence's word list is replaced by `_reorder_sentence` of it and the number of sentences stays; only the words change |
| Translator.ISLTranslator.RemovePunctuation | new.py:185-194 | words and details become their punctuation-free versions; the other lists stay |
| Translator.ISLTranslator.FilterStopWords | new.py:196-200 | the final words become the stop-word-filtered sentences, and only they change |
| Translator.ISLTranslator.LemmatizeWords | new.py:202-206 | the final words get lemmas by position, and only they change |
| Translator.ISLTranslator.Preprocess | new.py:180-183 | the three steps in order: the final words are the lemmatised non-stop words of the punctuation-free sentences |
| Translator.ISLTranslator.GenerateFinalOutput | new.py:208-217 | the output is each sentence rendered: known words lowercased, the others spelled out in capitals |
| Translator.ISLTranslator.FormatResponse | new.py:219-223 | the keys are exactly 1 to the number of entries; key k holds entry k-1 of the flattened output, upper-cased when it is one character |
| Preprocess.PreprocessText | main.py:72-88 | the four lists are the sentence texts, the sentences, the word texts and the words, all of the document's length |
| Preprocess.NotStopWord | main.py:92 | `word not in STOP_WORDS`, compared exactly as written |
| Preprocess.RemoveStopwords | main.py:91-92 | one filtered list per sentence |
| Preprocess.RemoveStopwordsExactly | main.py:92 | no kept word is a stop word (compared as written); the kept words are, in order, exactly the non-stop words |
| Preprocess.LemmatizeRow | main.py:97-98 | a row is rewritten in place into its lemma-substituted form |
| Preprocess.LemmatizeWords | main.py:95-99 | returns the same rows; row i is lemma-substituted when it has a detail list, and unchanged otherwise |
| Scenarios.JsKeepsEmptyTokens | src/SignLanguageDisplay.js:9 | `" hello".split(' ')` keeps an empty first token |
| Scenarios.TsxDropsEmptyTokens | components/sign-language-display.tsx:43 | the trimmed white-space split of `" hello"` is just `["hello"]` |
| Scenarios.TrimmedAlready | components/sign-language-display.tsx:36 | a text without white space at its ends is its own trim |
| Scenarios.CleaningAText | new.py:114 | `" a\nb "` cleans to `"ab"` |
| Scenarios.CapitalIsIsNoStopWord | main.py:30 | "Is" is not in the stop-word set |
| Scenarios.ItIsNoStopWord | new.py:38-42 | "it" is not in the stop-word set |
| Scenarios.MainKeepsIs | main.py:92 | the case-sensitive filter keeps "Is" |
| Scenarios.NewDropsIs | new.py:199 | the lowercasing filter drops "Is" |
| Scenarios.StopWordCaseDiffers | new.py:199 | the two back ends filter the same sentence differently |
| Scenarios.Fingerspelling | new.py:212-216 | a known word comes out lowercased, an unknown one as capital letters |
| Scenarios.StaleSkipAfterRestart | components/sign-language-display.tsx:105-115 | the first clip ends, the second fails, Restart goes back to the first, and the pending timer then moves the player to the second clip with the error for it still shown |
| Scenarios.NumberedResponse | new.py:219-223 | `[["hello", "a"], ["B"]]` is numbered `{1: "hello", 2: "A", 3: "B"}` |

## Left out

- Letter case and white space are ASCII only. JavaScript's `toLowerCase`,
  `trim` and `\s`, and Python's `lower`, `upper` and `strip`, also act on
  non-ASCII characters.
- `Lower(w) !in valid` in `Translator` compares exact strings. There is no
  Unicode case folding.
- Dictionary lookups do not see JavaScript's inherited object properties,
  such as a phrase spelled "constructor". The dictionary is a plain map
  from phrase to path.
- `isl_dictionary.json`, `words.txt`, `getBaseUrl()` and
  `process.env.PUBLIC_URL` are parameters or constants. They are not read
  from files.
- The one-second delay of `setTimeout` is not modelled. A scheduled skip is
  a pending counter, and `AdvanceTimerFires` runs one of them at any later
  time.
- React rendering, state batching and the `key` remount of the video
  element are not modelled. Each handler's updates take effect together,
  and the rendered view is a set of predicates over the state.
- The `catch` branches (components/sign-language-display.tsx:84-88,
  src/SignLanguageDisplay.jsx:68-72) are not modelled. Nothing in the body
  can throw on a string input.
- `console.log`, `console.error` and the progress bar's and buttons' styling
  are not modelled.
- `DisplayTsx.SignLanguageDisplay.SyncProgress`: progress is an exact real
  `index / length * 100`, not a floating-point number.
- The parser path of `_reorder_sentence` is not modelled: the Stanford
  parse, `_modify_tree_structure`, `_label_subtrees`, `_handle_noun_clause`
  and `_handle_verb_clause` need the external parser.
  `Translator.ReorderSentence` takes what they make of a sentence as the
  parameter `parse`.
  - As written, that path always fails. `_modify_tree_structure` calls
    `Tree('ROOT', [])` (new.py:144), but only `ParentedTree` is imported
    (new.py:11). So `_reorder_words` raises `NameError` for any sentence
    with a word whose length is not 1, such as "hello".
  - The `/process` route (new.py:241-248) does not catch it. `_preprocess`,
    `_generate_final_output` and `_format_response` are therefore reached
    only when every sentence is made of one-character words.
  - `parse` is a total function, so it models the intended parser, not
    this error path.
- `process_text`, `_extract_sentences` and `_extract_words` are left out.
  - Their list building is modelled by `Nlp.SentenceTexts`, `Nlp.WordTexts`
    and `Nlp.WordDetails`.
  - The call into the NLP pipeline is not modelled.
- Stanza, NLTK, the Flask routes, the parser download and unpacking
  (`StanfordParserSetup`, `setup_stanford_parser`, `reporthook`) and
  `reorder_eng_to_isl` are I/O or external code, and are left out.
- `Preprocess.LemmatizeWords`: the rows must be distinct arrays
  (`DistinctRows`). When one list object appears twice in
  `final_word_list`, Python rewrites it twice; that aliasing is not
  modelled.
- `Translator.ISLTranslator.FormatResponse`: the response is a map from
  integers. Flask's JSON encoding turns the keys into strings, and that is
  not modelled.
