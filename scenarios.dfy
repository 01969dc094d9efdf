/** Worked examples: facts proved about concrete inputs, showing the
    behaviours the components and the back ends are known for. */
module Scenarios {
  import opened Seqs
  import opened Text
  import opened Segmenter
  import opened Nlp
  import DisplayTsx
  import DisplayJs
  import Translator
  import Preprocess

  /** A text that starts and ends with a non-space is its own trim. */
  lemma TrimmedAlready(s: string)
    requires s != [] && !IsSpace(s[0]) && !IsSpace(s[|s| - 1])
    ensures Trim(s) == s
  {
  }

  /** The JavaScript component splits on single spaces without trimming:
      a leading space gives an empty first token. */
  lemma JsKeepsEmptyTokens()
    ensures DisplayJs.Words(" hello") == ["", "hello"]
  {
    assert Join(["", "hello"]) == " hello";
    SplitOnSpaceJoin(["", "hello"]);
  }

  /** The TypeScript component trims the text and splits on runs of white
      space, so the same text gives one token. */
  lemma TsxDropsEmptyTokens()
    ensures DisplayTsx.Words(" hello") == ["hello"]
  {
    assert TrimStart(" hello") == "hello" by { assert " hello"[1..] == "hello"; }
    TrimmedAlready("hello");
    JoinOne("hello");
    SplitRunsJoin(["hello"]);
  }

  /** `_clean_input` strips the ends, then drops the newline inside. */
  lemma CleaningAText()
    ensures Translator.CleanInput(" a\nb ") == "ab"
  {
    var s := " a\nb ";
    assert Translator.StripStart(s) == "a\nb " by { assert s[1..] == "a\nb "; }
    assert Translator.StripEnd("a\nb ") == "a\nb" by {
      assert "a\nb "[..3] == "a\nb";
    }
    assert "a\nb" == "a" + ("\n" + "b");
    Translator.WithoutAppend("a", "\n" + "b", '\n');
    Translator.WithoutAppend("\n", "b", '\n');
    assert Translator.Without("\n", '\n') == [] by { assert "\n"[..0] == []; }
    Translator.WithoutAbsent("b", '\n');
    Translator.WithoutAbsent("a", '\n');
    assert "ab" == "a" + "b";
    Translator.WithoutAbsent("ab", '\t');
  }

  lemma CapitalIsIsNoStopWord()
    ensures "Is" !in StopWords
  {
    assert "Is"[0] == 'I';
  }

  lemma ItIsNoStopWord()
    ensures "it" !in StopWords
  {
    assert "it"[1] == 't';
  }

  lemma MainKeepsIs()
    ensures Filter(["Is", "it", "is"], Preprocess.NotStopWord) == ["Is", "it"]
  {
    CapitalIsIsNoStopWord();
    ItIsNoStopWord();
    FilterSnoc([], "Is", Preprocess.NotStopWord);
    assert Filter(["Is"], Preprocess.NotStopWord) == ["Is"] by { assert [] + ["Is"] == ["Is"]; }
    FilterSnoc(["Is"], "it", Preprocess.NotStopWord);
    assert Filter(["Is", "it"], Preprocess.NotStopWord) == ["Is", "it"] by { assert ["Is"] + ["it"] == ["Is", "it"]; }
    FilterSnoc(["Is", "it"], "is", Preprocess.NotStopWord);
    assert ["Is", "it"] + ["is"] == ["Is", "it", "is"];
  }

  lemma NewDropsIs()
    ensures Filter(["Is", "it", "is"], Translator.NotStopWord) == ["it"]
  {
    assert Lower("Is") == "is";
    assert Lower("it") == "it";
    ItIsNoStopWord();
    assert Lower("is") == "is";
    FilterSnoc([], "Is", Translator.NotStopWord);
    FilterSnoc(["Is"], "it", Translator.NotStopWord);
    assert Filter(["Is", "it"], Translator.NotStopWord) == ["it"] by { assert ["Is"] + ["it"] == ["Is", "it"]; assert [] + ["it"] == ["it"]; }
    FilterSnoc(["Is", "it"], "is", Translator.NotStopWord);
    assert ["Is", "it"] + ["is"] == ["Is", "it", "is"];
  }

  /** new.py drops "Is" because it lowercases before the stop-word test;
      main.py keeps it because its test is exact. */
  lemma StopWordCaseDiffers()
    ensures Translator.StopFiltered(["Is", "it", "is"], [Word("Is", "AUX", "be"), Word("it", "PRON", "it"), Word("is", "AUX", "be")]) == ["it"]
    ensures Preprocess.RemoveStopwords([["Is", "it", "is"]]) == [["Is", "it"]]
  {
    var ws := ["Is", "it", "is"];
    var ds := [Word("Is", "AUX", "be"), Word("it", "PRON", "it"), Word("is", "AUX", "be")];
    assert Firsts(Zip(ws, ds)) == ws;
    NewDropsIs();
    MainKeepsIs();
    assert Preprocess.RemoveStopwords([ws])[0] == Filter(ws, Preprocess.NotStopWord);
  }

  /** A known word is one lowercase entry; an unknown one is spelled out
      in capitals. */
  lemma Fingerspelling()
    ensures Translator.Rendered({"hello"}, "Hello") == ["hello"]
    ensures Translator.Rendered({"hello"}, "Bob") == ["B", "O", "B"]
  {
    assert Lower("Hello") == "hello";
    assert Lower("Bob") == "bob";
    assert "bob" != "hello";
    assert Upper("Bob") == "BOB";
  }

  /** The error skip is never cancelled. The first clip ends, the second
      fails to load and schedules a skip; a restart during the 1000 ms wait
      goes back to the first clip, and then the pending skip moves playback
      on to the second clip, past the first, with the old message still
      shown. */
  method StaleSkipAfterRestart(d: Dict, text: string) returns (index: nat, shown: Option<string>)
    requires Trim(text) != "" && |DisplayTsx.UrlsFor(d, text)| >= 2
    ensures index == 1
    ensures shown == Some(DisplayTsx.ErrorMessage(DisplayTsx.UrlsFor(d, text), 1))
  {
    var player := new DisplayTsx.SignLanguageDisplay(d);
    player.GenerateSignLanguage(text);
    player.HandleVideoEnded();
    player.HandleVideoError();
    player.Restart();
    player.AdvanceTimerFires();
    index, shown := player.currentVideoIndex, player.error;
  }

  /** `_format_response` numbers every entry of every sentence from 1 and
      shows single characters in capitals. */
  method NumberedResponse() returns (response: map<int, string>)
    ensures response == map[1 := "hello", 2 := "A", 3 := "B"]
  {
    var t := new Translator.ISLTranslator({"hello", "a"});
    t.processedOutput := [["hello", "a"], ["B"]];
    response := t.FormatResponse();
    assert Flatten(t.processedOutput) == ["hello", "a", "B"] by {
      assert Flatten([["hello", "a"]]) == ["hello", "a"];
    }
    assert Upper("a") == "A" && Upper("B") == "B";
  }
}
