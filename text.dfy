/** The string built-ins the core relies on: case mapping, trimming,
    joining with a space and the two ways the components split text.
    Case mapping covers the ASCII letters and whitespace covers the six
    ASCII whitespace characters, which JavaScript's `trim`/`\s` and
    Python's `str.strip` all treat as white space. */
module Text {

  predicate IsSpace(c: char)
  {
    c == ' ' || c == '\t' || c == '\n' || c == '\r' || c == '\U{0B}' || c == '\U{0C}'
  }

  function LowerChar(c: char): char
  {
    if 'A' <= c <= 'Z' then (c as int + 32) as char else c
  }

  function UpperChar(c: char): char
  {
    if 'a' <= c <= 'z' then (c as int - 32) as char else c
  }

  /** `toLowerCase()` / `str.lower()`. */
  function Lower(s: string): string
  {
    seq(|s|, k requires 0 <= k < |s| => LowerChar(s[k]))
  }

  /** `str.upper()`. */
  function Upper(s: string): string
  {
    seq(|s|, k requires 0 <= k < |s| => UpperChar(s[k]))
  }

  /** Every word lowercased. */
  function MapLower(ws: seq<string>): (r: seq<string>)
    ensures |r| == |ws|
  {
    seq(|ws|, k requires 0 <= k < |ws| => Lower(ws[k]))
  }

  /** Lowercasing commutes with taking a slice of the words. */
  lemma MapLowerSlice(ws: seq<string>, i: nat, j: nat)
    requires i <= j <= |ws|
    ensures MapLower(ws)[i..j] == MapLower(ws[i..j])
  {
  }

  lemma MapLowerCons(w: string, ws: seq<string>)
    ensures MapLower([w] + ws) == [Lower(w)] + MapLower(ws)
  {
  }

  lemma LowerIdempotent(s: string)
    ensures Lower(Lower(s)) == Lower(s)
  {
  }

  lemma LowerAppend(a: string, b: string)
    ensures Lower(a + b) == Lower(a) + Lower(b)
  {
  }

  /** `ws.join(" ")`. */
  function Join(ws: seq<string>): string
  {
    if |ws| == 0 then ""
    else if |ws| == 1 then ws[0]
    else ws[0] + " " + Join(ws[1..])
  }

  lemma JoinOne(w: string)
    ensures Join([w]) == w
  {
  }

  /** Lowercasing a joined phrase is joining the lowercased words. */
  lemma {:induction false} LowerJoin(ws: seq<string>)
    ensures Lower(Join(ws)) == Join(MapLower(ws))
  {
    if |ws| > 1 {
      LowerJoin(ws[1..]);
      assert MapLower(ws)[1..] == MapLower(ws[1..]);
      LowerAppend(ws[0] + " ", Join(ws[1..]));
      LowerAppend(ws[0], " ");
    }
  }

  /** Leading white space removed (`trimStart` / `lstrip`). */
  function TrimStart(s: string): (r: string)
    ensures |r| <= |s| && r == s[|s| - |r|..]
    ensures r == [] || !IsSpace(r[0])
  {
    if s != [] && IsSpace(s[0]) then TrimStart(s[1..]) else s
  }

  /** Trailing white space removed (`trimEnd` / `rstrip`). */
  function TrimEnd(s: string): (r: string)
    ensures |r| <= |s| && r == s[..|r|]
    ensures r == [] || !IsSpace(r[|r| - 1])
  {
    if s != [] && IsSpace(s[|s| - 1]) then TrimEnd(s[..|s| - 1]) else s
  }

  /** `trim()` / `strip()`. */
  function Trim(s: string): (r: string)
    ensures r == [] || (!IsSpace(r[0]) && !IsSpace(r[|r| - 1]))
  {
    TrimEnd(TrimStart(s))
  }

  /** Trimming removes nothing but white space: what it drops at either end
      is all white space, and what is left is a contiguous piece of `s`. */
  lemma {:induction false} TrimDropsOnlySpace(s: string)
    ensures exists a, b :: (0 <= a <= b <= |s| && Trim(s) == s[a..b] &&
                            (forall k :: 0 <= k < a ==> IsSpace(s[k])) &&
                            (forall k :: b <= k < |s| ==> IsSpace(s[k])))
  {
    var t := TrimStart(s);
    var a := |s| - |t|;
    TrimStartDropsSpace(s);
    var r := TrimEnd(t);
    TrimEndDropsSpace(t);
    var b := a + |r|;
    assert r == s[a..b] by {
      assert t == s[a..] && r == t[..|r|];
    }
    forall k | b <= k < |s|
      ensures IsSpace(s[k])
    {
      assert s[k] == t[k - a];
    }
  }

  lemma {:induction false} TrimStartDropsSpace(s: string)
    ensures forall k :: 0 <= k < |s| - |TrimStart(s)| ==> IsSpace(s[k])
  {
    if s != [] && IsSpace(s[0]) {
      TrimStartDropsSpace(s[1..]);
    }
  }

  lemma {:induction false} TrimEndDropsSpace(s: string)
    ensures forall k :: |TrimEnd(s)| <= k < |s| ==> IsSpace(s[k])
  {
    if s != [] && IsSpace(s[|s| - 1]) {
      TrimEndDropsSpace(s[..|s| - 1]);
    }
  }

  lemma LowerCharSpace(c: char)
    ensures IsSpace(LowerChar(c)) == IsSpace(c)
  {
  }

  lemma LowerFront(s: string)
    requires s != []
    ensures Lower(s)[0] == LowerChar(s[0]) && Lower(s)[1..] == Lower(s[1..])
  {
  }

  lemma LowerBack(s: string)
    requires s != []
    ensures Lower(s)[|s| - 1] == LowerChar(s[|s| - 1])
    ensures Lower(s)[..|s| - 1] == Lower(s[..|s| - 1])
  {
  }

  lemma {:induction false} LowerTrimStart(s: string)
    ensures Lower(TrimStart(s)) == TrimStart(Lower(s))
  {
    if s != [] {
      LowerFront(s);
      LowerCharSpace(s[0]);
      if IsSpace(s[0]) {
        LowerTrimStart(s[1..]);
      }
    }
  }

  lemma {:induction false} LowerTrimEnd(s: string)
    ensures Lower(TrimEnd(s)) == TrimEnd(Lower(s))
  {
    if s != [] {
      LowerBack(s);
      LowerCharSpace(s[|s| - 1]);
      if IsSpace(s[|s| - 1]) {
        LowerTrimEnd(s[..|s| - 1]);
      }
    }
  }

  /** Lowercasing before or after trimming gives the same string. */
  lemma LowerTrim(s: string)
    ensures Lower(Trim(s)) == Trim(Lower(s))
  {
    LowerTrimEnd(TrimStart(s));
    LowerTrimStart(s);
  }

  // ----- split(/\s+/) -----

  /** `s.split(/\s+/)` with the piece being built so far in `cur`: every
      maximal run of white space ends a piece, so white space at either end
      gives an empty piece there. */
  function SplitRunsFrom(s: string, cur: string): (r: seq<string>)
    ensures |r| >= 1
    decreases |s|
  {
    if s == [] then [cur]
    else if IsSpace(s[0]) then [cur] + SplitRunsFrom(TrimStart(s), "")
    else SplitRunsFrom(s[1..], cur + [s[0]])
  }

  function SplitRuns(s: string): seq<string>
  {
    SplitRunsFrom(s, "")
  }

  predicate NoSpace(w: string)
  {
    forall k :: 0 <= k < |w| ==> !IsSpace(w[k])
  }

  /** Splitting a trimmed, non-empty string on white-space runs gives
      non-empty words that contain no white space. */
  lemma SplitTrimmedWords(s: string)
    requires s != [] && !IsSpace(s[0]) && !IsSpace(s[|s| - 1])
    ensures forall k :: 0 <= k < |SplitRuns(s)| ==> SplitRuns(s)[k] != "" && NoSpace(SplitRuns(s)[k])
  {
    SplitRunsFromWords(s, "");
  }

  lemma {:induction false} SplitRunsFromWords(s: string, cur: string)
    requires NoSpace(cur)
    requires s == [] || !IsSpace(s[|s| - 1])
    requires cur != "" || (s != [] && !IsSpace(s[0]))
    ensures forall k :: 0 <= k < |SplitRunsFrom(s, cur)| ==>
      SplitRunsFrom(s, cur)[k] != "" && NoSpace(SplitRunsFrom(s, cur)[k])
    decreases |s|
  {
    if s == [] {
    } else if IsSpace(s[0]) {
      var t := TrimStart(s);
      TrimStartDropsSpace(s);
      assert t != [] && t[|t| - 1] == s[|s| - 1];
      SplitRunsFromWords(t, "");
    } else {
      assert s[1..] == [] || s[1..][|s[1..]| - 1] == s[|s| - 1];
      SplitRunsFromWords(s[1..], cur + [s[0]]);
    }
  }

  lemma {:induction false} LowerSplitRunsFrom(s: string, cur: string)
    ensures SplitRunsFrom(Lower(s), Lower(cur)) == MapLower(SplitRunsFrom(s, cur))
    decreases |s|
  {
    if s == [] {
      assert Lower(s) == [];
    } else if IsSpace(s[0]) {
      var t := TrimStart(s);
      LowerSplitRunsAtSpace(s, cur);
      LowerSplitRunsFrom(t, "");
      assert Lower("") == "";
      MapLowerCons(cur, SplitRunsFrom(t, ""));
    } else {
      LowerSplitRunsAtChar(s, cur);
      LowerSplitRunsFrom(s[1..], cur + [s[0]]);
    }
  }

  /** At a white-space character both splits end the current piece and
      go on after the run of white space. */
  lemma LowerSplitRunsAtSpace(s: string, cur: string)
    requires s != [] && IsSpace(s[0])
    ensures |TrimStart(s)| < |s|
    ensures SplitRunsFrom(Lower(s), Lower(cur)) == [Lower(cur)] + SplitRunsFrom(Lower(TrimStart(s)), "")
    ensures SplitRunsFrom(s, cur) == [cur] + SplitRunsFrom(TrimStart(s), "")
  {
    LowerFront(s);
    LowerCharSpace(s[0]);
    assert TrimStart(s) == TrimStart(s[1..]);
    LowerTrimStart(s);
    assert Lower("") == "";
  }

  /** At any other character both splits extend the current piece. */
  lemma LowerSplitRunsAtChar(s: string, cur: string)
    requires s != [] && !IsSpace(s[0])
    ensures SplitRunsFrom(Lower(s), Lower(cur)) == SplitRunsFrom(Lower(s[1..]), Lower(cur + [s[0]]))
    ensures SplitRunsFrom(s, cur) == SplitRunsFrom(s[1..], cur + [s[0]])
  {
    LowerFront(s);
    LowerCharSpace(s[0]);
    LowerAppend(cur, [s[0]]);
    assert Lower([s[0]]) == [LowerChar(s[0])];
  }

  /** Lowercasing the text first lowercases each word of the split. */
  lemma LowerSplitRuns(s: string)
    ensures SplitRuns(Lower(s)) == MapLower(SplitRuns(s))
  {
    LowerSplitRunsFrom(s, "");
    assert Lower("") == "";
  }

  lemma {:induction false} SplitRunsFromWord(w: string, rest: string, cur: string)
    requires NoSpace(w)
    ensures SplitRunsFrom(w + rest, cur) == SplitRunsFrom(rest, cur + w)
  {
    if w != [] {
      assert (w + rest)[0] == w[0] && !IsSpace(w[0]);
      assert NoSpace(w[1..]);
      assert (w + rest)[1..] == w[1..] + rest;
      assert SplitRunsFrom(w + rest, cur) == SplitRunsFrom(w[1..] + rest, cur + [w[0]]);
      assert (cur + [w[0]]) + w[1..] == cur + w;
      SplitRunsFromWord(w[1..], rest, cur + [w[0]]);
    } else {
      assert w + rest == rest && cur + w == cur;
    }
  }

  lemma SplitRunsAfterSpace(tail: string, cur: string)
    requires tail != [] && !IsSpace(tail[0])
    ensures SplitRunsFrom(" " + tail, cur) == [cur] + SplitRunsFrom(tail, "")
  {
    var s := " " + tail;
    assert s[1..] == tail;
    assert TrimStart(s) == TrimStart(tail) == tail;
  }

  lemma {:induction false} SplitRunsFromJoin(ws: seq<string>, cur: string)
    requires |ws| >= 1 && forall k :: 0 <= k < |ws| ==> ws[k] != "" && NoSpace(ws[k])
    ensures SplitRunsFrom(Join(ws), cur) == [cur + ws[0]] + ws[1..]
  {
    if |ws| == 1 {
      SplitRunsFromWord(ws[0], "", cur);
      assert ws[0] + "" == ws[0];
    } else {
      var tail := Join(ws[1..]);
      assert Join(ws) == ws[0] + (" " + tail);
      SplitRunsFromWord(ws[0], " " + tail, cur);
      JoinStartsWithWord(ws[1..]);
      SplitRunsAfterSpace(tail, cur + ws[0]);
      SplitRunsFromJoin(ws[1..], "");
      assert "" + ws[1] == ws[1];
      assert [ws[1]] + ws[1..][1..] == ws[1..];
    }
  }

  lemma JoinStartsWithWord(ws: seq<string>)
    requires |ws| >= 1 && ws[0] != ""
    ensures Join(ws) != "" && Join(ws)[0] == ws[0][0]
  {
  }

  lemma {:induction false} JoinEndsWithWord(ws: seq<string>)
    requires |ws| >= 1 && ws[|ws| - 1] != ""
    ensures Join(ws) != "" && Join(ws)[|Join(ws)| - 1] == ws[|ws| - 1][|ws[|ws| - 1]| - 1]
  {
    if |ws| > 1 {
      JoinEndsWithWord(ws[1..]);
    }
  }

  /** Round trip for the white-space split: non-empty words without white
      space, joined with single spaces, split back into the same words. */
  lemma SplitRunsJoin(ws: seq<string>)
    requires |ws| >= 1 && forall k :: 0 <= k < |ws| ==> ws[k] != "" && NoSpace(ws[k])
    ensures SplitRuns(Join(ws)) == ws
  {
    SplitRunsFromJoin(ws, "");
    assert "" + ws[0] == ws[0];
    assert [ws[0]] + ws[1..] == ws;
  }

  // ----- split(' ') -----

  /** `s.split(' ')` with the piece being built so far in `cur`: every
      single space ends a piece, so each doubled, leading or trailing
      space gives an empty piece. */
  function SplitOnSpaceFrom(s: string, cur: string): (r: seq<string>)
    ensures |r| >= 1
  {
    if s == [] then [cur]
    else if s[0] == ' ' then [cur] + SplitOnSpaceFrom(s[1..], "")
    else SplitOnSpaceFrom(s[1..], cur + [s[0]])
  }

  function SplitOnSpace(s: string): seq<string>
  {
    SplitOnSpaceFrom(s, "")
  }

  lemma {:induction false} JoinSplitOnSpaceFrom(s: string, cur: string)
    ensures Join(SplitOnSpaceFrom(s, cur)) == cur + s
  {
    if s == [] {
    } else if s[0] == ' ' {
      JoinSplitOnSpaceFrom(s[1..], "");
      var rest := SplitOnSpaceFrom(s[1..], "");
      assert ([cur] + rest)[1..] == rest;
      assert s == [' '] + s[1..];
    } else {
      JoinSplitOnSpaceFrom(s[1..], cur + [s[0]]);
      assert s == [s[0]] + s[1..];
    }
  }

  /** Joining the pieces of `s.split(' ')` with single spaces gives `s`
      back: nothing is lost, the empty pieces included. */
  lemma JoinSplitOnSpace(s: string)
    ensures Join(SplitOnSpace(s)) == s
  {
    JoinSplitOnSpaceFrom(s, "");
  }

  lemma {:induction false} LowerSplitOnSpaceFrom(s: string, cur: string)
    ensures SplitOnSpaceFrom(Lower(s), Lower(cur)) == MapLower(SplitOnSpaceFrom(s, cur))
    decreases |s|
  {
    if s == [] {
      assert Lower(s) == [];
    } else {
      LowerFront(s);
      var rest := s[1..];
      if s[0] == ' ' {
        assert Lower(s)[0] == ' ';
        LowerSplitOnSpaceFrom(rest, "");
        assert Lower("") == "";
        MapLowerCons(cur, SplitOnSpaceFrom(rest, ""));
      } else {
        assert Lower(s)[0] != ' ';
        LowerSplitOnSpaceFrom(rest, cur + [s[0]]);
        LowerAppend(cur, [s[0]]);
        assert Lower([s[0]]) == [LowerChar(s[0])];
      }
    }
  }

  /** Lowercasing the text first lowercases each piece of `split(' ')`. */
  lemma LowerSplitOnSpace(s: string)
    ensures SplitOnSpace(Lower(s)) == MapLower(SplitOnSpace(s))
  {
    LowerSplitOnSpaceFrom(s, "");
    assert Lower("") == "";
  }

  function CountChar(s: string, c: char): nat
  {
    if s == [] then 0 else (if s[0] == c then 1 else 0) + CountChar(s[1..], c)
  }

  lemma {:induction false} SplitOnSpaceFromLength(s: string, cur: string)
    ensures |SplitOnSpaceFrom(s, cur)| == CountChar(s, ' ') + 1
  {
    if s != [] {
      SplitOnSpaceFromLength(s[1..], if s[0] == ' ' then "" else cur + [s[0]]);
    }
  }

  /** `s.split(' ')` has one piece more than `s` has spaces. */
  lemma SplitOnSpaceLength(s: string)
    ensures |SplitOnSpace(s)| == CountChar(s, ' ') + 1
  {
    SplitOnSpaceFromLength(s, "");
  }

  lemma {:induction false} SplitOnSpaceFromWord(w: string, rest: string, cur: string)
    requires ' ' !in w
    ensures SplitOnSpaceFrom(w + rest, cur) == SplitOnSpaceFrom(rest, cur + w)
  {
    if w != [] {
      assert (w + rest)[0] == w[0] && w[0] != ' ';
      assert ' ' !in w[1..];
      assert (w + rest)[1..] == w[1..] + rest;
      assert SplitOnSpaceFrom(w + rest, cur) == SplitOnSpaceFrom(w[1..] + rest, cur + [w[0]]);
      assert (cur + [w[0]]) + w[1..] == cur + w;
      SplitOnSpaceFromWord(w[1..], rest, cur + [w[0]]);
    } else {
      assert w + rest == rest && cur + w == cur;
    }
  }

  lemma {:induction false} SplitOnSpaceFromJoin(ws: seq<string>, cur: string)
    requires |ws| >= 1 && forall k :: 0 <= k < |ws| ==> ' ' !in ws[k]
    ensures SplitOnSpaceFrom(Join(ws), cur) == [cur + ws[0]] + ws[1..]
  {
    if |ws| == 1 {
      SplitOnSpaceFromWord(ws[0], "", cur);
      assert ws[0] + "" == ws[0];
    } else {
      var tail := Join(ws[1..]);
      assert Join(ws) == ws[0] + (" " + tail);
      SplitOnSpaceFromWord(ws[0], " " + tail, cur);
      assert (" " + tail)[1..] == tail;
      SplitOnSpaceFromJoin(ws[1..], "");
      assert "" + ws[1] == ws[1];
      assert [ws[1]] + ws[1..][1..] == ws[1..];
    }
  }

  /** The converse round trip: words without spaces, joined with single
      spaces, split back into the same words. */
  lemma SplitOnSpaceJoin(ws: seq<string>)
    requires |ws| >= 1 && forall k :: 0 <= k < |ws| ==> ' ' !in ws[k]
    ensures SplitOnSpace(Join(ws)) == ws
  {
    SplitOnSpaceFromJoin(ws, "");
    assert "" + ws[0] == ws[0];
    assert [ws[0]] + ws[1..] == ws;
  }
}
