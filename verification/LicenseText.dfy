/** How the inventory script strips, splits and normalizes text. */
module LicenseText {
  import opened Wrappers
  import opened LicenseInventory

  /** No line break of either kind. */
  ghost predicate OneLine(s: string) {
    '\n' !in s && '\r' !in s
  }

  ghost predicate OneLines(lines: seq<string>) {
    forall i :: 0 <= i < |lines| ==> OneLine(lines[i])
  }

  // ----- stripping

  lemma {:induction false} StripStartParts(s: string) returns (spaces: string)
    ensures s == spaces + StripStart(s) && forall i :: 0 <= i < |spaces| ==> IsSpace(spaces[i])
    ensures StripStart(s) == "" || !IsSpace(StripStart(s)[0])
  {
    if |s| > 0 && IsSpace(s[0]) {
      var later := StripStartParts(s[1..]);
      spaces := [s[0]] + later;
      assert s == [s[0]] + s[1..];
    } else {
      spaces := "";
    }
  }

  lemma {:induction false} StripEndFacts(s: string)
    ensures StripEnd(s) <= s
    ensures StripEnd(s) == "" || !IsSpace(StripEnd(s)[|StripEnd(s)| - 1])
    ensures s != "" && !IsSpace(s[0]) ==> StripEnd(s) != ""
  {
    if |s| > 0 && IsSpace(s[|s| - 1]) {
      StripEndFacts(s[..|s| - 1]);
    }
  }

  /** A head in front of something that is not blank survives stripping the end. */
  lemma {:induction false} StripEndBehind(head: string, s: string)
    requires StripEnd(s) != ""
    ensures StripEnd(head + s) == head + StripEnd(s)
  {
    var whole := head + s;
    if IsSpace(s[|s| - 1]) {
      assert whole[..|whole| - 1] == head + s[..|s| - 1];
      StripEndBehind(head, s[..|s| - 1]);
    } else {
      assert whole[|whole| - 1] == s[|s| - 1];
    }
  }

  lemma {:induction false} StripStartSkips(spaces: string, s: string)
    requires forall i :: 0 <= i < |spaces| ==> IsSpace(spaces[i])
    ensures StripStart(spaces + s) == StripStart(s)
  {
    if |spaces| > 0 {
      assert (spaces + s)[1..] == spaces[1..] + s;
      StripStartSkips(spaces[1..], s);
    } else {
      assert spaces + s == s;
    }
  }

  /** Stripping the two ends commutes for what is not blank. */
  lemma StripsCommute(s: string)
    requires Strip(s) != ""
    ensures StripEnd(s) != "" && StripStart(StripEnd(s)) == Strip(s)
  {
    var spaces := StripStartParts(s);
    var t := StripStart(s);
    StripEndBehind(spaces, t);
    StripEndFacts(t);
    StripStartSkips(spaces, StripEnd(t));
  }

  /** A stripped string has no space at its ends, comes from the string, and strips to itself. */
  lemma Stripped(s: string)
    ensures Strip(s) != "" ==> !IsSpace(Strip(s)[0]) && !IsSpace(Strip(s)[|Strip(s)| - 1])
    ensures OneLine(s) ==> OneLine(Strip(s))
    ensures Strip(Strip(s)) == Strip(s)
  {
    var spaces := StripStartParts(s);
    var t := StripStart(s);
    StripEndFacts(t);
    assert forall c :: c in Strip(s) ==> c in t;
    assert forall c :: c in t ==> c in s;
    if Strip(s) != "" {
      assert Strip(s)[0] == t[0];
    }
  }

  lemma StripsNothing(s: string)
    requires s != "" && !IsSpace(s[0])
    ensures Strip(s) == StripEnd(s)
  {
  }

  // ----- line breaks at the ends

  /** The script's `strip("\n")`. */
  function Unbroken(text: string): string {
    StripBreaksEnd(StripBreaksStart(text))
  }

  lemma {:induction false} StripBreaksStartFacts(s: string)
    ensures StripBreaksStart(s) == "" || StripBreaksStart(s)[0] != '\n'
    ensures forall c :: c in StripBreaksStart(s) ==> c in s
  {
    if |s| > 0 && s[0] == '\n' {
      StripBreaksStartFacts(s[1..]);
    }
  }

  lemma {:induction false} StripBreaksEndFacts(s: string)
    ensures StripBreaksEnd(s) <= s
    ensures StripBreaksEnd(s) == "" || StripBreaksEnd(s)[|StripBreaksEnd(s)| - 1] != '\n'
  {
    if |s| > 0 && s[|s| - 1] == '\n' {
      StripBreaksEndFacts(s[..|s| - 1]);
    }
  }

  lemma UnbrokenTwice(s: string)
    ensures Unbroken(Unbroken(s)) == Unbroken(s)
    ensures '\r' !in s ==> '\r' !in Unbroken(s)
  {
    StripBreaksStartFacts(s);
    StripBreaksEndFacts(StripBreaksStart(s));
  }

  lemma {:induction false} BreakBehindStart(s: string)
    ensures StripBreaksStart(s + "\n") == if StripBreaksStart(s) == "" then "" else StripBreaksStart(s) + "\n"
  {
    if |s| > 0 {
      assert (s + "\n")[1..] == s[1..] + "\n";
      if s[0] == '\n' {
        BreakBehindStart(s[1..]);
      }
    } else {
      assert s + "\n" == "\n";
      assert "\n"[1..] == "";
    }
  }

  /** A line break behind a text is stripped. */
  lemma BreakBehind(s: string)
    ensures Unbroken(s + "\n") == Unbroken(s)
  {
    BreakBehindStart(s);
    var t := StripBreaksStart(s);
    assert (t + "\n")[..|t|] == t;
  }

  // ----- lines

  lemma {:induction false} JoinSplit(text: string)
    ensures JoinLines(SplitLines(text)) == text
  {
    if |text| > 0 {
      var lines := SplitLines(text[1..]);
      JoinSplit(text[1..]);
      assert text == [text[0]] + text[1..];
      if text[0] == '\n' {
        assert ([""] + lines)[1..] == lines;
      } else {
        var longer := [[text[0]] + lines[0]] + lines[1..];
        assert longer[1..] == lines[1..];
        if |lines| > 1 {
          assert JoinLines(longer) == ([text[0]] + lines[0]) + "\n" + JoinLines(lines[1..]);
        }
      }
    }
  }

  lemma {:induction false} SplitFirstLine(line: string, more: string)
    requires '\n' !in line
    ensures SplitLines(line + "\n" + more) == [line] + SplitLines(more)
  {
    var text := line + "\n" + more;
    if |line| > 0 {
      assert text[0] == line[0] && text[1..] == line[1..] + "\n" + more;
      SplitFirstLine(line[1..], more);
      var lines := [line[1..]] + SplitLines(more);
      assert lines[1..] == SplitLines(more);
      assert line == [line[0]] + line[1..];
    } else {
      assert text[0] == '\n' && text[1..] == more;
      assert [""] == [line];
    }
  }

  lemma {:induction false} SplitOneLine(line: string)
    requires '\n' !in line
    ensures SplitLines(line) == [line]
  {
    if |line| > 0 {
      SplitOneLine(line[1..]);
      assert line == [line[0]] + line[1..];
    }
  }

  /** Lines without breaks survive joining. */
  lemma {:induction false} SplitJoin(lines: seq<string>)
    requires |lines| > 0 && forall i :: 0 <= i < |lines| ==> '\n' !in lines[i]
    ensures SplitLines(JoinLines(lines)) == lines
  {
    if |lines| == 1 {
      SplitOneLine(lines[0]);
    } else {
      SplitJoin(lines[1..]);
      SplitFirstLine(lines[0], JoinLines(lines[1..]));
      assert lines == [lines[0]] + lines[1..];
    }
  }

  lemma {:induction false} SplitClean(text: string)
    requires '\r' !in text
    ensures OneLines(SplitLines(text))
  {
    if |text| > 0 {
      SplitClean(text[1..]);
      var lines := SplitLines(text[1..]);
      assert OneLine(lines[0]);
    }
  }

  lemma {:induction false} SplitBreakBehind(s: string)
    ensures SplitLines(s + "\n") == SplitLines(s) + [""]
  {
    if |s| > 0 {
      assert (s + "\n")[1..] == s[1..] + "\n" && (s + "\n")[0] == s[0];
      SplitBreakBehind(s[1..]);
      var lines := SplitLines(s[1..]);
      assert (lines + [""])[1..] == lines[1..] + [""];
    } else {
      assert s + "\n" == "\n" && "\n"[1..] == "";
    }
  }

  /** Stripping line breaks only drops empty lines. */
  lemma {:induction false} UnbrokenStart(s: string, line: string)
    requires line !in SplitLines(s) && line != ""
    ensures line !in SplitLines(StripBreaksStart(s))
  {
    if |s| > 0 && s[0] == '\n' {
      assert SplitLines(s) == [""] + SplitLines(s[1..]);
      assert forall x :: x in SplitLines(s[1..]) ==> x in SplitLines(s);
      UnbrokenStart(s[1..], line);
    }
  }

  lemma {:induction false} UnbrokenEnd(s: string, line: string)
    requires line !in SplitLines(s) && line != ""
    ensures line !in SplitLines(StripBreaksEnd(s))
  {
    if |s| > 0 && s[|s| - 1] == '\n' {
      var t := s[..|s| - 1];
      assert s == t + "\n";
      SplitBreakBehind(t);
      UnbrokenEnd(t, line);
    }
  }

  lemma UnbrokenKeepsOut(s: string, line: string)
    requires line !in SplitLines(s) && line != ""
    ensures line !in SplitLines(Unbroken(s))
  {
    UnbrokenStart(s, line);
    UnbrokenEnd(StripBreaksStart(s), line);
  }

  // ----- files

  /** Lines as the template writes them: every one ended by a line break. */
  function Unlines(lines: seq<string>): string {
    if |lines| == 0 then "" else lines[0] + "\n" + Unlines(lines[1..])
  }

  lemma {:induction false} UnlinesConcat(a: seq<string>, b: seq<string>)
    ensures Unlines(a + b) == Unlines(a) + Unlines(b)
  {
    if |a| > 0 {
      assert (a + b)[1..] == a[1..] + b;
      UnlinesConcat(a[1..], b);
      ConcatAssociates(a[0] + "\n", Unlines(a[1..]), Unlines(b));
    } else {
      assert a + b == b && Unlines(a) + Unlines(b) == Unlines(b);
    }
  }

  lemma {:induction false} SplitUnlines(lines: seq<string>)
    requires forall i :: 0 <= i < |lines| ==> '\n' !in lines[i]
    ensures SplitLines(Unlines(lines)) == lines + [""]
  {
    if |lines| > 0 {
      SplitUnlines(lines[1..]);
      SplitFirstLine(lines[0], Unlines(lines[1..]));
      assert lines == [lines[0]] + lines[1..];
    } else {
      assert lines + [""] == [""];
    }
  }

  lemma {:induction false} UnlinesJoin(lines: seq<string>)
    requires |lines| > 0
    ensures Unlines(lines) == JoinLines(lines) + "\n"
  {
    if |lines| > 1 {
      UnlinesJoin(lines[1..]);
      ConcatAssociates(lines[0] + "\n", JoinLines(lines[1..]), "\n");
    } else {
      assert Unlines(lines[1..]) == "";
    }
  }

  // ----- carriage returns

  lemma {:induction false} NothingToNormalize(text: string)
    requires '\r' !in text
    ensures NormalizedNewlines(text) == text
  {
    if |text| > 0 {
      NothingToNormalize(text[1..]);
      assert text == [text[0]] + text[1..];
    }
  }

  lemma {:induction false} NormalizedIsClean(text: string)
    ensures '\r' !in NormalizedNewlines(text)
    decreases |text|
  {
    if |text| > 0 {
      if text[0] == '\r' && |text| > 1 && text[1] == '\n' {
        NormalizedIsClean(text[2..]);
      } else {
        NormalizedIsClean(text[1..]);
      }
    }
  }

  lemma {:induction false} NormalizeBehind(line: string, rest: string)
    requires '\r' !in line
    ensures NormalizedNewlines(line + rest) == line + NormalizedNewlines(rest)
  {
    if |line| > 0 {
      assert (line + rest)[1..] == line[1..] + rest;
      NormalizeBehind(line[1..], rest);
      assert line == [line[0]] + line[1..];
    } else {
      assert line + rest == rest;
    }
  }

  /** A text as it reads once a line break follows: a carriage return at its end belongs to that break. */
  function Clean(text: string): string
    decreases |text|
  {
    if text == "" || text == "\r" then ""
    else if text[0] == '\r' && text[1] == '\n' then "\n" + Clean(text[2..])
    else if text[0] == '\r' then "\n" + Clean(text[1..])
    else [text[0]] + Clean(text[1..])
  }

  lemma {:induction false} NormalizeBroken(text: string, rest: string)
    ensures NormalizedNewlines(text + "\n" + rest) == Clean(text) + "\n" + NormalizedNewlines(rest)
    decreases |text|
  {
    var whole := text + "\n" + rest;
    if text == "" {
      assert whole == "\n" + rest && whole[1..] == rest;
    } else if text == "\r" {
      assert whole[0] == '\r' && whole[1] == '\n' && whole[2..] == rest;
    } else if text[0] == '\r' && text[1] == '\n' {
      assert whole[0] == '\r' && whole[1] == '\n' && whole[2..] == text[2..] + "\n" + rest;
      NormalizeBroken(text[2..], rest);
    } else {
      assert whole[0] == text[0] && whole[1] == (text + "\n")[1] && whole[1..] == text[1..] + "\n" + rest;
      NormalizeBroken(text[1..], rest);
    }
  }

  /** It is the normalized text, short of at most one line break at its end. */
  lemma {:induction false} CleanIsNormalized(text: string)
    ensures NormalizedNewlines(text) == Clean(text) || NormalizedNewlines(text) == Clean(text) + "\n"
    decreases |text|
  {
    if text == "\r" {
      assert text[1..] == "" && NormalizedNewlines(text) == "\n" + NormalizedNewlines("");
    } else if text != "" {
      if text[0] == '\r' && text[1] == '\n' {
        CleanIsNormalized(text[2..]);
      } else {
        CleanIsNormalized(text[1..]);
      }
    }
  }

  lemma CleanFacts(text: string)
    ensures '\r' !in Clean(text) && Unbroken(Clean(text)) == Unbroken(NormalizedNewlines(text))
    ensures ">>>" in SplitLines(Clean(text)) <==> ">>>" in SplitLines(NormalizedNewlines(text))
  {
    CleanIsNormalized(text);
    NormalizedIsClean(text);
    var n := NormalizedNewlines(text);
    assert forall c :: c in Clean(text) ==> c in n;
    BreakBehind(Clean(text));
    SplitBreakBehind(Clean(text));
  }
}
