/**
  What wrapped help text looks like, told from the text alone: which words there are,
  where a line hangs, and where its physical lines end.
 */
module TextWrapLaws {
  import opened Arith
  import opened Wrappers
  import opened Whitespace
  import opened TextWrap

  // ----- words

  lemma {:induction false} BlankBefore(blank: string, rest: string)
    requires Blank(blank)
    ensures Words(blank + rest) == Words(rest)
  {
    if |blank| > 0 {
      assert (blank + rest)[1..] == blank[1..] + rest;
      BlankBefore(blank[1..], rest);
    } else {
      assert blank + rest == rest;
    }
  }

  /**
    The words of a text: white space holds none and separates what is next to it, and a
    stretch without white space is one word.
   */
  lemma WordsOfText(blank: string, word: string, rest: string)
    requires Blank(blank) && Solid(word) && (rest == "" || IsWhitespace(rest[0]))
    ensures Words(blank) == []
    ensures Words(blank + word + rest) == [word] + Words(rest)
  {
    BlankBefore(blank, "");
    assert blank + "" == blank;
    BlankBefore(blank, word + rest);
    assert blank + word + rest == blank + (word + rest);
    LeadingWordEnds(word, rest);
    assert (word + rest)[|word|..] == rest;
  }

  ghost predicate AllSolid(words: seq<string>) {
    forall i :: 0 <= i < |words| ==> Solid(words[i])
  }

  lemma {:induction false} WordsAreSolid(s: string)
    ensures AllSolid(Words(s))
    decreases |s|
  {
    if |s| > 0 {
      if IsWhitespace(s[0]) {
        WordsAreSolid(s[1..]);
      } else {
        LeadingWordIsSolid(s);
        WordsAreSolid(s[|LeadingWord(s)|..]);
      }
    }
  }

  lemma {:induction false} NoWordsMeansBlank(s: string)
    requires Words(s) == []
    ensures Blank(s)
  {
    if |s| > 0 {
      assert IsWhitespace(s[0]);
      NoWordsMeansBlank(s[1..]);
    }
  }

  lemma OneMoreWord(word: string, later: string)
    requires Solid(word)
    ensures Words(word + " " + later) == [word] + Words(later)
  {
    WordsOfText("", word, " " + later);
    BlankBefore(" ", later);
    assert "" + word + (" " + later) == word + " " + later;
  }

  /** Joined words read back as themselves, with nothing but spaces between them. */
  lemma {:induction false} JoinReadsBack(words: seq<string>)
    requires AllSolid(words)
    ensures Words(Join(words)) == words
    ensures forall i :: 0 <= i < |Join(words)| && IsWhitespace(Join(words)[i]) ==> Join(words)[i] == ' '
    ensures |words| > 0 ==> |Join(words)| > 0 && !IsWhitespace(Join(words)[0])
  {
    if |words| == 1 {
      WordsOfText("", words[0], "");
      assert "" + words[0] + "" == words[0];
    } else if |words| > 1 {
      JoinReadsBack(words[1..]);
      assert Join(words) == words[0] + " " + Join(words[1..]);
      OneMoreWord(words[0], Join(words[1..]));
      hide Words, Join;
      assert words == [words[0]] + words[1..];
    }
  }

  // ----- where a line hangs

  /** The line opens with exactly `k` spaces. */
  ghost predicate Indented(line: string, k: nat) {
    k <= |line| && line[..k] == Spaces(k) && (k < |line| ==> line[k] != ' ')
  }

  /** Behind the indent, the first run of two or more spaces starts at `g` and ends at `e`, before the line does. */
  ghost predicate Described(line: string, k: nat, g: nat, e: nat) {
    && k <= g && g + 2 <= e < |line|
    && (forall i :: k <= i < g ==> !(line[i] == line[i + 1] == ' '))
    && (forall i :: g <= i < e ==> line[i] == ' ') && line[e] != ' '
  }

  /** A description at column `e` leaves at least ten columns. */
  ghost predicate DescribedAt(line: string, width: nat, k: nat, e: nat) {
    e + 10 <= width && exists g :: Described(line, k, g, e)
  }

  ghost predicate Tagged(line: string) {
    exists tag :: tag in DOCTOR_TAGS && tag <= line
  }

  /**
    The head of a line that is too wide: its status tag; or else, in an indented row, all
    up to an aligned description that leaves ten columns; or else its leading spaces.
   */
  ghost predicate HangsAt(line: string, width: nat, n: nat) {
    if Tagged(line) then exists tag :: tag in DOCTOR_TAGS && tag <= line && n == |tag|
    else
      exists k :: Indented(line, k) &&
        if k >= 2 && exists e :: DescribedAt(line, width, k, e) then DescribedAt(line, width, k, n)
        else n == k
  }

  lemma {:induction false} LeadingTagFound(line: string, tags: seq<string>)
    requires forall tag :: tag in tags ==> tag != ""
    ensures LeadingTag(line, tags) != "" <==> exists tag :: tag in tags && tag <= line
    ensures LeadingTag(line, tags) != "" ==> LeadingTag(line, tags) in tags && LeadingTag(line, tags) <= line
  {
    if |tags| > 0 {
      assert tags[0] in tags;
      assert forall tag :: tag in tags <==> tag == tags[0] || tag in tags[1..];
      LeadingTagFound(line, tags[1..]);
    }
  }

  lemma LeadingSpacesIndent(line: string, k: nat)
    ensures Indented(line, k) <==> k == LeadingSpaces(line)
  {
    var n := LeadingSpaces(line);
    if k != n && k <= |line| && line[..k] == Spaces(k) {
      assert k < n ==> line[k] == line[..n][k] == Spaces(n)[k];
    }
  }

  lemma {:induction false} FirstGap(s: string)
    ensures FindGap(s).None? ==> forall i :: 0 <= i < |s| - 1 ==> !(s[i] == s[i + 1] == ' ')
    ensures FindGap(s).Some? ==> forall i :: 0 <= i < FindGap(s).value ==> !(s[i] == s[i + 1] == ' ')
  {
    if |s| >= 2 && !(s[0] == ' ' && s[1] == ' ') {
      FirstGap(s[1..]);
      assert forall i :: 1 <= i < |s| ==> s[i] == s[1..][i - 1];
    }
  }

  lemma DescribedGap(line: string, k: nat, g: nat, e: nat)
    requires Described(line, k, g, e)
    ensures FindGap(line[k..]) == Some(g - k)
  {
    var rest := line[k..];
    FirstGap(rest);
    hide FindGap, Spaces;
    assert rest[g - k] == rest[g - k + 1] == ' ';
    assert forall i :: 0 <= i < |rest| ==> rest[i] == line[k + i];
  }

  lemma DescribedRun(line: string, k: nat, g: nat, e: nat)
    requires Described(line, k, g, e)
    ensures e == g + LeadingSpaces(line[g..])
  {
    assert line[g..][..e - g] == Spaces(e - g);
    LeadingSpacesIndent(line[g..], e - g);
  }

  lemma GapDescribed(line: string, k: nat, g: nat, e: nat)
    requires k <= g <= |line| && FindGap(line[k..]) == Some(g - k)
    requires e == g + LeadingSpaces(line[g..]) && e < |line|
    ensures Described(line, k, g, e)
  {
    var rest := line[k..];
    FirstGap(rest);
    hide FindGap, LeadingSpaces, Spaces;
    assert line[g] == rest[g - k] && line[g + 1] == rest[g - k + 1];
    GapRuns(line, g, e);
    forall i | k <= i < g
      ensures !(line[i] == line[i + 1] == ' ')
    {
      assert rest[i - k] == line[i] && rest[i - k + 1] == line[i + 1];
    }
  }

  /** The gap found in the rest of the line is the one the line shows. */
  lemma DescribedByGap(line: string, k: nat, g: nat, e: nat)
    requires k <= |line|
    ensures Described(line, k, g, e) <==>
      && g >= k && FindGap(line[k..]) == Some(g - k) && g <= |line|
      && e == g + LeadingSpaces(line[g..]) && e < |line|
  {
    if Described(line, k, g, e) {
      DescribedGap(line, k, g, e);
      DescribedRun(line, k, g, e);
    }
    hide Described, FindGap, LeadingSpaces, Spaces;
    if g >= k && FindGap(line[k..]) == Some(g - k) && g <= |line| && e == g + LeadingSpaces(line[g..]) && e < |line| {
      GapDescribed(line, k, g, e);
    }
  }

  lemma GapRuns(line: string, g: nat, e: nat)
    requires g + 1 < |line| && line[g] == line[g + 1] == ' ' && e == g + LeadingSpaces(line[g..]) && e < |line|
    ensures g + 2 <= e && (forall i :: g <= i < e ==> line[i] == ' ') && line[e] != ' '
  {
    var run := line[g..];
    var n := LeadingSpaces(run);
    assert run[0] == ' ' && run[1] == ' ';
    forall i | g <= i < e
      ensures line[i] == ' '
    {
      assert run[..n][i - g] == Spaces(n)[i - g];
    }
  }

  lemma TagLengths()
    ensures forall tag :: tag in DOCTOR_TAGS ==> |tag| == 7 && tag != ""
  {
  }

  /** The head is where the line hangs, and no other place is. */
  lemma HeadHangs(line: string, width: nat, n: nat)
    ensures HangsAt(line, width, n) <==> n == HeadLength(line, width)
  {
    TagLengths();
    LeadingTagFound(line, DOCTOR_TAGS);
    hide LeadingSpaces, DescriptionColumn, DescribedAt, Spaces;
    if Tagged(line) {
      var tag := LeadingTag(line, DOCTOR_TAGS);
      assert tag in DOCTOR_TAGS && tag <= line;
    } else {
      UntaggedHangs(line, width, n);
    }
  }

  lemma UntaggedHangs(line: string, width: nat, n: nat)
    requires !Tagged(line)
    ensures HangsAt(line, width, n) <==>
      n == match DescriptionColumn(line, width) case Some(column) => column case None => LeadingSpaces(line)
  {
    var k := LeadingSpaces(line);
    DescriptionFound(line, width, k);
    OnlyIndent(line, k);
    hide DescriptionColumn, DescribedAt, LeadingSpaces, Spaces, Indented;
  }

  lemma OnlyIndent(line: string, k: nat)
    requires k == LeadingSpaces(line)
    ensures Indented(line, k) && forall j | Indented(line, j) :: j == k
  {
    LeadingSpacesIndent(line, k);
    forall j | Indented(line, j)
      ensures j == k
    {
      LeadingSpacesIndent(line, j);
    }
  }

  lemma ColumnDescribed(line: string, width: nat, k: nat, e: nat)
    requires k == LeadingSpaces(line) && k >= 2
    ensures DescribedAt(line, width, k, e) <==> DescriptionColumn(line, width) == Some(e)
  {
    hide Described, FindGap, LeadingSpaces, Spaces;
    var found := FindGap(line[k..]);
    if found.Some? {
      DescribedByGap(line, k, k + found.value, e);
    }
    if g :| Described(line, k, g, e) {
      DescribedByGap(line, k, g, e);
    }
  }

  /** The column found is the one described, if there is one. */
  lemma DescriptionFound(line: string, width: nat, k: nat)
    requires k == LeadingSpaces(line)
    ensures forall e: nat :: k >= 2 && DescribedAt(line, width, k, e) <==> DescriptionColumn(line, width) == Some(e)
  {
    hide DescribedAt, FindGap, LeadingSpaces, Spaces;
    if k >= 2 {
      hide DescriptionColumn;
      forall e: nat
        ensures DescribedAt(line, width, k, e) <==> DescriptionColumn(line, width) == Some(e)
      {
        ColumnDescribed(line, width, k, e);
      }
    }
  }

  // ----- a line that is too wide

  ghost predicate SolidLines(lines: seq<seq<string>>) {
    forall i :: 0 <= i < |lines| ==> lines[i] != [] && AllSolid(lines[i])
  }

  lemma {:induction false} PiecesAreSolid(token: string, budget: nat)
    requires budget > 0 && Solid(token)
    ensures AllSolid(Pieces(token, budget)) && Pieces(token, budget) != []
    decreases |token|
  {
    if |token| > budget {
      hide CutAt;
      PiecesAreSolid(token[CutAt(token, budget)..], budget);
    }
  }

  /** The words on filled lines are words of the line or parts of them. */
  lemma {:induction false} FilledLinesAreSolid(words: seq<string>, line: seq<string>, limit: nat)
    requires limit > 0 && NonEmptyWords(words) && AllSolid(words) && AllSolid(line)
    ensures SolidLines(Fill(words, line, limit))
    decreases |Concat(words)|, |line|
  {
    if |words| > 0 {
      hide Solid, Pieces, Concat;
      FillStep(words, line, limit);
      if Fits(line, words[0], limit) {
        FilledLinesAreSolid(words[1..], line + [words[0]], limit);
      } else if |line| > 0 {
        FilledLinesAreSolid(words, [], limit);
      } else {
        PiecesAreSolid(words[0], limit);
        FilledLinesAreSolid(Pieces(words[0], limit)[1..] + words[1..], [], limit);
      }
    }
  }

  /** The line without the white space at its end. */
  ghost predicate Trimmed(line: string, t: string) {
    t <= line && Blank(line[|t|..]) && (t != "" ==> !IsWhitespace(t[|t| - 1]))
  }

  lemma {:induction false} TrimEndTrims(s: string)
    ensures Trimmed(s, TrimEnd(s))
  {
    if |s| > 0 && IsWhitespace(s[|s| - 1]) {
      var m := |s| - 1;
      TrimEndTrims(s[..m]);
      var t := TrimEnd(s[..m]);
      assert forall i :: |t| <= i < m ==> s[i] == s[..m][|t|..][i - |t|];
    } else {
      assert s[|s|..] == "";
    }
  }

  lemma TrimmedHead(line: string, n: nat, t: string)
    requires n <= |line| && Blank(line[n..]) && Trimmed(line[..n], t)
    ensures Trimmed(line, t)
  {
    assert forall i :: |t| <= i < n ==> line[i] == line[..n][|t|..][i - |t|];
    assert forall i :: n <= i < |line| ==> line[i] == line[n..][i - n];
  }

  /** A physical line: its head, and then its words with one space between any two. */
  ghost predicate Carries(physical: string, head: string, words: seq<string>) {
    && physical == head + Join(words)
    && |physical| > |head| && !IsWhitespace(physical[|head|])
    && Words(physical[|head|..]) == words
  }

  lemma JoinedCarries(head: string, words: seq<string>)
    requires words != [] && AllSolid(words)
    ensures Carries(head + Join(words), head, words)
  {
    JoinReadsBack(words);
    hide Join, Words;
    assert (head + Join(words))[|head|..] == Join(words);
  }

  /** The room for words behind a head of `n` characters. */
  ghost function Room(width: nat, n: nat): nat {
    Max(SaturatingSub(Max(width, 1), n), 1)
  }

  /**
    The first physical line opens with the head, the others with exactly as many spaces.
    Their words, none wider than the room, read back as the words of the line, and the
    line is broken only where it must be.
   */
  ghost predicate WrapsAs(
    out: seq<string>, line: string, n: nat, room: nat, lines: seq<seq<string>>, glue: seq<bool>
  )
    requires n <= |line|
  {
    && |out| == |lines| > 0 && AllFit(lines, room) && ReadsAs(lines, glue, Words(line[n..]), room)
    && forall i :: 0 <= i < |out| ==> Carries(out[i], if i == 0 then line[..n] else Spaces(n), lines[i])
  }

  /**
    A line that is too wide, by its physical lines alone: words behind the head are wrapped
    into the room it leaves; a line without any only loses the white space at its end.
   */
  lemma WrappedLineReads(line: string, width: nat) returns (n: nat, lines: seq<seq<string>>, glue: seq<bool>)
    requires |line| > width
    ensures HangsAt(line, width, n) && n <= |line|
    ensures var out := WrappedLine(line, width);
      if Words(line[n..]) == [] then |out| == 1 && Trimmed(line, out[0])
      else WrapsAs(out, line, n, Room(width, n), lines, glue)
  {
    n := HeadLength(line, width);
    HeadHangs(line, width, n);
    hide HeadLength, HangsAt, Words, WrappedLine, WrapsAs, Trimmed;
    if Words(line[n..]) == [] {
      BlankLine(line, width, n);
      lines, glue := [], [];
    } else {
      lines, glue := FilledReads(line, width, n);
    }
  }

  lemma FilledReads(line: string, width: nat, n: nat) returns (lines: seq<seq<string>>, glue: seq<bool>)
    requires |line| > width && n == HeadLength(line, width) && Words(line[n..]) != []
    ensures WrapsAs(WrappedLine(line, width), line, n, Room(width, n), lines, glue)
  {
    var tokens, room := Words(line[n..]), Room(width, n);
    hide HeadLength, Words, WrappedLine, Carries, Fill, ReadsAs, AllSolid;
    FilledLine(line, width, n);
    lines := Fill(tokens, [], room);
    FillIsNonEmpty(tokens, [], room);
    assert Concat([]) == "";
    FillFits(tokens, [], room);
    glue := FillReadsBack(tokens, [], room);
    assert [] + tokens == tokens;
    WordsAreSolid(line[n..]);
    NothingSolid();
    FilledLinesAreSolid(tokens, [], room);
    RenderedHeads(lines, line[..n], Spaces(n));
    forall i | 0 <= i < |lines|
      ensures Carries(WrappedLine(line, width)[i], if i == 0 then line[..n] else Spaces(n), lines[i])
    {
      JoinedCarries(if i == 0 then line[..n] else Spaces(n), lines[i]);
    }
  }

  lemma NothingSolid()
    ensures AllSolid([])
  {
  }

  lemma FilledLine(line: string, width: nat, n: nat)
    requires |line| > width && n == HeadLength(line, width) && Words(line[n..]) != []
    ensures NonEmptyWords(Words(line[n..]))
    ensures WrappedLine(line, width) ==
      Rendered(Fill(Words(line[n..]), [], Room(width, n)), line[..n], Spaces(n))
  {
    hide HeadLength, Words, Fill, Rendered;
    WordsAreNonEmpty(line[n..]);
  }

  lemma BlankLine(line: string, width: nat, n: nat)
    requires |line| > width && n == HeadLength(line, width) && Words(line[n..]) == []
    ensures |WrappedLine(line, width)| == 1 && Trimmed(line, WrappedLine(line, width)[0])
  {
    NoWordsMeansBlank(line[n..]);
    TrimEndTrims(line[..n]);
    TrimmedHead(line, n, TrimEnd(line[..n]));
    hide HeadLength, Words, Trimmed;
    WordsAreNonEmpty(line[n..]);
  }

  // ----- rows

  /** Line breaks at the end of a row do not belong to it. */
  ghost predicate Row(part: string, row: string) {
    && row <= part && (forall i :: |row| <= i < |part| ==> part[i] in {'\r', '\n'})
    && (row != "" ==> row[|row| - 1] !in {'\r', '\n'})
  }

  lemma {:induction false} TrimBreaksGivesRow(part: string)
    ensures Row(part, TrimBreaks(part))
  {
    if |part| > 0 && (part[|part| - 1] == '\r' || part[|part| - 1] == '\n') {
      TrimBreaksGivesRow(part[..|part| - 1]);
    }
  }

  lemma {:induction false} LineEndAt(part: string, rest: string)
    requires '\n' !in part
    ensures LineEnd(part + "\n" + rest) == |part| + 1
    ensures LineEnd(part) == |part|
  {
    var text := part + "\n" + rest;
    if |part| > 0 {
      assert text[1..] == part[1..] + "\n" + rest;
      LineEndAt(part[1..], rest);
    }
  }

  lemma {:induction false} WithBreaksConcat(a: seq<string>, b: seq<string>)
    ensures WithBreaks(a + b) == WithBreaks(a) + WithBreaks(b)
  {
    if |a| == 0 {
      assert a + b == b;
    } else {
      assert (a + b)[1..] == a[1..] + b;
      WithBreaksConcat(a[1..], b);
      ConcatAssociates(a[0] + "\n", WithBreaks(a[1..]), WithBreaks(b));
    }
  }

  /**
    A text is wrapped row by row: the first line break ends the first row, whose physical
    lines each get a line break of their own. A row that is not too wide stays whole.
   */
  lemma RowByRow(part: string, rest: string, width: nat) returns (row: string)
    requires '\n' !in part
    ensures Row(part, row)
    ensures WrappedText(part + "\n" + rest, width) == WithBreaks(WrappedLine(row, width)) + WrappedText(rest, width)
    ensures part != "" ==> WrappedText(part, width) == WithBreaks(WrappedLine(row, width))
    ensures |row| <= width ==> WithBreaks(WrappedLine(row, width)) == row + "\n"
    ensures WrappedText("", width) == ""
  {
    row := TrimBreaks(part);
    TrimBreaksGivesRow(part);
    LineEndAt(part, rest);
    var text := part + "\n" + rest;
    assert text[..|part| + 1] == part + "\n" && text[|part| + 1..] == rest;
    assert (part + "\n")[..|part|] == part;
    assert TrimBreaks(part + "\n") == row;
    hide WrappedLine, TrimBreaks, LineEnd, WithBreaks;
    FirstLineOfText(text, width);
    if part != "" {
      FirstLineOfText(part, width);
      assert part[..|part|] == part && part[|part|..] == "";
      assert WithBreaks(WrappedLine(row, width)) + "" == WithBreaks(WrappedLine(row, width));
    }
    if |row| <= width {
      ShortRow(row, width);
    }
  }

  lemma ShortRow(row: string, width: nat)
    requires |row| <= width
    ensures WithBreaks(WrappedLine(row, width)) == row + "\n"
  {
    assert WrappedLine(row, width) == [row];
    assert WithBreaks([row]) == row + "\n" + WithBreaks([]);
  }
}
