/**
  Wrapping help text: a greedy line filler with a hanging indent that breaks
  overlong tokens at path separators. A string is a sequence of characters.
 */
module TextWrap {
  import opened Arith
  import opened Wrappers
  import opened Whitespace

  function Spaces(n: nat): string {
    seq(n, _ => ' ')
  }

  // ----- prefix, body and hanging indent

  const DOCTOR_TAGS: seq<string> := ["[ok]   ", "[warn] ", "[fail] ", "[note] "]

  /** The first tag the line begins with, or the empty string. */
  function LeadingTag(line: string, tags: seq<string>): string {
    if |tags| == 0 then ""
    else if tags[0] <= line then tags[0]
    else LeadingTag(line, tags[1..])
  }

  function LeadingSpaces(s: string): (n: nat)
    ensures n <= |s| && s[..n] == Spaces(n)
    ensures n < |s| ==> s[n] != ' '
  {
    if |s| > 0 && s[0] == ' ' then 1 + LeadingSpaces(s[1..]) else 0
  }

  /** Where the first two adjacent spaces begin. */
  function FindGap(s: string): (gap: Option<nat>)
    ensures gap.Some? ==> gap.value + 1 < |s| && s[gap.value] == s[gap.value + 1] == ' '
  {
    if |s| < 2 then None
    else if s[0] == ' ' && s[1] == ' ' then Some(0)
    else match FindGap(s[1..])
      case None => None
      case Some(i) => Some(i + 1)
  }

  /** Where the run of spaces at `gap` ends, when the line goes on there and leaves enough width. */
  function ColumnBehind(line: string, width: nat, gap: nat): (column: Option<nat>)
    requires gap + 1 < |line| && line[gap] == line[gap + 1] == ' '
    ensures column.Some? ==> gap + 2 <= column.value < |line| && column.value + 10 <= width
    ensures column.Some? ==>
      line[column.value] != ' ' && line[column.value - 1] == ' ' && line[column.value - 2] == ' '
  {
    var rest := line[gap..];
    var run := LeadingSpaces(rest);
    assert rest[0] == ' ' && rest[1] == ' ';
    assert run >= 2;
    assert rest[..run][run - 1] == rest[run - 1] && rest[..run][run - 2] == rest[run - 2];
    var column := gap + run;
    if column < |line| && SaturatingSub(width, column) >= 10 then Some(column) else None
  }

  /** The column of an aligned description behind a command, when it leaves enough width. */
  function DescriptionColumn(line: string, width: nat): (column: Option<nat>)
    ensures column.Some? ==> 2 <= column.value < |line| && column.value + 10 <= width
    ensures column.Some? ==>
      line[column.value] != ' ' && line[column.value - 1] == ' ' && line[column.value - 2] == ' '
  {
    var indent := LeadingSpaces(line);
    if indent < 2 then None
    else match FindGap(line[indent..])
      case None => None
      case Some(gap) => ColumnBehind(line, width, indent + gap)
  }

  /** How many characters of the line form its head; continuation lines get as many spaces. */
  function HeadLength(line: string, width: nat): (n: nat)
    ensures n <= |line|
  {
    var tag := LeadingTag(line, DOCTOR_TAGS);
    if tag != "" && tag <= line then |tag|
    else match DescriptionColumn(line, width)
      case Some(column) => column
      case None => LeadingSpaces(line)
  }

  function SplitPrefix(line: string, width: nat): (string, string, string) {
    var n := HeadLength(line, width);
    (line[..n], line[n..], Spaces(n))
  }

  // ----- words

  function Words(s: string): seq<string>
    decreases |s|
  {
    if |s| == 0 then []
    else if IsWhitespace(s[0]) then Words(s[1..])
    else
      LeadingWordFits(s);
      [LeadingWord(s)] + Words(s[|LeadingWord(s)|..])
  }

  lemma {:induction false} LeadingWordFits(s: string)
    ensures LeadingWord(s) <= s
    ensures |s| > 0 && !IsWhitespace(s[0]) ==> |LeadingWord(s)| > 0
  {
    if |s| > 0 && !IsWhitespace(s[0]) {
      LeadingWordFits(s[1..]);
    }
  }

  predicate NonEmptyWords(words: seq<string>) {
    forall i :: 0 <= i < |words| ==> |words[i]| > 0
  }

  lemma {:induction false} WordsAreNonEmpty(s: string)
    ensures NonEmptyWords(Words(s))
    decreases |s|
  {
    if |s| > 0 {
      LeadingWordFits(s);
      if IsWhitespace(s[0]) {
        WordsAreNonEmpty(s[1..]);
      } else {
        WordsAreNonEmpty(s[|LeadingWord(s)|..]);
      }
    }
  }

  function Concat(words: seq<string>): string {
    if |words| == 0 then "" else words[0] + Concat(words[1..])
  }

  function Join(words: seq<string>): string {
    if |words| == 0 then ""
    else if |words| == 1 then words[0]
    else words[0] + " " + Join(words[1..])
  }

  function ContentWidth(words: seq<string>): nat {
    |Concat(words)| + SaturatingSub(|words|, 1)
  }

  lemma {:induction false} JoinWidth(words: seq<string>)
    ensures |Join(words)| == ContentWidth(words)
  {
    if |words| > 1 {
      JoinWidth(words[1..]);
    } else if |words| == 1 {
      assert Concat(words[1..]) == "";
    }
  }

  lemma {:induction false} ConcatConcat(a: seq<string>, b: seq<string>)
    ensures Concat(a + b) == Concat(a) + Concat(b)
  {
    if |a| == 0 {
      assert a + b == b;
    } else {
      assert (a + b)[1..] == a[1..] + b;
      ConcatConcat(a[1..], b);
    }
  }

  lemma ConcatOne(word: string)
    ensures Concat([word]) == word
  {
    assert Concat([word]) == word + Concat([]);
  }

  // ----- breaking an overlong token

  predicate IsSeparator(c: char) {
    c == '/' || c == '\\'
  }

  /** The position after the last separator, or zero when there is none. */
  function AfterLastSeparator(s: string): (n: nat)
    ensures n <= |s|
  {
    if |s| == 0 then 0
    else if IsSeparator(s[|s| - 1]) then |s|
    else AfterLastSeparator(s[..|s| - 1])
  }

  /** Where a token longer than the budget is cut: after the last separator that fits, else at the budget. */
  function CutAt(token: string, budget: nat): (n: nat)
    requires 0 < budget < |token|
    ensures 0 < n <= budget
  {
    var sep := AfterLastSeparator(token[..budget]);
    if sep > 0 then sep else budget
  }

  function Pieces(token: string, budget: nat): seq<string>
    requires budget > 0
    decreases |token|
  {
    if |token| <= budget then [token]
    else [token[..CutAt(token, budget)]] + Pieces(token[CutAt(token, budget)..], budget)
  }

  /** The cut lies behind the last separator of the first `budget` characters, or at the budget when they hold none. */
  ghost predicate GoodCut(token: string, budget: nat, n: nat)
    requires budget <= |token|
  {
    && 0 < n <= budget
    && (token[n - 1] in {'/', '\\'} || n == budget)
    && (forall i :: n <= i < budget ==> token[i] !in {'/', '\\'})
    && (n == budget && token[n - 1] !in {'/', '\\'} ==> forall i :: 0 <= i < budget ==> token[i] !in {'/', '\\'})
  }

  /** The cut is the one place described. */
  lemma CutIsGood(token: string, budget: nat, n: nat)
    requires 0 < budget < |token|
    ensures GoodCut(token, budget, n) <==> n == CutAt(token, budget)
  {
    var window := token[..budget];
    forall i | 0 <= i < budget
      ensures IsSeparator(token[i]) ==> i < AfterLastSeparator(window)
    {
      SeparatorsBefore(window, i);
    }
    SeparatorsBefore(window, 0);
    var sep := AfterLastSeparator(window);
    assert sep > 0 ==> IsSeparator(token[sep - 1]);
  }

  /** Every piece but the last ends at the good cut of what was left of the token. */
  ghost predicate CutWell(pieces: seq<string>, limit: nat) {
    |pieces| > 1 ==>
      && limit < |Concat(pieces)|
      && GoodCut(Concat(pieces), limit, |pieces[0]|)
      && CutWell(pieces[1..], limit)
  }

  lemma {:induction false} PiecesCutWell(token: string, budget: nat)
    requires budget > 0 && |token| > 0
    ensures CutWell(Pieces(token, budget), budget)
    decreases |token|
  {
    if |token| > budget {
      hide CutAt, GoodCut, Stacked, Concat;
      var cut := CutAt(token, budget);
      PiecesCutWell(token[cut..], budget);
      PiecesStack(token, budget);
      CutIsGood(token, budget, cut);
      assert ([token[..cut]] + Pieces(token[cut..], budget))[1..] == Pieces(token[cut..], budget);
    }
  }

  /** Pieces that fit one line each and of which no two neighbours fit one line together. */
  ghost predicate Stacked(pieces: seq<string>, limit: nat) {
    && (forall i :: 0 <= i < |pieces| ==> 0 < |pieces[i]| <= limit)
    && (forall i :: 0 <= i < |pieces| - 1 ==> |pieces[i]| + |pieces[i + 1]| > limit)
  }

  lemma {:induction false} SeparatorsBefore(s: string, i: nat)
    requires i < |s|
    ensures IsSeparator(s[i]) ==> i < AfterLastSeparator(s)
    ensures AfterLastSeparator(s) > 0 ==> IsSeparator(s[AfterLastSeparator(s) - 1])
  {
    if !IsSeparator(s[|s| - 1]) {
      if i < |s| - 1 {
        SeparatorsBefore(s[..|s| - 1], i);
      } else if |s| > 1 {
        SeparatorsBefore(s[..|s| - 1], 0);
      }
    }
  }

  /** The next cut lies beyond the first window: the first cut took its last separator. */
  lemma NextCutBeyond(token: string, budget: nat)
    requires 0 < budget < |token|
    requires budget < |token| - CutAt(token, budget)
    ensures var cut := CutAt(token, budget); cut + CutAt(token[cut..], budget) > budget
  {
    var cut := CutAt(token, budget);
    var rest := token[cut..];
    var next := AfterLastSeparator(rest[..budget]);
    if cut < budget && next > 0 {
      SeparatorsBefore(rest[..budget], 0);
      assert IsSeparator(rest[next - 1]) && rest[next - 1] == token[cut + next - 1];
      if cut + next - 1 < budget {
        SeparatorsBefore(token[..budget], cut + next - 1);
      }
    }
  }

  lemma ConcatCons(piece: string, pieces: seq<string>)
    ensures Concat([piece] + pieces) == piece + Concat(pieces)
  {
    assert ([piece] + pieces)[1..] == pieces;
  }

  lemma {:induction false} PiecesStack(token: string, budget: nat)
    requires budget > 0 && |token| > 0
    ensures Stacked(Pieces(token, budget), budget)
    ensures Concat(Pieces(token, budget)) == token
    ensures |Pieces(token, budget)| > 0
    ensures Pieces(token, budget)[0] == if |token| <= budget then token else token[..CutAt(token, budget)]
    ensures |token| > budget ==> |Pieces(token, budget)| > 1
    decreases |token|
  {
    if |token| <= budget {
      ConcatOne(token);
    } else {
      hide CutAt, Stacked, Concat;
      var cut := CutAt(token, budget);
      var rest := token[cut..];
      PiecesStack(rest, budget);
      if |rest| > budget {
        NextCutBeyond(token, budget);
      }
      StackedCons(token[..cut], Pieces(rest, budget), budget);
      ConcatCons(token[..cut], Pieces(rest, budget));
      assert token == token[..cut] + rest;
    }
  }

  /** Cut a token into the pieces of `Pieces`; a budget of zero counts as one. */
  method SplitOverlong(token: string, budget: nat) returns (parts: seq<string>)
    requires |token| > 0
    ensures parts == Pieces(token, Max(budget, 1))
  {
    var limit := Max(budget, 1);
    if |token| <= limit {
      return [token];
    }
    parts := [];
    var rest := token;
    while |rest| > limit
      invariant |rest| > 0
      invariant parts + Pieces(rest, limit) == Pieces(token, limit)
      decreases |rest|
    {
      var end := FindCut(rest, limit);
      OneMorePiece(parts, rest[..end], Pieces(rest[end..], limit));
      parts := parts + [rest[..end]];
      rest := rest[end..];
    }
    parts := parts + [rest];
  }

  lemma OneMorePiece(parts: seq<string>, piece: string, later: seq<string>)
    ensures parts + ([piece] + later) == parts + [piece] + later
  {
  }

  /** Scan one window of the token for its last separator. */
  method FindCut(rest: string, limit: nat) returns (end: nat)
    requires 0 < limit < |rest|
    ensures end == CutAt(rest, limit)
  {
    end := 0;
    var lastSep := 0;
    while end < limit
      invariant end <= limit && lastSep == AfterLastSeparator(rest[..end])
    {
      assert rest[..end + 1][..end] == rest[..end];
      var ch := rest[end];
      end := end + 1;
      if ch == '/' || ch == '\\' {
        lastSep := end;
      }
    }
    if lastSep > 0 {
      end := lastSep;
    }
  }

  // ----- filling lines

  predicate Fits(line: seq<string>, word: string, limit: nat) {
    var gap := if |line| > 0 then 1 else 0;
    |word| <= SaturatingSub(limit, ContentWidth(line) + gap)
  }

  lemma FitsMeansWidth(line: seq<string>, word: string, limit: nat)
    requires |word| > 0
    ensures Fits(line, word, limit) <==> ContentWidth(line + [word]) <= limit
  {
    ConcatConcat(line, [word]);
    ConcatOne(word);
    if |line| == 0 {
      assert Concat(line) == "";
    }
  }

  lemma PiecesShrink(word: string, words: seq<string>, limit: nat)
    requires limit > 0 && |word| > 0 && NonEmptyWords(words)
    ensures var pieces := Pieces(word, limit);
      && |pieces| > 0 && NonEmptyWords(pieces[1..] + words)
      && |Concat(pieces[1..] + words)| < |Concat([word] + words)|
  {
    var pieces := Pieces(word, limit);
    PiecesStack(word, limit);
    ConcatConcat(pieces[1..], words);
    ConcatConcat([word], words);
    ConcatOne(word);
  }

  /**
    Greedy filling with `line` begun: a word that fits stays, one that does not ends the
    line, and one that does not fit an empty line is broken.
   */
  function Fill(words: seq<string>, line: seq<string>, limit: nat): seq<seq<string>>
    requires limit > 0 && NonEmptyWords(words)
    decreases |Concat(words)|, |line|
  {
    if |words| == 0 then (if |line| == 0 then [] else [line])
    else
      assert words == [words[0]] + words[1..];
      ConcatConcat([words[0]], words[1..]);
      ConcatOne(words[0]);
      if Fits(line, words[0], limit) then Fill(words[1..], line + [words[0]], limit)
      else if |line| > 0 then [line] + Fill(words, [], limit)
      else
        PiecesShrink(words[0], words[1..], limit);
        var pieces := Pieces(words[0], limit);
        [[pieces[0]]] + Fill(pieces[1..] + words[1..], [], limit)
  }

  ghost predicate NonEmptyLines(lines: seq<seq<string>>) {
    forall i :: 0 <= i < |lines| ==> |lines[i]| > 0
  }

  lemma {:induction false} FillIsNonEmpty(words: seq<string>, line: seq<string>, limit: nat)
    requires limit > 0 && NonEmptyWords(words)
    ensures NonEmptyLines(Fill(words, line, limit))
    ensures |words| > 0 || |line| > 0 ==> |Fill(words, line, limit)| > 0
    decreases |Concat(words)|, |line|
  {
    if |words| > 0 {
      assert words == [words[0]] + words[1..];
      ConcatConcat([words[0]], words[1..]);
      ConcatOne(words[0]);
      if Fits(line, words[0], limit) {
        FillIsNonEmpty(words[1..], line + [words[0]], limit);
      } else if |line| > 0 {
        FillIsNonEmpty(words, [], limit);
      } else {
        PiecesShrink(words[0], words[1..], limit);
        FillIsNonEmpty(Pieces(words[0], limit)[1..] + words[1..], [], limit);
      }
    }
  }

  /** Every line fits the limit. */
  lemma {:induction false} FillFits(words: seq<string>, line: seq<string>, limit: nat)
    requires limit > 0 && NonEmptyWords(words) && ContentWidth(line) <= limit
    ensures forall i :: 0 <= i < |Fill(words, line, limit)| ==> ContentWidth(Fill(words, line, limit)[i]) <= limit
    decreases |Concat(words)|, |line|
  {
    if |words| > 0 {
      assert words == [words[0]] + words[1..];
      ConcatConcat([words[0]], words[1..]);
      ConcatOne(words[0]);
      if Fits(line, words[0], limit) {
        FitsMeansWidth(line, words[0], limit);
        FillFits(words[1..], line + [words[0]], limit);
      } else if |line| > 0 {
        FillFits(words, [], limit);
      } else {
        PiecesShrink(words[0], words[1..], limit);
        PiecesStack(words[0], limit);
        var pieces := Pieces(words[0], limit);
        ConcatOne(pieces[0]);
        FillFits(pieces[1..] + words[1..], [], limit);
      }
    }
  }

  // ----- no space inside a token

  /** Read lines back as tokens: a glued break joins the last word of a line to the first of the next. */
  function Unglued(lines: seq<seq<string>>, glue: seq<bool>): (tokens: seq<string>)
    requires NonEmptyLines(lines) && |glue| == SaturatingSub(|lines|, 1)
    ensures |lines| > 0 ==> |tokens| > 0
  {
    if |lines| == 0 then []
    else if |lines| == 1 then lines[0]
    else
      var rest := Unglued(lines[1..], glue[1..]);
      var m := |lines[0]| - 1;
      if glue[0] then lines[0][..m] + [lines[0][m] + rest[0]] + rest[1..] else lines[0] + rest
  }

  /**
    Where lines end: inside a token only when what is left of it is too long for a line,
    which then holds nothing else and ends at the good cut; between tokens only when the
    next one, whole, does not fit any more.
   */
  ghost predicate BreaksWell(lines: seq<seq<string>>, glue: seq<bool>, limit: nat)
    requires NonEmptyLines(lines) && |glue| == SaturatingSub(|lines|, 1)
  {
    |lines| > 1 ==>
      var next := Unglued(lines[1..], glue[1..])[0];
      (if glue[0] then
         |lines[0]| == 1 && |lines[0][0] + next| > limit && GoodCut(lines[0][0] + next, limit, |lines[0][0]|)
       else ContentWidth(lines[0] + [next]) > limit)
      && BreaksWell(lines[1..], glue[1..], limit)
  }

  /** What reading lines back must give. */
  ghost predicate ReadsAs(lines: seq<seq<string>>, glue: seq<bool>, tokens: seq<string>, limit: nat) {
    && NonEmptyLines(lines) && |glue| == SaturatingSub(|lines|, 1)
    && Unglued(lines, glue) == tokens && BreaksWell(lines, glue, limit)
  }

  lemma LineBefore(line: seq<string>, lines: seq<seq<string>>, glue: seq<bool>, tokens: seq<string>, limit: nat)
    requires |line| > 0 && |lines| > 0 && ReadsAs(lines, glue, tokens, limit)
    requires |tokens| > 0 && ContentWidth(line + [tokens[0]]) > limit
    ensures ReadsAs([line] + lines, [false] + glue, line + tokens, limit)
  {
    assert ([line] + lines)[1..] == lines && ([false] + glue)[1..] == glue;
  }

  lemma PieceBefore(piece: string, lines: seq<seq<string>>, glue: seq<bool>, tokens: seq<string>, limit: nat)
    requires |lines| > 0 && ReadsAs(lines, glue, tokens, limit) && |tokens| > 0 && |piece + tokens[0]| > limit
    requires GoodCut(piece + tokens[0], limit, |piece|)
    ensures ReadsAs([[piece]] + lines, [true] + glue, [piece + tokens[0]] + tokens[1..], limit)
  {
    assert ([[piece]] + lines)[1..] == lines && ([true] + glue)[1..] == glue;
  }

  /** The three ways a line is filled, and that each leaves less to do. */
  lemma FillStep(words: seq<string>, line: seq<string>, limit: nat)
    requires limit > 0 && NonEmptyWords(words) && |words| > 0
    ensures |Concat(words[1..])| < |Concat(words)|
    ensures Fits(line, words[0], limit) ==> Fill(words, line, limit) == Fill(words[1..], line + [words[0]], limit)
    ensures !Fits(line, words[0], limit) && |line| > 0 ==> Fill(words, line, limit) == [line] + Fill(words, [], limit)
    ensures !Fits(line, words[0], limit) && |line| == 0 ==>
      var pieces := Pieces(words[0], limit);
      && |pieces| > 0 && NonEmptyWords(pieces[1..] + words[1..])
      && |Concat(pieces[1..] + words[1..])| < |Concat(words)|
      && Fill(words, line, limit) == [[pieces[0]]] + Fill(pieces[1..] + words[1..], [], limit)
  {
    hide Pieces, Concat;
    assert words == [words[0]] + words[1..];
    ConcatCons(words[0], words[1..]);
    PiecesShrink(words[0], words[1..], limit);
  }

  /**
    Reading the filled lines back gives the words they were filled from: every break
    inside a token is a line break, never a space, and every line ends where it should.
   */
  lemma {:induction false} FillReadsBack(words: seq<string>, line: seq<string>, limit: nat) returns (glue: seq<bool>)
    requires limit > 0 && NonEmptyWords(words)
    ensures ReadsAs(Fill(words, line, limit), glue, line + words, limit)
    decreases |Concat(words)|, |line|, 1
  {
    hide Fill, Pieces, Concat, ReadsAs, Fits;
    if |words| == 0 {
      glue := [];
      LastLineReads(line, limit);
      assert words == [] && line + [] == line;
    } else {
      FillStep(words, line, limit);
      if Fits(line, words[0], limit) {
        glue := FillReadsBack(words[1..], line + [words[0]], limit);
        assert line + words == line + [words[0]] + words[1..];
      } else if |line| > 0 {
        var later := FillReadsBack(words, [], limit);
        assert [] + words == words;
        glue := [false] + later;
        FullLineReads(words, line, limit, later);
      } else {
        glue := BrokenReadsBack(words, limit);
        assert line == [] && [] + words == words;
      }
    }
  }

  lemma LastLineReads(line: seq<string>, limit: nat)
    requires limit > 0
    ensures NonEmptyWords([]) && ReadsAs(Fill([], line, limit), [], line, limit)
  {
  }

  /** A line that is full is written out before the rest. */
  lemma FullLineReads(words: seq<string>, line: seq<string>, limit: nat, later: seq<bool>)
    requires limit > 0 && NonEmptyWords(words) && |words| > 0 && !Fits(line, words[0], limit) && |line| > 0
    requires ReadsAs(Fill(words, [], limit), later, words, limit)
    ensures ReadsAs(Fill(words, line, limit), [false] + later, line + words, limit)
  {
    hide Fill, Pieces, Concat, ReadsAs, Fits;
    FillStep(words, line, limit);
    FillIsNonEmpty(words, [], limit);
    FitsMeansWidth(line, words[0], limit);
    LineBefore(line, Fill(words, [], limit), later, words, limit);
  }

  /** A line that opens with a token too long for it. */
  lemma BrokenReadsBack(words: seq<string>, limit: nat) returns (glue: seq<bool>)
    requires limit > 0 && NonEmptyWords(words) && |words| > 0 && !Fits([], words[0], limit)
    ensures ReadsAs(Fill(words, [], limit), glue, words, limit)
    decreases |Concat(words)|, 0, 0
  {
    FillStep(words, [], limit);
    PiecesStack(words[0], limit);
    PiecesCutWell(words[0], limit);
    OverlongPieces(words[0], limit);
    hide Fill, Pieces, ReadsAs, Fits, GoodCut;
    var pieces := Pieces(words[0], limit);
    var later := PiecesReadBack(pieces[1..], words[1..], limit);
    FillIsNonEmpty(pieces[1..] + words[1..], [], limit);
    var tokens := [Concat(pieces[1..])] + words[1..];
    assert pieces[0] + tokens[0] == words[0];
    PieceBefore(pieces[0], Fill(pieces[1..] + words[1..], [], limit), later, tokens, limit);
    assert tokens[1..] == words[1..] && words == [words[0]] + words[1..];
    glue := [true] + later;
  }

  lemma OverlongPieces(word: string, limit: nat)
    requires limit > 0 && |word| > 0 && !Fits([], word, limit)
    ensures |word| > limit && |Pieces(word, limit)| > 1 && Stacked(Pieces(word, limit)[1..], limit)
  {
    assert Concat([]) == "";
    PiecesStack(word, limit);
    hide Pieces;
    StackedTail(Pieces(word, limit), limit);
  }

  lemma StackedTail(pieces: seq<string>, limit: nat)
    requires Stacked(pieces, limit) && |pieces| > 0
    ensures Stacked(pieces[1..], limit)
  {
    assert forall i :: 0 <= i < |pieces| - 1 ==> pieces[1..][i] == pieces[i + 1];
  }

  lemma StackedCons(piece: string, pieces: seq<string>, limit: nat)
    requires Stacked(pieces, limit) && |pieces| > 0 && 0 < |piece| <= limit && |piece| + |pieces[0]| > limit
    ensures Stacked([piece] + pieces, limit)
  {
  }

  /** The remaining pieces of a broken token fill one line each, and the last one shares its line with what follows. */
  lemma {:induction false} PiecesReadBack(pieces: seq<string>, words: seq<string>, limit: nat) returns (glue: seq<bool>)
    requires limit > 0 && NonEmptyWords(words) && |pieces| > 0 && Stacked(pieces, limit) && CutWell(pieces, limit)
    ensures NonEmptyWords(pieces + words)
    ensures ReadsAs(Fill(pieces + words, [], limit), glue, [Concat(pieces)] + words, limit)
    decreases |Concat(pieces + words)|, 0, 2 + |pieces|
  {
    var all := pieces + words;
    if |pieces| == 1 {
      ConcatOne(pieces[0]);
      assert [Concat(pieces)] + words == all && [] + all == all;
      glue := FillReadsBack(all, [], limit);
    } else {
      var later := pieces[1..];
      StackedTail(pieces, limit);
      PieceAlone(pieces, words, limit);
      glue := PiecesReadBack(later, words, limit);
      FillIsNonEmpty(later + words, [], limit);
      var tokens := [Concat(later)] + words;
      assert later[0] == pieces[1] && Concat(later) == later[0] + Concat(later[1..]);
      PieceBefore(pieces[0], Fill(later + words, [], limit), glue, tokens, limit);
      assert tokens[1..] == words;
      glue := [true] + glue;
    }
  }

  /** A piece with a successor it cannot share a line with gets a line of its own. */
  lemma PieceAlone(pieces: seq<string>, words: seq<string>, limit: nat)
    requires limit > 0 && NonEmptyWords(words) && |pieces| > 1 && Stacked(pieces, limit)
    ensures NonEmptyWords(pieces + words) && NonEmptyWords(pieces[1..] + words)
    ensures |Concat(pieces[1..] + words)| < |Concat(pieces + words)|
    ensures Fill(pieces + words, [], limit) == [[pieces[0]]] + Fill(pieces[1..] + words, [], limit)
  {
    var all, later := pieces + words, pieces[1..] + words;
    assert all == [pieces[0]] + later && all[1..] == later;
    ConcatConcat([pieces[0]], later);
    ConcatOne(pieces[0]);
    assert Concat([]) == "";
    assert [] + [pieces[0]] == [pieces[0]];
    assert later[0] == pieces[1];
    assert Fits([], pieces[0], limit) && !Fits([pieces[0]], later[0], limit);
  }

  // ----- no grouping is shorter

  function Flatten(lines: seq<seq<string>>): seq<string> {
    if |lines| == 0 then [] else lines[0] + Flatten(lines[1..])
  }

  lemma FlattenFirst(line: seq<string>, lines: seq<seq<string>>)
    ensures Flatten([line] + lines) == line + Flatten(lines)
  {
    assert ([line] + lines)[1..] == lines;
  }

  ghost predicate AllFit(lines: seq<seq<string>>, limit: nat) {
    forall i :: 0 <= i < |lines| ==> ContentWidth(lines[i]) <= limit
  }

  lemma WidthOfPart(a: seq<string>, b: seq<string>)
    ensures ContentWidth(a) <= ContentWidth(a + b)
    ensures ContentWidth(b) <= ContentWidth(a + b)
  {
    ConcatConcat(a, b);
  }

  /** The same lines without their first word. */
  lemma {:induction false} WithoutFirstWord(lines: seq<seq<string>>, limit: nat) returns (fewer: seq<seq<string>>)
    requires AllFit(lines, limit) && Flatten(lines) != []
    ensures AllFit(fewer, limit) && |fewer| <= |lines| && Flatten(fewer) == Flatten(lines)[1..]
  {
    assert AllFit(lines[1..], limit);
    if lines[0] == [] {
      assert [] + Flatten(lines[1..]) == Flatten(lines[1..]);
      fewer := WithoutFirstWord(lines[1..], limit);
    } else {
      fewer := ShorterFirstLine(lines[0], lines[1..], limit);
    }
  }

  lemma ShorterFirstLine(first: seq<string>, later: seq<seq<string>>, limit: nat) returns (fewer: seq<seq<string>>)
    requires |first| > 0 && ContentWidth(first) <= limit && AllFit(later, limit)
    ensures AllFit(fewer, limit) && |fewer| == 1 + |later|
    ensures Flatten(fewer) == (first + Flatten(later))[1..]
  {
    hide ContentWidth;
    assert first == [first[0]] + first[1..];
    WidthOfPart([first[0]], first[1..]);
    fewer := [first[1..]] + later;
    FlattenFirst(first[1..], later);
    assert first[1..] + Flatten(later) == (first + Flatten(later))[1..];
  }

  /** Greedy filling stays ahead: it needs no more lines than one begun line and any grouping of the rest. */
  lemma {:induction false} GreedyStaysAhead(
    words: seq<string>, line: seq<string>, rest: seq<string>, lines: seq<seq<string>>, limit: nat
  )
    requires limit > 0 && NonEmptyWords(words)
    requires forall i :: 0 <= i < |words| ==> |words[i]| <= limit
    requires words == rest + Flatten(lines) && AllFit(lines, limit) && ContentWidth(line + rest) <= limit
    ensures |Fill(words, line, limit)| <= 1 + |lines|
    decreases |words|, |line|
  {
    if |words| > 0 {
      var word := words[0];
      FitsMeansWidth(line, word, limit);
      if |rest| > 0 {
        assert line + rest == line + [word] + rest[1..];
        WidthOfPart(line + [word], rest[1..]);
        GreedyStaysAhead(words[1..], line + [word], rest[1..], lines, limit);
      } else if Fits(line, word, limit) {
        var fewer := WithoutFirstWord(lines, limit);
        assert line + [word] + [] == line + [word];
        assert words[1..] == [] + Flatten(fewer);
        GreedyStaysAhead(words[1..], line + [word], [], fewer, limit);
      } else {
        assert line != [] by {
          ConcatOne(word);
          assert [] + [word] == [word];
        }
        assert |lines| > 0;
        assert [] + lines[0] == lines[0];
        GreedyStaysAhead(words, [], lines[0], lines[1..], limit);
      }
    }
  }

  /** When every word fits a line, no other grouping of the words into fitting lines has fewer lines. */
  lemma GreedyIsOptimal(words: seq<string>, lines: seq<seq<string>>, limit: nat)
    requires limit > 0 && NonEmptyWords(words)
    requires forall i :: 0 <= i < |words| ==> |words[i]| <= limit
    requires Flatten(lines) == words && AllFit(lines, limit)
    ensures |Fill(words, [], limit)| <= |lines|
  {
    if |lines| > 0 {
      assert [] + lines[0] == lines[0];
      GreedyStaysAhead(words, [], lines[0], lines[1..], limit);
    }
  }

  // ----- a logical line

  function FinishLine(head: string, words: seq<string>): string {
    head + Join(words)
  }

  function Rendered(lines: seq<seq<string>>, head: string, continuation: string): seq<string> {
    if |lines| == 0 then []
    else [FinishLine(head, lines[0])] + Rendered(lines[1..], continuation, continuation)
  }

  function TrimEnd(s: string): string {
    if |s| > 0 && IsWhitespace(s[|s| - 1]) then TrimEnd(s[..|s| - 1]) else s
  }

  function LineLimit(width: nat, headLength: nat): nat {
    Max(SaturatingSub(Max(width, 1), headLength), 1)
  }

  function WrappedLine(line: string, width: nat): seq<string> {
    if |line| == 0 then [""]
    else if |line| <= width then [line]
    else
      var (prefix, body, continuation) := SplitPrefix(line, width);
      WordsAreNonEmpty(body);
      if |Words(body)| == 0 then [TrimEnd(prefix)]
      else Rendered(Fill(Words(body), [], LineLimit(width, |prefix|)), prefix, continuation)
  }

  /** The physical lines of one row: short rows stay whole, blank ones lose their end, others are filled. */
  method WrapLogicalLine(line: string, width: nat) returns (lines: seq<string>)
    ensures lines == WrappedLine(line, width)
  {
    if |line| == 0 {
      return [""];
    }
    if |line| <= width {
      return [line];
    }
    var (prefix, body, continuation) := SplitPrefix(line, width);
    var pending := Words(body);
    WordsAreNonEmpty(body);
    if |pending| == 0 {
      return [TrimEnd(prefix)];
    }
    lines := FillLines(pending, prefix, continuation, width);
  }

  method FillLines(tokens: seq<string>, prefix: string, continuation: string, width: nat) returns (lines: seq<string>)
    requires NonEmptyWords(tokens) && |prefix| == |continuation|
    ensures lines == Rendered(Fill(tokens, [], LineLimit(width, |prefix|)), prefix, continuation)
  {
    ghost var limit := LineLimit(width, |prefix|);
    var pending := tokens;
    lines := [];
    var words: seq<string> := [];
    var first := true;
    while |pending| > 0
      invariant NonEmptyWords(pending)
      invariant lines + Rendered(Fill(pending, words, limit), if first then prefix else continuation, continuation)
                == Rendered(Fill(tokens, [], limit), prefix, continuation)
      decreases |Concat(pending)|, |words|
    {
      hide Rendered, Pieces;
      var word := pending[0];
      var head := if first then prefix else continuation;
      var lineLimit := Max(SaturatingSub(Max(width, 1), |head|), 1);
      var room := SaturatingSub(lineLimit, ContentWidth(words) + (if |words| > 0 then 1 else 0));
      assert pending == [word] + pending[1..];
      ConcatConcat([word], pending[1..]);
      ConcatOne(word);
      if |word| <= room {
        words := words + [word];
        pending := pending[1..];
      } else if |words| > 0 {
        RenderFirst(lines, words, Fill(pending, [], limit), head, continuation);
        lines := lines + [FinishLine(head, words)];
        words, first := [], false;
      } else {
        PiecesShrink(word, pending[1..], limit);
        var pieces := SplitOverlong(word, lineLimit);
        RenderFirst(lines, [pieces[0]], Fill(pieces[1..] + pending[1..], [], limit), head, continuation);
        lines := lines + [FinishLine(head, [pieces[0]])];
        pending := pieces[1..] + pending[1..];
        first := false;
      }
    }
    if |words| > 0 {
      RenderFirst(lines, words, [], if first then prefix else continuation, continuation);
      lines := lines + [FinishLine(if first then prefix else continuation, words)];
    }
  }

  lemma RenderFirst(lines: seq<string>, words: seq<string>, later: seq<seq<string>>, head: string, continuation: string)
    ensures lines + Rendered([words] + later, head, continuation)
            == lines + [FinishLine(head, words)] + Rendered(later, continuation, continuation)
    ensures Rendered([words], head, continuation) == [FinishLine(head, words)]
  {
    assert ([words] + later)[1..] == later;
  }

  lemma {:induction false} RenderedHeads(lines: seq<seq<string>>, head: string, continuation: string)
    ensures var out := Rendered(lines, head, continuation);
      |out| == |lines|
      && forall i :: 0 <= i < |out| ==> out[i] == (if i == 0 then head else continuation) + Join(lines[i])
  {
    if |lines| > 0 {
      RenderedHeads(lines[1..], continuation, continuation);
    }
  }

  /** A wrapped line opens with the head of the logical line and hangs every further line behind as many spaces. */
  lemma HangingIndent(line: string, width: nat)
    requires |line| > width
    ensures var n, out := HeadLength(line, width), WrappedLine(line, width);
      && |out| > 0
      && (Words(line[n..]) != [] ==> line[..n] <= out[0])
      && forall i :: 0 < i < |out| ==> Spaces(n) <= out[i]
  {
    var (prefix, body, continuation) := SplitPrefix(line, width);
    WordsAreNonEmpty(body);
    hide HeadLength, Fill, Join, Words;
    if |line| > 0 && |Words(body)| > 0 {
      var lines := Fill(Words(body), [], LineLimit(width, |prefix|));
      FillIsNonEmpty(Words(body), [], LineLimit(width, |prefix|));
      RenderedHeads(lines, prefix, continuation);
    }
  }

  // ----- width

  lemma {:induction false} RenderedWidths(lines: seq<seq<string>>, head: string, continuation: string, limit: nat)
    requires AllFit(lines, limit) && |continuation| == |head|
    ensures forall i :: 0 <= i < |Rendered(lines, head, continuation)| ==>
      |Rendered(lines, head, continuation)[i]| <= |head| + limit
  {
    if |lines| > 0 {
      JoinWidth(lines[0]);
      RenderedWidths(lines[1..], continuation, continuation, limit);
    }
  }

  lemma {:induction false} TrimEndShorter(s: string)
    ensures |TrimEnd(s)| <= |s|
  {
    if |s| > 0 && IsWhitespace(s[|s| - 1]) {
      TrimEndShorter(s[..|s| - 1]);
    }
  }

  /** No physical line is longer than the width, unless the indent itself leaves no room. */
  lemma WrappedWidths(line: string, width: nat)
    ensures forall i :: 0 <= i < |WrappedLine(line, width)| ==>
      |WrappedLine(line, width)[i]| <= Max(width, HeadLength(line, width) + 1)
  {
    if |line| > width {
      var (prefix, body, continuation) := SplitPrefix(line, width);
      var limit := LineLimit(width, |prefix|);
      WordsAreNonEmpty(body);
      TrimEndShorter(prefix);
      assert Concat([]) == "";
      FillFits(Words(body), [], limit);
      RenderedWidths(Fill(Words(body), [], limit), prefix, continuation, limit);
    }
  }

  // ----- every printed character survives

  /** The characters that are not whitespace, in order. */
  function Ink(s: string): string {
    if |s| == 0 then ""
    else if IsWhitespace(s[0]) then Ink(s[1..])
    else [s[0]] + Ink(s[1..])
  }

  lemma {:induction false} InkConcat(a: string, b: string)
    ensures Ink(a + b) == Ink(a) + Ink(b)
  {
    if |a| == 0 {
      assert a + b == b;
    } else {
      assert (a + b)[1..] == a[1..] + b;
      InkConcat(a[1..], b);
    }
  }

  lemma {:induction false} InkOfSpaces(n: nat)
    ensures Ink(Spaces(n)) == ""
  {
    if n > 0 {
      assert Spaces(n)[1..] == Spaces(n - 1);
      InkOfSpaces(n - 1);
    }
  }

  lemma {:induction false} InkOfWords(s: string)
    ensures Ink(Concat(Words(s))) == Ink(s)
    decreases |s|
  {
    if |s| > 0 {
      LeadingWordFits(s);
      if IsWhitespace(s[0]) {
        InkOfWords(s[1..]);
      } else {
        var word := LeadingWord(s);
        var rest := s[|word|..];
        InkOfWords(rest);
        assert s == word + rest;
        InkConcat(word, rest);
        assert ([word] + Words(rest))[1..] == Words(rest);
        InkConcat(word, Concat(Words(rest)));
      }
    }
  }

  lemma {:induction false} InkOfJoin(words: seq<string>)
    ensures Ink(Join(words)) == Ink(Concat(words))
  {
    if |words| == 1 {
      assert words[0] + Concat(words[1..]) == words[0];
    } else if |words| > 1 {
      InkOfJoin(words[1..]);
      InkConcat(words[0] + " ", Join(words[1..]));
      InkConcat(words[0], " ");
      InkConcat(words[0], Concat(words[1..]));
      assert Ink(" ") == "";
    }
  }

  /** Filling only regroups and breaks words: their characters stay in order. */
  lemma {:induction false} FillKeepsText(words: seq<string>, line: seq<string>, limit: nat)
    requires limit > 0 && NonEmptyWords(words)
    ensures Concat(Flatten(Fill(words, line, limit))) == Concat(line) + Concat(words)
    decreases |Concat(words)|, |line|
  {
    if |words| == 0 {
      if |line| > 0 {
        assert Flatten([line]) == line + Flatten([]) == line;
      }
      assert Concat(line) + Concat(words) == Concat(line);
    } else {
      var later := words[1..];
      assert words == [words[0]] + later;
      ConcatConcat([words[0]], later);
      ConcatOne(words[0]);
      if Fits(line, words[0], limit) {
        FillKeepsText(later, line + [words[0]], limit);
        ConcatConcat(line, [words[0]]);
        assert Concat(line) + words[0] + Concat(later) == Concat(line) + (words[0] + Concat(later));
      } else if |line| > 0 {
        FillKeepsText(words, [], limit);
        LineThenFilled(line, Fill(words, [], limit));
      } else {
        PiecesShrink(words[0], later, limit);
        PiecesStack(words[0], limit);
        var pieces := Pieces(words[0], limit);
        var filled := Fill(pieces[1..] + later, [], limit);
        FillKeepsText(pieces[1..] + later, [], limit);
        PieceThenFilled(pieces, later, filled);
        assert Concat(line) + Concat(words) == Concat(words);
      }
    }
  }

  lemma LineThenFilled(line: seq<string>, filled: seq<seq<string>>)
    ensures Concat(Flatten([line] + filled)) == Concat(line) + Concat(Flatten(filled))
  {
    assert ([line] + filled)[1..] == filled;
    ConcatConcat(line, Flatten(filled));
  }

  lemma PieceThenFilled(pieces: seq<string>, later: seq<string>, filled: seq<seq<string>>)
    requires |pieces| > 0 && Concat(Flatten(filled)) == Concat([]) + Concat(pieces[1..] + later)
    ensures Concat(Flatten([[pieces[0]]] + filled)) == Concat(pieces) + Concat(later)
  {
    LineThenFilled([pieces[0]], filled);
    ConcatOne(pieces[0]);
    ConcatConcat(pieces[1..], later);
    assert Concat([]) + Concat(pieces[1..] + later) == Concat(pieces[1..]) + Concat(later);
    assert pieces[0] + (Concat(pieces[1..]) + Concat(later)) == pieces[0] + Concat(pieces[1..]) + Concat(later);
  }

  lemma {:induction false} InkOfRendered(lines: seq<seq<string>>, head: string, continuation: string)
    requires Ink(continuation) == ""
    ensures Ink(Concat(Rendered(lines, head, continuation)))
            == (if |lines| > 0 then Ink(head) else "") + Ink(Concat(Flatten(lines)))
  {
    if |lines| > 0 {
      var first, later := FinishLine(head, lines[0]), Rendered(lines[1..], continuation, continuation);
      InkOfRendered(lines[1..], continuation, continuation);
      assert ([first] + later)[1..] == later;
      InkConcat(first, Concat(later));
      InkConcat(head, Join(lines[0]));
      InkOfJoin(lines[0]);
      ConcatConcat(lines[0], Flatten(lines[1..]));
      InkConcat(Concat(lines[0]), Concat(Flatten(lines[1..])));
    }
  }

  lemma {:induction false} InkOfTrimEnd(s: string)
    ensures Ink(TrimEnd(s)) == Ink(s)
  {
    if |s| > 0 && IsWhitespace(s[|s| - 1]) {
      var m := |s| - 1;
      InkOfTrimEnd(s[..m]);
      assert s == s[..m] + [s[m]];
      InkConcat(s[..m], [s[m]]);
    }
  }

  /** Wrapping keeps every character that is not whitespace, in order. */
  lemma WrappingKeepsInk(line: string, width: nat)
    ensures Ink(Concat(WrappedLine(line, width))) == Ink(line)
  {
    if |line| <= width || |line| == 0 {
      ConcatOne(line);
    } else {
      var (prefix, body, continuation) := SplitPrefix(line, width);
      assert line == prefix + body;
      InkConcat(prefix, body);
      InkOfWords(body);
      WordsAreNonEmpty(body);
      hide HeadLength;
      if |Words(body)| == 0 {
        InkOfTrimEnd(prefix);
        ConcatOne(TrimEnd(prefix));
      } else {
        FilledInk(Words(body), prefix, |continuation|, LineLimit(width, |prefix|));
      }
    }
  }

  lemma FilledInk(words: seq<string>, prefix: string, indent: nat, limit: nat)
    requires limit > 0 && NonEmptyWords(words) && |words| > 0
    ensures Ink(Concat(Rendered(Fill(words, [], limit), prefix, Spaces(indent)))) == Ink(prefix) + Ink(Concat(words))
  {
    InkOfSpaces(indent);
    InkOfRendered(Fill(words, [], limit), prefix, Spaces(indent));
    FillIsNonEmpty(words, [], limit);
    FillKeepsText(words, [], limit);
    assert Concat([]) + Concat(words) == Concat(words);
  }

  // ----- a whole text

  /** The position after the first line break, or the end of the text. */
  function LineEnd(text: string): (n: nat)
    ensures n <= |text| && (|text| > 0 ==> n > 0)
  {
    if |text| == 0 then 0
    else if text[0] == '\n' then 1
    else 1 + LineEnd(text[1..])
  }

  function TrimBreaks(s: string): string {
    if |s| > 0 && (s[|s| - 1] == '\r' || s[|s| - 1] == '\n') then TrimBreaks(s[..|s| - 1]) else s
  }

  function WithBreaks(lines: seq<string>): string {
    if |lines| == 0 then "" else lines[0] + "\n" + WithBreaks(lines[1..])
  }

  function WrappedText(text: string, width: nat): string
    decreases |text|
  {
    if |text| == 0 then ""
    else
      var n := LineEnd(text);
      WithBreaks(WrappedLine(TrimBreaks(text[..n]), width)) + WrappedText(text[n..], width)
  }

  /** Append each physical line with a line break. */
  method PushLines(out: string, physical: seq<string>) returns (longer: string)
    ensures longer == out + WithBreaks(physical)
  {
    longer := out;
    assert physical[0..] == physical;
    for i := 0 to |physical|
      invariant longer + WithBreaks(physical[i..]) == out + WithBreaks(physical)
    {
      var line, later := physical[i], physical[i + 1..];
      assert physical[i..][1..] == later;
      assert longer + (line + "\n" + WithBreaks(later)) == longer + line + "\n" + WithBreaks(later);
      longer := longer + line + "\n";
    }
    assert physical[|physical|..] == [];
  }

  lemma TextStep(before: string, rest: string, width: nat)
    requires |rest| > 0
    ensures var n := LineEnd(rest);
      before + WithBreaks(WrappedLine(TrimBreaks(rest[..n]), width)) + WrappedText(rest[n..], width)
      == before + WrappedText(rest, width)
  {
    hide WrappedLine, TrimBreaks, WithBreaks;
    var n := LineEnd(rest);
    ConcatAssociates(before, WithBreaks(WrappedLine(TrimBreaks(rest[..n]), width)), WrappedText(rest[n..], width));
  }

  /** Each row of a text wrapped in turn, every physical line ended by a line break. */
  method WrapText(text: string, width: nat) returns (out: string)
    ensures out == WrappedText(text, width)
  {
    out := "";
    var rest := text;
    while |rest| > 0
      invariant out + WrappedText(rest, width) == WrappedText(text, width)
      decreases |rest|
    {
      TextStep(out, rest, width);
      hide WrappedText, WrappedLine, TrimBreaks, WithBreaks;
      var n := LineEnd(rest);
      var physical := WrapLogicalLine(TrimBreaks(rest[..n]), width);
      out := PushLines(out, physical);
      rest := rest[n..];
    }
  }

  lemma {:induction false} InkOfTrimBreaks(s: string)
    ensures Ink(TrimBreaks(s)) == Ink(s)
  {
    if |s| > 0 && (s[|s| - 1] == '\r' || s[|s| - 1] == '\n') {
      var m := |s| - 1;
      InkOfTrimBreaks(s[..m]);
      assert s == s[..m] + [s[m]];
      InkConcat(s[..m], [s[m]]);
    }
  }

  lemma {:induction false} InkWithBreaks(lines: seq<string>)
    ensures Ink(WithBreaks(lines)) == Ink(Concat(lines))
  {
    if |lines| > 0 {
      InkWithBreaks(lines[1..]);
      InkConcat(lines[0] + "\n", WithBreaks(lines[1..]));
      InkConcat(lines[0], "\n");
      InkConcat(lines[0], Concat(lines[1..]));
      assert Ink("\n") == "";
    }
  }

  lemma LineKeepsInk(part: string, width: nat)
    ensures Ink(WithBreaks(WrappedLine(TrimBreaks(part), width))) == Ink(part)
  {
    hide WrappedLine, TrimBreaks, WithBreaks, Ink;
    InkWithBreaks(WrappedLine(TrimBreaks(part), width));
    WrappingKeepsInk(TrimBreaks(part), width);
    InkOfTrimBreaks(part);
  }

  lemma InkOfParts(a: string, b: string, c: string, d: string)
    requires Ink(a) == Ink(c) && Ink(b) == Ink(d)
    ensures Ink(a + b) == Ink(c + d)
  {
    InkConcat(a, b);
    InkConcat(c, d);
  }

  /** Wrapping a whole text keeps every character that is not whitespace, in order. */
  lemma {:induction false} WrapTextKeepsInk(text: string, width: nat)
    ensures Ink(WrappedText(text, width)) == Ink(text)
    decreases |text|
  {
    if |text| > 0 {
      hide WrappedLine, TrimBreaks, WithBreaks, Ink, WrappedText, LineEnd;
      var n := LineEnd(text);
      var part, rest := text[..n], text[n..];
      var wrapped := WithBreaks(WrappedLine(TrimBreaks(part), width));
      WrapTextKeepsInk(rest, width);
      LineKeepsInk(part, width);
      FirstLineOfText(text, width);
      InkOfParts(wrapped, WrappedText(rest, width), part, rest);
      TwoParts(text, n);
    }
  }

  lemma TwoParts(text: string, n: nat)
    requires n <= |text|
    ensures text == text[..n] + text[n..]
  {
  }

  lemma FirstLineOfText(text: string, width: nat)
    requires |text| > 0
    ensures var n := LineEnd(text);
      WrappedText(text, width) == WithBreaks(WrappedLine(TrimBreaks(text[..n]), width)) + WrappedText(text[n..], width)
  {
    hide WrappedLine, TrimBreaks, WithBreaks;
  }
}
