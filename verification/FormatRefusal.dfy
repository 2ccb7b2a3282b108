/**
  Refusals of a whole format. The worker puts a token behind a fixed prefix in
  its error line, and the parent finds it again whatever detail follows.
 */
module FormatRefusal {
  import opened Wrappers
  import opened Whitespace

  datatype Refusal = Avif | Heic | Raw

  const FORMAT_REFUSAL_PREFIX := "viewr-format "

  function Token(r: Refusal): string {
    match r
    case Avif => "avif"
    case Heic => "heic"
    case Raw => "raw"
  }

  function Message(r: Refusal, detail: string): string {
    FORMAT_REFUSAL_PREFIX + Token(r) + " " + detail
  }

  function ToAsciiLower(c: char): char {
    if 'A' <= c <= 'Z' then (c as int + 32) as char else c
  }

  function Lowered(s: string): string {
    seq(|s|, i requires 0 <= i < |s| => ToAsciiLower(s[i]))
  }

  /** The text before the first occurrence of the prefix, and the text after it if there is one. */
  function SplitOnce(s: string): (string, Option<string>) {
    if FORMAT_REFUSAL_PREFIX <= s then ("", Some(s[|FORMAT_REFUSAL_PREFIX|..]))
    else if |s| == 0 then ("", None)
    else
      var (before, after) := SplitOnce(s[1..]);
      ([s[0]] + before, after)
  }

  function FirstWord(s: string): Option<string> {
    if |s| == 0 then None
    else if IsWhitespace(s[0]) then FirstWord(s[1..])
    else Some(LeadingWord(s))
  }

  /** The refusal named by the first word between the first prefix in a line and the next one, letter case aside. */
  function Parse(text: string): Option<Refusal> {
    match SplitOnce(Lowered(text)).1
    case None => None
    case Some(after) =>
      match FirstWord(SplitOnce(after).0)
      case None => None
      case Some(word) =>
        if word == "avif" then Some(Avif)
        else if word == "heic" then Some(Heic)
        else if word == "raw" then Some(Raw)
        else None
  }

  /** A split passes over a character the prefix does not begin with. */
  lemma SplitPasses(c: char, rest: string)
    requires !(FORMAT_REFUSAL_PREFIX <= [c] + rest)
    ensures SplitOnce([c] + rest).0 == [c] + SplitOnce(rest).0
  {
    assert ([c] + rest)[1..] == rest;
  }

  /** The prefix starts nowhere inside `t`, whatever follows it: its first letters already differ. */
  ghost predicate NoMatchInside(t: string) {
    |t| > 0 ==>
      (t[0] != 'v' || (|t| > 1 && t[1] != 'i') || (|t| > 2 && t[2] != 'e')) && NoMatchInside(t[1..])
  }

  lemma {:induction false} SplitKeeps(t: string, rest: string)
    requires NoMatchInside(t)
    ensures t <= SplitOnce(t + rest).0
  {
    if |t| > 0 {
      var whole := t + rest;
      assert whole == [t[0]] + (t[1..] + rest);
      var p := FORMAT_REFUSAL_PREFIX;
      assert p[0] == 'v' && p[1] == 'i' && p[2] == 'e';
      assert (|t| > 1 ==> whole[1] == t[1]) && (|t| > 2 ==> whole[2] == t[2]);
      assert !(p <= whole);
      SplitKeeps(t[1..], rest);
      SplitPasses(t[0], t[1..] + rest);
      assert t == [t[0]] + t[1..];
    }
  }

  /** Splitting never starts a match inside the token, so the token and its space stay together. */
  lemma TokenSurvivesSplit(r: Refusal, rest: string)
    ensures Token(r) + " " <= SplitOnce(Token(r) + " " + rest).0
  {
    NoMatchInToken(r);
    SplitKeeps(Token(r) + " ", rest);
  }

  lemma NoMatchInToken(r: Refusal)
    ensures NoMatchInside(Token(r) + " ")
  {
    var t := Token(r) + " ";
    assert t[1..][1..] == t[2..] && t[2..][1..] == t[3..] && t[3..][1..] == t[4..] && t[|t|..] == "";
    assert |t| > 4 ==> t[4..][1..] == t[5..];
    assert NoMatchInside(t[|t|..]);
    assert |t| > 4 ==> NoMatchInside(t[4..]);
    assert NoMatchInside(t[3..]);
    assert NoMatchInside(t[2..]);
  }

  lemma {:induction false} LeadingWordStops(word: string, rest: string)
    requires forall i :: 0 <= i < |word| ==> !IsWhitespace(word[i])
    ensures LeadingWord(word + " " + rest) == word
  {
    if |word| > 0 {
      assert (word + " " + rest)[1..] == word[1..] + " " + rest;
      LeadingWordStops(word[1..], rest);
    }
  }

  /** Lowering keeps a lower-case head in place. */
  lemma LoweredHead(head: string, text: string)
    requires head <= text && Lowered(head) == head
    ensures Lowered(text) == head + Lowered(text)[|head|..]
  {
    var lower := Lowered(text);
    forall i | 0 <= i < |head|
      ensures lower[i] == head[i]
    {
      assert Lowered(head)[i] == ToAsciiLower(head[i]) && head[i] == text[i];
    }
  }

  lemma FirstSplit(rest: string)
    ensures SplitOnce(FORMAT_REFUSAL_PREFIX + rest).1 == Some(rest)
  {
    assert (FORMAT_REFUSAL_PREFIX + rest)[|FORMAT_REFUSAL_PREFIX|..] == rest;
  }

  lemma TokenRead(r: Refusal, rest: string)
    ensures FirstWord(SplitOnce(Token(r) + " " + rest).0) == Some(Token(r))
  {
    TokenSurvivesSplit(r, rest);
    var t := Token(r) + " ";
    var first := SplitOnce(t + rest).0;
    assert first == t + first[|t|..];
    LeadingWordStops(Token(r), first[|t|..]);
  }

  /** A line that begins with prefix, token and space names that refusal, whatever follows. */
  lemma RefusalFoundFirst(r: Refusal, text: string)
    requires FORMAT_REFUSAL_PREFIX + Token(r) + " " <= text
    ensures Parse(text) == Some(r)
  {
    var head := FORMAT_REFUSAL_PREFIX + Token(r) + " ";
    assert Lowered(head) == head;
    LoweredHead(head, text);
    var rest := Lowered(text)[|head|..];
    assert Lowered(text) == FORMAT_REFUSAL_PREFIX + (Token(r) + " " + rest);
    FirstSplit(Token(r) + " " + rest);
    TokenRead(r, rest);
  }

  /** Rewording the detail never hides the refusal. */
  lemma RefusalRoundTrip(r: Refusal, detail: string)
    ensures Parse(Message(r, detail)) == Some(r)
  {
    RefusalFoundFirst(r, Message(r, detail));
  }

  // ----- what is found in a line

  /** The prefix begins at `i`. */
  ghost predicate OccursAt(s: string, i: nat) {
    i + |FORMAT_REFUSAL_PREFIX| <= |s| && s[i..i + |FORMAT_REFUSAL_PREFIX|] == FORMAT_REFUSAL_PREFIX
  }

  /** The split is at the first place the prefix begins, or nowhere. */
  lemma {:induction false} SplitAtFirst(s: string)
    ensures var (before, after) := SplitOnce(s);
      && before <= s
      && (forall k: nat :: k < |before| ==> !OccursAt(s, k))
      && (after.None? ==> before == s)
      && (after.Some? ==> OccursAt(s, |before|) && after.value == s[|before| + |FORMAT_REFUSAL_PREFIX|..])
  {
    if FORMAT_REFUSAL_PREFIX <= s {
      assert s[0..|FORMAT_REFUSAL_PREFIX|] == FORMAT_REFUSAL_PREFIX;
    } else if |s| > 0 {
      SplitAtFirst(s[1..]);
      forall k: nat
        ensures k > 0 ==> (OccursAt(s, k) <==> OccursAt(s[1..], k - 1))
        ensures !OccursAt(s, 0)
      {
        OneLater(s, k);
        assert OccursAt(s, 0) ==> FORMAT_REFUSAL_PREFIX <= s;
      }
    }
  }

  lemma OneLater(s: string, k: nat)
    requires |s| > 0
    ensures k > 0 ==> (OccursAt(s, k) <==> OccursAt(s[1..], k - 1))
  {
    if k > 0 && k + |FORMAT_REFUSAL_PREFIX| <= |s| {
      assert s[1..][k - 1..k - 1 + |FORMAT_REFUSAL_PREFIX|] == s[k..k + |FORMAT_REFUSAL_PREFIX|];
    }
  }

  /** The stretch from behind the first prefix up to the next one, or to the end of the line. */
  ghost predicate Stretch(s: string, i: nat, j: nat) {
    var start := i + |FORMAT_REFUSAL_PREFIX|;
    && OccursAt(s, i) && (forall k: nat :: k < i ==> !OccursAt(s, k))
    && start <= j <= |s| && (j == |s| || OccursAt(s, j))
    && (forall k: nat :: start <= k < j ==> !OccursAt(s, k))
  }

  /** The first word of the text, behind nothing but white space. */
  ghost predicate OpensWith(s: string, word: string) {
    Solid(word)
    && exists b: nat :: WordAt(s, b, word)
  }

  /** The word stands at `b`, up to the next white space or the end, behind nothing but white space. */
  ghost predicate WordAt(s: string, b: nat, word: string) {
    && b + |word| <= |s| && Blank(s[..b]) && s[b..b + |word|] == word
    && (b + |word| == |s| || IsWhitespace(s[b + |word|]))
  }

  lemma {:induction false} BlankSkipped(blank: string, rest: string)
    requires Blank(blank)
    ensures FirstWord(blank + rest) == FirstWord(rest)
  {
    if |blank| > 0 {
      assert (blank + rest)[1..] == blank[1..] + rest;
      BlankSkipped(blank[1..], rest);
    } else {
      assert blank + rest == rest;
    }
  }

  lemma SliceLater(s: string, from: nat, n: nat)
    requires 1 + from + n <= |s|
    ensures s[1..][from..from + n] == s[1 + from..1 + from + n]
  {
  }

  lemma {:induction false} WordFound(s: string) returns (b: nat)
    ensures FirstWord(s).Some? ==> Solid(FirstWord(s).value) && WordAt(s, b, FirstWord(s).value)
  {
    b := 0;
    if |s| > 0 {
      if IsWhitespace(s[0]) {
        var later := WordFound(s[1..]);
        b := later + 1;
        if FirstWord(s).Some? {
          assert s[..b] == [s[0]] + s[1..][..later];
          SliceLater(s, later, |FirstWord(s).value|);
        }
      } else {
        LeadingWordIsSolid(s);
      }
    }
  }

  lemma WordIsFirst(s: string, b: nat, word: string)
    requires Solid(word) && WordAt(s, b, word)
    ensures FirstWord(s) == Some(word)
  {
    hide FirstWord;
    var rest := s[b + |word|..];
    assert s == s[..b] + (word + rest);
    assert rest == "" || rest[0] == s[b + |word|];
    BlankSkipped(s[..b], word + rest);
    FirstOfWord(word, rest);
  }

  lemma FirstOfWord(word: string, rest: string)
    requires Solid(word) && (rest == "" || IsWhitespace(rest[0]))
    ensures FirstWord(word + rest) == Some(word)
  {
    hide LeadingWord;
    LeadingWordEnds(word, rest);
  }

  lemma FirstWordExactly(s: string, word: string)
    ensures FirstWord(s) == Some(word) <==> OpensWith(s, word)
  {
    hide FirstWord, Solid, WordAt;
    if FirstWord(s) == Some(word) {
      var b := WordFound(s);
    }
    if OpensWith(s, word) {
      var b: nat :| WordAt(s, b, word);
      WordIsFirst(s, b, word);
    }
  }

  /** `low` is the text with its ASCII letters in lower case. */
  ghost predicate LowerCaseOf(low: string, text: string) {
    |low| == |text| && forall i :: 0 <= i < |text| ==>
      low[i] as int == text[i] as int + (if 'A' <= text[i] <= 'Z' then 32 else 0)
  }

  /**
    A line names a refusal exactly when, letter case aside, the first word between its
    first prefix and the next one is that refusal's token.
   */
  lemma ParseExactly(text: string, low: string, r: Refusal)
    requires LowerCaseOf(low, text)
    ensures Parse(text) == Some(r) <==>
      exists i: nat, j: nat :: Stretch(low, i, j) && OpensWith(low[i + |FORMAT_REFUSAL_PREFIX|..j], Token(r))
  {
    assert low == Lowered(text);
    hide *;
    var i, j := MainStretch(low);
    ParseUnfolds(text, r);
    if SplitOnce(low).1.Some? {
      FirstWordExactly(SplitOnce(SplitOnce(low).1.value).0, Token(r));
      forall i': nat, j': nat | Stretch(low, i', j')
        ensures i' == i && j' == j
      {
        OneStretch(low, i, j, i', j');
      }
    }
  }

  lemma ParseUnfolds(text: string, r: Refusal)
    ensures Parse(text) == Some(r) <==>
      && SplitOnce(Lowered(text)).1.Some?
      && FirstWord(SplitOnce(SplitOnce(Lowered(text)).1.value).0) == Some(Token(r))
  {
    hide SplitOnce, Lowered, FirstWord;
    TokensDiffer();
  }

  /** The text between the first prefix and the next, if there is a first. */
  lemma MainStretch(low: string) returns (i: nat, j: nat)
    ensures SplitOnce(low).1.None? ==> forall k: nat, end: nat :: !Stretch(low, k, end)
    ensures SplitOnce(low).1.Some? ==>
      Stretch(low, i, j) && SplitOnce(SplitOnce(low).1.value).0 == low[i + |FORMAT_REFUSAL_PREFIX|..j]
  {
    hide OccursAt, SplitOnce, Stretch;
    SplitAtFirst(low);
    var (before, after) := SplitOnce(low);
    i, j := |before|, |low|;
    if after.Some? {
      SplitAtFirst(after.value);
      var (stretch, later) := SplitOnce(after.value);
      j := i + |FORMAT_REFUSAL_PREFIX| + |stretch|;
      StretchFound(low, i, after.value, stretch, later.None?);
      StretchEnds(low, i, after.value, stretch);
    } else {
      NoStretch(low);
    }
  }

  lemma StretchEnds(low: string, i: nat, after: string, stretch: string)
    requires i + |FORMAT_REFUSAL_PREFIX| <= |low| && after == low[i + |FORMAT_REFUSAL_PREFIX|..] && stretch <= after
    ensures stretch == low[i + |FORMAT_REFUSAL_PREFIX|..i + |FORMAT_REFUSAL_PREFIX| + |stretch|]
  {
  }

  lemma NoStretch(low: string)
    requires forall k: nat :: k < |low| ==> !OccursAt(low, k)
    ensures forall k: nat, end: nat :: !Stretch(low, k, end)
  {
  }

  lemma TokensDiffer()
    ensures forall a: Refusal, b: Refusal :: Token(a) == Token(b) ==> a == b
  {
    assert "avif"[0] == 'a' && "heic"[0] == 'h' && "raw"[0] == 'r';
  }

  lemma OneStretch(s: string, i: nat, j: nat, i': nat, j': nat)
    requires Stretch(s, i, j) && Stretch(s, i', j')
    ensures i == i' && j == j'
  {
    hide OccursAt;
  }

  lemma StretchFound(low: string, i: nat, after: string, stretch: string, toTheEnd: bool)
    requires OccursAt(low, i) && after == low[i + |FORMAT_REFUSAL_PREFIX|..] && stretch <= after
    requires forall k: nat :: k < i ==> !OccursAt(low, k)
    requires forall k: nat :: k < |stretch| ==> !OccursAt(after, k)
    requires if toTheEnd then stretch == after else OccursAt(after, |stretch|)
    ensures Stretch(low, i, i + |FORMAT_REFUSAL_PREFIX| + |stretch|)
  {
    var start := i + |FORMAT_REFUSAL_PREFIX|;
    forall k: nat | start <= k
      ensures OccursAt(low, k) <==> OccursAt(after, k - start)
    {
      if k + |FORMAT_REFUSAL_PREFIX| <= |low| {
        assert after[k - start..k - start + |FORMAT_REFUSAL_PREFIX|] == low[k..k + |FORMAT_REFUSAL_PREFIX|];
      }
    }
  }
}
