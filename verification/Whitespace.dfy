/** White space and the words it separates. */
module Whitespace {
  /** The characters with the Unicode White_Space property. */
  predicate IsWhitespace(c: char) {
    var n := c as int;
    9 <= n <= 13 || n == 0x20 || n == 0x85 || n == 0xA0 || n == 0x1680 || 0x2000 <= n <= 0x200A
    || n == 0x2028 || n == 0x2029 || n == 0x202F || n == 0x205F || n == 0x3000
  }

  function LeadingWord(s: string): string {
    if |s| == 0 || IsWhitespace(s[0]) then "" else [s[0]] + LeadingWord(s[1..])
  }

  ghost predicate Blank(s: string) {
    forall i :: 0 <= i < |s| ==> IsWhitespace(s[i])
  }

  /** A word: some characters, none of them white space. */
  ghost predicate Solid(s: string) {
    s != "" && forall i :: 0 <= i < |s| ==> !IsWhitespace(s[i])
  }

  lemma {:induction false} LeadingWordEnds(word: string, rest: string)
    requires Solid(word) && (rest == "" || IsWhitespace(rest[0]))
    ensures LeadingWord(word + rest) == word
  {
    var s := word + rest;
    assert s[1..] == word[1..] + rest;
    if |word| > 1 {
      LeadingWordEnds(word[1..], rest);
    } else {
      assert s[1..] == rest;
    }
  }

  lemma {:induction false} LeadingWordIsSolid(s: string)
    requires |s| > 0 && !IsWhitespace(s[0])
    ensures Solid(LeadingWord(s)) && LeadingWord(s) <= s
    ensures var rest := s[|LeadingWord(s)|..]; rest == "" || IsWhitespace(rest[0])
  {
    var tail := s[1..];
    if |tail| > 0 && !IsWhitespace(tail[0]) {
      LeadingWordIsSolid(tail);
    }
  }
}
