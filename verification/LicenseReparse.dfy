/** Whatever the inventory parser accepts, the report template can carry: parsing, rendering and parsing again changes nothing. */
module LicenseReparse {
  import opened Wrappers
  import opened LicenseInventory
  import opened LicenseText
  import opened LicenseRendering

  /** A field as the parser leaves it. */
  ghost predicate Plain(s: string) {
    NotBlank(s) && Strip(s) == s
  }

  ghost predicate AllPlain(xs: seq<string>) {
    forall i :: 0 <= i < |xs| ==> Plain(xs[i])
  }

  /** A section as the parser leaves it. */
  ghost predicate PlainSection(s: LicenseSection) {
    && Plain(s.id) && Plain(s.name) && |s.packages| > 0 && AllPlain(s.packages)
    && s.text != "" && Unbroken(s.text) == s.text && '\r' !in s.text && ">>>" !in SplitLines(s.text)
  }

  ghost predicate AllPlainSections(sections: seq<LicenseSection>) {
    forall i :: 0 <= i < |sections| ==> PlainSection(sections[i])
  }

  // ----- what the parser leaves

  lemma StrippedIsPlain(s: string)
    requires OneLine(s) && Strip(s) != ""
    ensures Plain(Strip(s))
  {
    Stripped(s);
  }

  lemma InkAtEnd(s: string)
    requires s != "" && !IsSpace(s[|s| - 1])
    ensures Strip(s) != ""
  {
    var spaces := StripStartParts(s);
    StripEndFacts(StripStart(s));
  }

  lemma EntryIsPlain(line: string)
    requires OneLine(line) && "- " <= Strip(line)
    ensures Plain(Strip(Strip(line)[2..]))
  {
    var stripped := Strip(line);
    Stripped(line);
    assert stripped != "- ";
    hide Strip;
    InkAtEnd(stripped[2..]);
    StrippedIsPlain(stripped[2..]);
  }

  lemma {:induction false} SummaryIsPlain(lines: seq<string>)
    requires OneLines(lines) && ParseSummary(lines).Ok?
    ensures AllPlain(ParseSummary(lines).value)
  {
    if |lines| > 0 {
      hide Strip, Plain;
      SummaryIsPlain(lines[1..]);
      if Strip(lines[0]) != "" {
        EntryIsPlain(lines[0]);
      }
    }
  }

  lemma {:induction false} RunIsPlain(rest: seq<string>)
    requires OneLines(rest)
    ensures AllPlain(PackageRun(rest).0) && OneLines(PackageRun(rest).1)
  {
    if |rest| > 0 && IsPackageLine(rest[0]) {
      StrippedIsPlain(rest[0]);
      hide Strip, Plain;
      RunIsPlain(rest[1..]);
    }
  }

  lemma {:induction false} PackagesArePlain(rest: seq<string>)
    requires OneLines(rest) && ReadPackages(rest).Ok?
    ensures AllPlain(ReadPackages(rest).value.0) && OneLines(ReadPackages(rest).value.1)
    decreases |rest|
  {
    hide Strip, Plain, OneLine;
    if |rest| > 0 {
      if rest[0] == "used_by:" {
        RunIsPlain(rest[1..]);
        PackagesArePlain(PackageRun(rest[1..]).1);
      } else if rest[0] != "text:" && !("### " <= rest[0]) {
        PackagesArePlain(rest[1..]);
      }
    }
  }

  lemma {:induction false} BodyStaysOpen(rest: seq<string>)
    requires OneLines(rest) && ReadBody(rest).Some?
    ensures OneLines(ReadBody(rest).value.0) && ">>>" !in ReadBody(rest).value.0 && OneLines(ReadBody(rest).value.1)
  {
    if rest[0] != ">>>" {
      hide OneLine;
      BodyStaysOpen(rest[1..]);
    }
  }

  lemma {:induction false} JoinedIsClean(lines: seq<string>)
    requires OneLines(lines)
    ensures '\r' !in JoinLines(lines)
  {
    if |lines| > 1 {
      JoinedIsClean(lines[1..]);
    }
  }

  /** The text between two fences, stripped of line breaks at its ends. */
  lemma TextIsPlain(body: seq<string>)
    requires OneLines(body) && ">>>" !in body
    ensures var text := Unbroken(JoinLines(body));
      Unbroken(text) == text && '\r' !in text && ">>>" !in SplitLines(text)
  {
    var joined := JoinLines(body);
    JoinedIsClean(body);
    UnbrokenTwice(joined);
    if |body| > 0 {
      SplitJoin(body);
    } else {
      assert SplitLines(joined) == [""];
    }
    UnbrokenKeepsOut(joined, ">>>");
  }

  lemma SectionIsPlain(rest: seq<string>)
    requires |rest| > 0 && OneLines(rest) && ParseSection(rest).Ok?
    ensures PlainSection(ParseSection(rest).value.0) && OneLines(ParseSection(rest).value.1)
  {
    assert OneLine(rest[0][4..]) && OneLine(rest[1][6..]);
    hide Strip, Plain, OneLine, JoinLines, StripBreaksStart, StripBreaksEnd, ReadPackages, ReadBody, SplitLines;
    StrippedIsPlain(rest[0][4..]);
    StrippedIsPlain(rest[1][6..]);
    PackagesArePlain(rest[2..]);
    var after := ReadPackages(rest[2..]).value.1;
    BodyStaysOpen(after[1..]);
    TextIsPlain(ReadBody(after[1..]).value.0);
  }

  lemma {:induction false} SectionsArePlain(rest: seq<string>)
    requires OneLines(rest) && ParseSections(rest).Ok?
    ensures AllPlainSections(ParseSections(rest).value)
    decreases |rest|
  {
    hide Strip, ParseSection, PlainSection, OneLine;
    if |rest| > 0 {
      if Strip(rest[0]) == "" {
        SectionsArePlain(rest[1..]);
      } else {
        SectionIsPlain(rest);
        SectionsArePlain(ParseSection(rest).value.1);
      }
    }
  }

  // ----- what is left so reads back as it is

  lemma {:induction false} PlainReadsBack(xs: seq<string>)
    requires AllPlain(xs)
    ensures AllNotBlank(xs) && StripAll(xs) == xs
  {
    if |xs| > 0 {
      PlainReadsBack(xs[1..]);
      assert Plain(xs[0]) && xs == [xs[0]] + xs[1..];
    }
  }

  lemma SectionReadsBack(s: LicenseSection)
    requires PlainSection(s)
    ensures Fenced(Normalized(s)) && ReadBack(Normalized(s)) == s
  {
    NothingToNormalize(s.text);
    PlainReadsBack(s.packages);
    hide Strip, SplitLines, NormalizedNewlines, StripAll, OneLine, StripBreaksStart, StripBreaksEnd;
  }

  lemma {:induction false} SectionsReadBack(sections: seq<LicenseSection>)
    requires AllPlainSections(sections)
    ensures AllFenced(NormalizedAll(sections)) && ReadBackAll(NormalizedAll(sections)) == sections
  {
    if |sections| > 0 {
      hide PlainSection, Fenced, ReadBack, Normalized;
      var normalized := NormalizedAll(sections);
      assert normalized[1..] == NormalizedAll(sections[1..]);
      SectionReadsBack(sections[0]);
      SectionsReadBack(sections[1..]);
      assert sections == [sections[0]] + sections[1..];
    }
  }

  lemma LinesAreOneLines(text: string)
    ensures OneLines(SplitLines(NormalizedNewlines(text)))
  {
    NormalizedIsClean(text);
    SplitClean(NormalizedNewlines(text));
  }

  /** Every inventory the parser reads is one the template can carry, and reads back as itself. */
  lemma ParsedReadsBack(text: string)
    requires ParseText(text).Ok?
    ensures var inventory := ParseText(text).value;
      Renderable(inventory) && ReadBackInventory(inventory) == inventory
  {
    hide ParseSummary, ParseSections, FirstIndex, SplitLines, NormalizedNewlines, OneLine, StripAll, ReadBackAll,
      AllNotBlank, AllFenced, AllPlain, AllPlainSections, NormalizedAll;
    var lines := SplitLines(NormalizedNewlines(text));
    var p, q := FirstIndex(lines, SUMMARY_HEADING).value, FirstIndex(lines, SECTIONS_HEADING).value;
    LinesAreOneLines(text);
    SummaryIsPlain(lines[p + 1..q]);
    SectionsArePlain(lines[q + 1..]);
    var inventory := ParseText(text).value;
    PlainReadsBack(inventory.summary);
    SectionsReadBack(inventory.sections);
  }

  /** Parsing, rendering and parsing again gives what the first parse gave. */
  lemma Reparse(text: string, preamble: seq<string>)
    requires ParseText(text).Ok? && OneLines(preamble)
    requires SUMMARY_HEADING !in preamble && SECTIONS_HEADING !in preamble
    ensures ParseText(Unlines(Render(preamble, ParseText(text).value))) == ParseText(text)
  {
    hide ParseText, Render, Unlines, Renderable, ReadBackInventory;
    ParsedReadsBack(text);
    FileRoundTrip(preamble, ParseText(text).value);
  }
}
