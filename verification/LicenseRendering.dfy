/**
  The report template the inventory is generated from, and the round trips between
  it and the parser of `LicenseInventory`.
 */
module LicenseRendering {
  import opened Wrappers
  import opened LicenseInventory
  import opened LicenseText

  // ----- the template

  function Prefixed(prefix: string, xs: seq<string>): seq<string> {
    if |xs| == 0 then [] else [prefix + xs[0]] + Prefixed(prefix, xs[1..])
  }

  function Heading(s: LicenseSection): seq<string> {
    ["### " + s.id, "name: " + s.name, "used_by:"] + Prefixed("  ", s.packages) + ["text:", "<<<"]
  }

  function RenderSection(s: LicenseSection): seq<string> {
    Heading(s) + SplitLines(s.text) + [">>>", ""]
  }

  function RenderSections(sections: seq<LicenseSection>): seq<string> {
    if |sections| == 0 then [] else RenderSection(sections[0]) + RenderSections(sections[1..])
  }

  function Front(preamble: seq<string>, summary: seq<string>): seq<string> {
    preamble + [SUMMARY_HEADING, ""] + Prefixed("- ", summary) + ["", SECTIONS_HEADING, ""]
  }

  /** The lines of a whole report behind some preamble, each ended by a line break. */
  function Render(preamble: seq<string>, inventory: Inventory): seq<string> {
    Front(preamble, inventory.summary) + RenderSections(inventory.sections)
  }

  // ----- what the template can carry, and how it reads back

  /** A one-line field that is not blank. */
  ghost predicate NotBlank(s: string) {
    OneLine(s) && Strip(s) != ""
  }

  ghost predicate AllNotBlank(xs: seq<string>) {
    forall i :: 0 <= i < |xs| ==> NotBlank(xs[i])
  }

  /** Fields that are not blank, some package, and a text that neither is all line breaks nor closes its fence. */
  ghost predicate Fenced(s: LicenseSection) {
    && NotBlank(s.id) && NotBlank(s.name)
    && |s.packages| > 0 && AllNotBlank(s.packages)
    && Unbroken(s.text) != "" && ">>>" !in SplitLines(s.text)
  }

  ghost predicate AllFenced(sections: seq<LicenseSection>) {
    forall i :: 0 <= i < |sections| ==> Fenced(sections[i])
  }

  function StripAll(xs: seq<string>): seq<string> {
    if |xs| == 0 then [] else [Strip(xs[0])] + StripAll(xs[1..])
  }

  /** A section as it reads back: stripped fields, and no line breaks at the ends of its text. */
  function ReadBack(s: LicenseSection): LicenseSection {
    LicenseSection(Strip(s.id), Strip(s.name), StripAll(s.packages), Unbroken(s.text))
  }

  function ReadBackAll(sections: seq<LicenseSection>): seq<LicenseSection> {
    if |sections| == 0 then [] else [ReadBack(sections[0])] + ReadBackAll(sections[1..])
  }

  /** The text with its line endings normalized. */
  function Normalized(s: LicenseSection): LicenseSection {
    s.(text := NormalizedNewlines(s.text))
  }

  function NormalizedAll(sections: seq<LicenseSection>): seq<LicenseSection> {
    seq(|sections|, i requires 0 <= i < |sections| => Normalized(sections[i]))
  }

  /** An inventory the template can carry: only blank fields, empty lists and texts that close their own fence are out. */
  ghost predicate Renderable(inventory: Inventory) {
    && |inventory.summary| > 0 && AllNotBlank(inventory.summary)
    && |inventory.sections| > 0 && AllFenced(NormalizedAll(inventory.sections))
  }

  function ReadBackInventory(inventory: Inventory): Inventory {
    Inventory(StripAll(inventory.summary), ReadBackAll(NormalizedAll(inventory.sections)))
  }

  // ----- packages and bodies

  lemma {:induction false} BodyRoundTrip(body: seq<string>, tail: seq<string>)
    requires ">>>" !in body
    ensures ReadBody(body + [">>>"] + tail) == Some((body, tail))
  {
    var s := body + [">>>"] + tail;
    if |body| > 0 {
      assert s[1..] == body[1..] + [">>>"] + tail;
      assert s[0] == body[0];
      BodyRoundTrip(body[1..], tail);
      assert body == [body[0]] + body[1..];
    } else {
      assert s[0] == ">>>" && s[1..] == tail;
    }
  }

  lemma {:induction false} RunRoundTrip(packages: seq<string>, tail: seq<string>)
    requires AllNotBlank(packages)
    requires |tail| > 0 && !("  " <= tail[0])
    ensures PackageRun(Prefixed("  ", packages) + tail) == (StripAll(packages), tail)
  {
    var s := Prefixed("  ", packages) + tail;
    if |packages| > 0 {
      StripStartSkips("  ", packages[0]);
      assert s[0] == "  " + packages[0];
      assert s[1..] == Prefixed("  ", packages[1..]) + tail;
      RunRoundTrip(packages[1..], tail);
    } else {
      assert s == tail;
    }
  }

  lemma PackagesRoundTrip(packages: seq<string>, tail: seq<string>)
    requires AllNotBlank(packages)
    ensures ReadPackages(["used_by:"] + Prefixed("  ", packages) + ["text:"] + tail) == Ok((StripAll(packages), tail))
  {
    var s := ["used_by:"] + Prefixed("  ", packages) + ["text:"] + tail;
    assert s[1..] == Prefixed("  ", packages) + (["text:"] + tail);
    assert (["text:"] + tail)[0][0] == 't' && "  "[0] == ' ';
    RunRoundTrip(packages, ["text:"] + tail);
    assert (["text:"] + tail)[1..] == tail;
    assert ReadPackages(["text:"] + tail) == Ok(([], tail));
    assert StripAll(packages) + [] == StripAll(packages);
  }

  // ----- sections

  /** The lines of a section behind its name. */
  function Rest(s: LicenseSection, tail: seq<string>): seq<string> {
    ["used_by:"] + Prefixed("  ", s.packages) + ["text:"] + (["<<<"] + (SplitLines(s.text) + [">>>"] + tail))
  }

  lemma SectionLayout(s: LicenseSection, tail: seq<string>)
    ensures RenderSection(s) + tail == ["### " + s.id, "name: " + s.name] + Rest(s, [""] + tail)
  {
    hide SplitLines, Prefixed;
    assert ["### " + s.id, "name: " + s.name, "used_by:"] == ["### " + s.id, "name: " + s.name] + ["used_by:"];
    assert ["text:", "<<<"] == ["text:"] + ["<<<"] && [">>>", ""] == [">>>"] + [""];
  }

  lemma {:induction false} StripAllLength(xs: seq<string>)
    ensures |StripAll(xs)| == |xs|
    ensures forall i :: 0 <= i < |xs| ==> StripAll(xs)[i] == Strip(xs[i])
  {
    if |xs| > 0 {
      StripAllLength(xs[1..]);
    }
  }

  /** A rendered section, followed by anything, reads back and leaves its blank line and the rest. */
  lemma SectionRoundTrip(s: LicenseSection, tail: seq<string>)
    requires Fenced(s)
    ensures |RenderSection(s)| > 0
    ensures ParseSection(RenderSection(s) + tail) == Ok((ReadBack(s), [""] + tail))
  {
    hide RenderSection, SplitLines, ReadPackages, ReadBody, Strip, JoinLines, Prefixed, StripAll, OneLine,
      StripBreaksStart, StripBreaksEnd;
    SectionLayout(s, tail);
    FirstLine(s);
    var lines := RenderSection(s) + tail;
    var blank := [""] + tail;
    assert lines[2..] == Rest(s, blank);
    assert lines[0][4..] == s.id && lines[1][6..] == s.name;
    PackagesRoundTrip(s.packages, ["<<<"] + (SplitLines(s.text) + [">>>"] + blank));
    StripAllLength(s.packages);
    var after := ["<<<"] + (SplitLines(s.text) + [">>>"] + blank);
    assert after[1..] == SplitLines(s.text) + [">>>"] + blank;
    BodyRoundTrip(SplitLines(s.text), blank);
    JoinSplit(s.text);
  }

  lemma FirstLine(s: LicenseSection)
    ensures |RenderSection(s)| > 0 && RenderSection(s)[0] == "### " + s.id
  {
  }

  lemma HeadingIsNotBlank(id: string)
    ensures Strip("### " + id) != ""
  {
    StripEndFacts("### " + id);
  }

  lemma BlankLine(tail: seq<string>)
    ensures ParseSections([""] + tail) == ParseSections(tail)
  {
    assert ([""] + tail)[1..] == tail;
  }

  lemma {:induction false} SectionsRoundTrip(sections: seq<LicenseSection>)
    requires AllFenced(sections)
    ensures ParseSections(RenderSections(sections) + [""]) == Ok(ReadBackAll(sections))
  {
    if |sections| > 0 {
      hide RenderSection, ParseSection, Fenced, Strip, ReadBack;
      var s, tail := sections[0], RenderSections(sections[1..]) + [""];
      assert RenderSections(sections) + [""] == RenderSection(s) + tail;
      SectionRoundTrip(s, tail);
      FirstLine(s);
      HeadingIsNotBlank(s.id);
      SectionsRoundTrip(sections[1..]);
      BlankLine(tail);
      assert (RenderSection(s) + tail)[0] == "### " + s.id;
    } else {
      assert RenderSections(sections) + [""] == [""] + [];
      BlankLine([]);
    }
  }

  // ----- the summary

  /** A summary line reads back as its entry, stripped. */
  lemma SummaryLine(s: string)
    requires Strip(s) != ""
    ensures "- " <= Strip("- " + s) && Strip(Strip("- " + s)[2..]) == Strip(s)
  {
    StripsNothing("- " + s);
    StripsCommute(s);
    StripEndBehind("- ", s);
    assert ("- " + StripEnd(s))[2..] == StripEnd(s);
    StripEndTwice(s);
  }

  lemma StripEndTwice(s: string)
    requires Strip(s) != ""
    ensures Strip(StripEnd(s)) == Strip(s)
  {
    StripsCommute(s);
    Stripped(s);
    var spaces := StripStartParts(StripEnd(s));
    StripEndFacts(s);
  }

  lemma {:induction false} SummaryRoundTrip(summary: seq<string>, tail: seq<string>)
    requires AllNotBlank(summary)
    requires ParseSummary(tail) == Ok([])
    ensures ParseSummary(Prefixed("- ", summary) + tail) == Ok(StripAll(summary))
  {
    var lines := Prefixed("- ", summary) + tail;
    if |summary| > 0 {
      hide Strip;
      SummaryLine(summary[0]);
      assert lines[0] == "- " + summary[0];
      assert lines[1..] == Prefixed("- ", summary[1..]) + tail;
      SummaryRoundTrip(summary[1..], tail);
    } else {
      assert lines == tail;
    }
  }

  lemma {:induction false} FirstIndexSkips(before: seq<string>, x: string, tail: seq<string>)
    requires x !in before
    ensures FirstIndex(before + [x] + tail, x) == Some(|before|)
  {
    var s := before + [x] + tail;
    if |before| > 0 {
      assert s[0] == before[0] && s[1..] == before[1..] + [x] + tail;
      FirstIndexSkips(before[1..], x, tail);
    } else {
      assert s[0] == x;
    }
  }

  lemma {:induction false} NotPrefixed(prefix: string, xs: seq<string>, x: string)
    requires !(prefix <= x)
    ensures x !in Prefixed(prefix, xs)
  {
    if |xs| > 0 {
      NotPrefixed(prefix, xs[1..], x);
    }
  }

  /** Where the headings of a report stand, and what is between and behind them. */
  lemma HeadingsFound(preamble: seq<string>, middle: seq<string>, last: seq<string>)
    requires SUMMARY_HEADING !in preamble && SECTIONS_HEADING !in preamble && SECTIONS_HEADING !in middle
    ensures var lines := preamble + [SUMMARY_HEADING] + middle + [SECTIONS_HEADING] + last;
      var p, q := |preamble|, |preamble| + 1 + |middle|;
      && FirstIndex(lines, SUMMARY_HEADING) == Some(p)
      && FirstIndex(lines, SECTIONS_HEADING) == Some(q)
      && lines[p + 1..q] == middle && lines[q + 1..] == last
  {
    hide FirstIndex;
    var lines := preamble + [SUMMARY_HEADING] + middle + [SECTIONS_HEADING] + last;
    var before := preamble + [SUMMARY_HEADING] + middle;
    assert |SUMMARY_HEADING| != |SECTIONS_HEADING|;
    assert lines == preamble + [SUMMARY_HEADING] + (middle + [SECTIONS_HEADING] + last);
    FirstIndexSkips(preamble, SUMMARY_HEADING, middle + [SECTIONS_HEADING] + last);
    FirstIndexSkips(before, SECTIONS_HEADING, last);
  }

  lemma BlankEnd()
    ensures ParseSummary([""]) == Ok([])
  {
  }

  lemma LeadingBlank(lines: seq<string>)
    ensures ParseSummary([""] + lines) == ParseSummary(lines)
  {
    assert ([""] + lines)[1..] == lines;
  }

  lemma SummaryPart(summary: seq<string>)
    requires AllNotBlank(summary)
    ensures var middle := [""] + Prefixed("- ", summary) + [""];
      ParseSummary(middle) == Ok(StripAll(summary)) && SECTIONS_HEADING !in middle
  {
    hide ParseSummary, Prefixed, AllNotBlank, StripAll;
    var items := Prefixed("- ", summary);
    assert [""] + items + [""] == [""] + (items + [""]);
    BlankEnd();
    SummaryRoundTrip(summary, [""]);
    LeadingBlank(items + [""]);
    assert SECTIONS_HEADING[0] == '#' && "- "[0] == '-';
    NotPrefixed("- ", summary, SECTIONS_HEADING);
  }

  lemma ReportLayout(preamble: seq<string>, items: seq<string>, sections: seq<string>)
    ensures preamble + [SUMMARY_HEADING, ""] + items + ["", SECTIONS_HEADING, ""] + sections + [""]
            == preamble + [SUMMARY_HEADING] + ([""] + items + [""]) + [SECTIONS_HEADING] + ([""] + (sections + [""]))
  {
  }

  lemma {:induction false} ReadBackLength(sections: seq<LicenseSection>)
    ensures |ReadBackAll(sections)| == |sections|
    ensures forall i :: 0 <= i < |sections| ==> ReadBackAll(sections)[i] == ReadBack(sections[i])
  {
    if |sections| > 0 {
      ReadBackLength(sections[1..]);
    }
  }

  /**
    Parsing the lines of a rendered report reads its inventory back, whatever preamble
    precedes it, as long as the preamble holds neither heading.
   */
  lemma RenderedRoundTrip(preamble: seq<string>, inventory: Inventory)
    requires |inventory.summary| > 0 && AllNotBlank(inventory.summary)
    requires |inventory.sections| > 0 && AllFenced(inventory.sections)
    requires SUMMARY_HEADING !in preamble && SECTIONS_HEADING !in preamble
    ensures ParseLines(Render(preamble, inventory) + [""])
            == Ok(Inventory(StripAll(inventory.summary), ReadBackAll(inventory.sections)))
  {
    hide ParseSummary, ParseSections, FirstIndex, RenderSections, Prefixed, AllNotBlank, AllFenced, StripAll, ReadBackAll;
    var items, sections := Prefixed("- ", inventory.summary), RenderSections(inventory.sections);
    var middle, last := [""] + items + [""], [""] + (sections + [""]);
    ReportLayout(preamble, items, sections);
    SummaryPart(inventory.summary);
    HeadingsFound(preamble, middle, last);
    SectionsRoundTrip(inventory.sections);
    BlankLine(sections + [""]);
    StripAllLength(inventory.summary);
    ReadBackLength(inventory.sections);
  }

  // ----- the file

  lemma BothOneLines(a: seq<string>, b: seq<string>)
    requires OneLines(a) && OneLines(b)
    ensures OneLines(a + b)
  {
    hide OneLine;
  }

  lemma {:induction false} PrefixedOneLines(prefix: string, xs: seq<string>)
    requires OneLine(prefix) && AllNotBlank(xs)
    ensures OneLines(Prefixed(prefix, xs))
  {
    if |xs| > 0 {
      assert NotBlank(xs[0]) && OneLine(prefix + xs[0]);
      PrefixedOneLines(prefix, xs[1..]);
    }
  }

  lemma HeadingOneLines(s: LicenseSection)
    requires NotBlank(s.id) && NotBlank(s.name) && AllNotBlank(s.packages)
    ensures OneLines(Heading(s))
  {
    assert OneLine("### " + s.id) && OneLine("name: " + s.name) && OneLine("  ");
    PrefixedOneLines("  ", s.packages);
    hide Prefixed, OneLines;
    FieldLines(s);
    BothOneLines(["### " + s.id, "name: " + s.name, "used_by:"], Prefixed("  ", s.packages));
    BothOneLines(["### " + s.id, "name: " + s.name, "used_by:"] + Prefixed("  ", s.packages), ["text:", "<<<"]);
  }

  lemma FieldLines(s: LicenseSection)
    requires OneLine("### " + s.id) && OneLine("name: " + s.name)
    ensures OneLines(["### " + s.id, "name: " + s.name, "used_by:"]) && OneLines(["text:", "<<<"])
  {
  }

  lemma FrontOneLines(preamble: seq<string>, summary: seq<string>)
    requires OneLines(preamble) && AllNotBlank(summary)
    ensures OneLines(Front(preamble, summary))
  {
    assert OneLine("- ");
    PrefixedOneLines("- ", summary);
    HeadingLines();
    hide Prefixed, OneLines, AllNotBlank;
    var opening, items := [SUMMARY_HEADING, ""], Prefixed("- ", summary);
    BothOneLines(preamble, opening);
    BothOneLines(preamble + opening, items);
    BothOneLines(preamble + opening + items, ["", SECTIONS_HEADING, ""]);
  }

  lemma HeadingLines()
    ensures OneLines([SUMMARY_HEADING, ""]) && OneLines(["", SECTIONS_HEADING, ""])
  {
  }

  /** The section whose text has no carriage returns any more. */
  function Cleaned(s: LicenseSection): LicenseSection {
    s.(text := Clean(s.text))
  }

  function CleanedAll(sections: seq<LicenseSection>): seq<LicenseSection> {
    seq(|sections|, i requires 0 <= i < |sections| => Cleaned(sections[i]))
  }

  lemma {:induction false} UnlinesClean(lines: seq<string>)
    requires OneLines(lines)
    ensures '\r' !in Unlines(lines)
  {
    if |lines| > 0 {
      UnlinesClean(lines[1..]);
    }
  }

  lemma SectionText(s: LicenseSection)
    ensures Unlines(RenderSection(s)) == Unlines(Heading(s)) + (s.text + "\n" + Unlines([">>>", ""]))
  {
    hide Heading, SplitLines, Unlines;
    UnlinesConcat(Heading(s) + SplitLines(s.text), [">>>", ""]);
    UnlinesConcat(Heading(s), SplitLines(s.text));
    UnlinesJoin(SplitLines(s.text));
    JoinSplit(s.text);
    ConcatAssociates(Unlines(Heading(s)), s.text + "\n", Unlines([">>>", ""]));
  }

  lemma HeadingClean(s: LicenseSection)
    requires NotBlank(s.id) && NotBlank(s.name) && AllNotBlank(s.packages)
    ensures '\r' !in Unlines(Heading(s)) && Heading(Cleaned(s)) == Heading(s)
  {
    HeadingOneLines(s);
    UnlinesClean(Heading(s));
  }

  lemma AroundText(head: string, text: string, fence: string, rest: string)
    ensures head + (text + "\n" + fence) + rest == head + (text + "\n" + (fence + rest))
  {
  }

  /** Normalizing a rendered section cleans its text and nothing else. */
  lemma SectionNormalized(s: LicenseSection, rest: string)
    requires NotBlank(s.id) && NotBlank(s.name) && AllNotBlank(s.packages)
    ensures NormalizedNewlines(Unlines(RenderSection(s)) + rest)
            == Unlines(RenderSection(Cleaned(s))) + NormalizedNewlines(rest)
  {
    hide Heading, RenderSection, Unlines, NormalizedNewlines, Clean, NotBlank, AllNotBlank;
    HeadingClean(s);
    FenceClean();
    SectionText(s);
    SectionText(Cleaned(s));
    var head, fence := Unlines(Heading(s)), Unlines([">>>", ""]);
    AroundText(head, s.text, fence, rest);
    NormalizeBehind(head, s.text + "\n" + (fence + rest));
    NormalizeBroken(s.text, fence + rest);
    NormalizeBehind(fence, rest);
    AroundText(head, Clean(s.text), fence, NormalizedNewlines(rest));
  }

  lemma FenceClean()
    ensures '\r' !in Unlines([">>>", ""])
  {
    UnlinesClean([">>>", ""]);
  }

  lemma {:induction false} SectionsNormalized(sections: seq<LicenseSection>)
    requires forall i :: 0 <= i < |sections| ==>
      NotBlank(sections[i].id) && NotBlank(sections[i].name) && AllNotBlank(sections[i].packages)
    ensures NormalizedNewlines(Unlines(RenderSections(sections))) == Unlines(RenderSections(CleanedAll(sections)))
  {
    if |sections| > 0 {
      hide RenderSection, NormalizedNewlines, Unlines, NotBlank, AllNotBlank, Cleaned;
      var s, later := sections[0], RenderSections(sections[1..]);
      UnlinesConcat(RenderSection(s), later);
      SectionNormalized(s, Unlines(later));
      SectionsNormalized(sections[1..]);
      assert CleanedAll(sections)[1..] == CleanedAll(sections[1..]);
      UnlinesConcat(RenderSection(Cleaned(s)), RenderSections(CleanedAll(sections[1..])));
    }
  }

  lemma CleanedFenced(s: LicenseSection)
    requires Fenced(Normalized(s))
    ensures Fenced(Cleaned(s)) && ReadBack(Cleaned(s)) == ReadBack(Normalized(s))
  {
    hide Strip, Unbroken, SplitLines, NormalizedNewlines, Clean, NotBlank, AllNotBlank, StripAll;
    CleanFacts(s.text);
  }

  lemma CleanedOneLines(s: LicenseSection)
    requires Fenced(Normalized(s))
    ensures OneLines(RenderSection(Cleaned(s)))
  {
    hide Strip, Unbroken, SplitLines, NormalizedNewlines, Clean, AllNotBlank, StripAll, Prefixed;
    var c := Cleaned(s);
    CleanFacts(s.text);
    SplitClean(c.text);
    HeadingOneLines(c);
    FenceLines();
    hide NotBlank, Heading, OneLines;
    BothOneLines(Heading(c), SplitLines(c.text));
    BothOneLines(Heading(c) + SplitLines(c.text), [">>>", ""]);
  }

  lemma FenceLines()
    ensures OneLines([">>>", ""])
  {
  }

  lemma {:induction false} AllCleanedFenced(sections: seq<LicenseSection>)
    requires AllFenced(NormalizedAll(sections))
    ensures AllFenced(CleanedAll(sections)) && ReadBackAll(CleanedAll(sections)) == ReadBackAll(NormalizedAll(sections))
    ensures OneLines(RenderSections(CleanedAll(sections)))
  {
    if |sections| > 0 {
      hide Fenced, RenderSection, ReadBack, Cleaned, Normalized, OneLines, OneLine;
      var normalized, cleaned := NormalizedAll(sections), CleanedAll(sections);
      assert normalized[1..] == NormalizedAll(sections[1..]) && cleaned[1..] == CleanedAll(sections[1..]);
      assert Fenced(normalized[0]);
      CleanedFenced(sections[0]);
      CleanedOneLines(sections[0]);
      AllCleanedFenced(sections[1..]);
      assert cleaned == [Cleaned(sections[0])] + CleanedAll(sections[1..]);
      BothOneLines(RenderSection(Cleaned(sections[0])), RenderSections(CleanedAll(sections[1..])));
    }
  }

  lemma FieldsNotBlank(sections: seq<LicenseSection>)
    requires AllFenced(NormalizedAll(sections))
    ensures forall i :: 0 <= i < |sections| ==>
      NotBlank(sections[i].id) && NotBlank(sections[i].name) && AllNotBlank(sections[i].packages)
  {
    hide NotBlank, AllNotBlank, Unbroken, SplitLines, NormalizedNewlines;
    forall i | 0 <= i < |sections|
      ensures NotBlank(sections[i].id) && NotBlank(sections[i].name) && AllNotBlank(sections[i].packages)
    {
      assert Fenced(NormalizedAll(sections)[i]);
    }
  }

  /** Normalizing the rendered file cleans the license texts and nothing else. */
  lemma ReportNormalized(preamble: seq<string>, inventory: Inventory)
    requires Renderable(inventory) && OneLines(preamble)
    ensures var cleaned := inventory.(sections := CleanedAll(inventory.sections));
      NormalizedNewlines(Unlines(Render(preamble, inventory))) == Unlines(Render(preamble, cleaned))
  {
    FieldsNotBlank(inventory.sections);
    FrontOneLines(preamble, inventory.summary);
    var front, sections := Front(preamble, inventory.summary), RenderSections(inventory.sections);
    UnlinesClean(front);
    hide Front, RenderSections, Unlines, NormalizedNewlines, NotBlank, AllNotBlank, AllFenced, OneLines;
    UnlinesConcat(front, sections);
    UnlinesConcat(front, RenderSections(CleanedAll(inventory.sections)));
    NormalizeBehind(Unlines(front), Unlines(sections));
    SectionsNormalized(inventory.sections);
  }

  /**
    Parsing a rendered report file reads its inventory back, and gives its canonical
    form: fields stripped, line endings normalized, no line breaks at the ends of texts,
    everything sorted.
   */
  lemma FileRoundTrip(preamble: seq<string>, inventory: Inventory)
    requires Renderable(inventory) && OneLines(preamble)
    requires SUMMARY_HEADING !in preamble && SECTIONS_HEADING !in preamble
    ensures ParseText(Unlines(Render(preamble, inventory))) == Ok(ReadBackInventory(inventory))
    ensures ParseInventory(Unlines(Render(preamble, inventory))) == Ok(Canonical(ReadBackInventory(inventory)))
  {
    var cleaned := inventory.(sections := CleanedAll(inventory.sections));
    ReportNormalized(preamble, inventory);
    AllCleanedFenced(inventory.sections);
    FrontOneLines(preamble, inventory.summary);
    hide Front, RenderSections, AllNotBlank, AllFenced, ParseLines, Canonical, StripAll, ReadBackAll, CleanedAll,
      NormalizedAll, NormalizedNewlines, SplitLines, Unlines;
    BothOneLines(Front(preamble, inventory.summary), RenderSections(cleaned.sections));
    SplitUnlines(Render(preamble, cleaned));
    CleanedSize(inventory.sections);
    RenderedRoundTrip(preamble, cleaned);
  }

  lemma CleanedSize(sections: seq<LicenseSection>)
    ensures |CleanedAll(sections)| == |sections|
  {
  }
}
