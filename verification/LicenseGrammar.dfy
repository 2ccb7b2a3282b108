/**
  The inventory grammar told by what its texts are made of: the parser of `LicenseInventory`
  accepts exactly the texts that can be put together so, and reads them as they were put together.
 */
module LicenseGrammar {
  import opened Wrappers
  import opened LicenseInventory
  import opened LicenseText
  import opened LicenseRendering

  // ----- one section

  /** What stands between a section's name and its text: package lists and blank lines. */
  datatype Block = UsedBy(lines: seq<string>) | Gap(line: string)

  ghost predicate GoodBlock(b: Block) {
    match b
    case UsedBy(lines) => forall i :: 0 <= i < |lines| ==> IsPackageLine(lines[i])
    case Gap(line) => Strip(line) == ""
  }

  ghost predicate GoodBlocks(blocks: seq<Block>) {
    forall i :: 0 <= i < |blocks| ==> GoodBlock(blocks[i])
  }

  ghost function BlockLines(b: Block): seq<string> {
    match b
    case UsedBy(lines) => ["used_by:"] + lines
    case Gap(line) => [line]
  }

  ghost function Spelled(blocks: seq<Block>): seq<string> {
    if |blocks| == 0 then [] else BlockLines(blocks[0]) + Spelled(blocks[1..])
  }

  ghost function Packages(blocks: seq<Block>): seq<string> {
    if |blocks| == 0 then []
    else (if blocks[0].UsedBy? then StripAll(blocks[0].lines) else []) + Packages(blocks[1..])
  }

  datatype Source = Source(heading: string, name: string, blocks: seq<Block>, body: seq<string>)

  ghost function FencedLines(x: Source): seq<string> {
    ["<<<"] + (x.body + [">>>"])
  }

  ghost function SourceLines(x: Source): seq<string> {
    [x.heading, x.name] + (Spelled(x.blocks) + (["text:"] + FencedLines(x)))
  }

  ghost predicate GoodSource(x: Source) {
    && "### " <= x.heading && Strip(x.heading[4..]) != ""
    && "name: " <= x.name && Strip(x.name[6..]) != ""
    && GoodBlocks(x.blocks) && Packages(x.blocks) != []
    && ">>>" !in x.body && Unbroken(JoinLines(x.body)) != ""
  }

  ghost function SectionOf(x: Source): LicenseSection
    requires GoodSource(x)
  {
    LicenseSection(Strip(x.heading[4..]), Strip(x.name[6..]), Packages(x.blocks), Unbroken(JoinLines(x.body)))
  }

  lemma {:induction false} RunReads(lines: seq<string>, tail: seq<string>)
    requires GoodBlock(UsedBy(lines)) && |tail| > 0 && !IsPackageLine(tail[0])
    ensures PackageRun(lines + tail) == (StripAll(lines), tail)
  {
    if |lines| > 0 {
      assert (lines + tail)[1..] == lines[1..] + tail;
      RunReads(lines[1..], tail);
    } else {
      assert lines + tail == tail;
    }
  }

  lemma BlankIsNoKeyword(line: string)
    requires Strip(line) == ""
    ensures line != "used_by:" && line != "text:" && !("### " <= line) && !IsPackageLine(line)
  {
    InkShows("used_by:", line);
    InkShows("text:", line);
    InkShows("### ", line);
  }

  /** A line that opens with ink is not blank. */
  lemma InkShows(head: string, line: string)
    requires head != "" && !IsSpace(head[0])
    ensures head <= line ==> Strip(line) != ""
  {
    if head <= line {
      assert StripStart(line) == line;
      StripEndFacts(line);
    }
  }

  lemma PackagesStep(rest: seq<string>)
    requires |rest| > 0 && ReadPackages(PackageRun(rest[1..]).1).Ok?
    ensures rest[0] == "used_by:" ==>
      var (packages, after) := PackageRun(rest[1..]);
      ReadPackages(rest) == Ok((packages + ReadPackages(after).value.0, ReadPackages(after).value.1))
  {
    hide Strip, PackageRun;
  }

  lemma GapStep(line: string, later: seq<string>)
    requires Strip(line) == ""
    ensures ReadPackages([line] + later) == ReadPackages(later)
  {
    BlankIsNoKeyword(line);
    assert ([line] + later)[1..] == later;
    hide Strip, IsPackageLine, PackageRun;
  }

  lemma RunStep(lines: seq<string>, later: seq<string>)
    requires GoodBlock(UsedBy(lines)) && ReadPackages(later).Ok? && |later| > 0 && !IsPackageLine(later[0])
    ensures var (packages, after) := ReadPackages(later).value;
      ReadPackages(["used_by:"] + lines + later) == Ok((StripAll(lines) + packages, after))
  {
    hide ReadPackages, IsPackageLine, StripAll, PackageRun, GoodBlock;
    RunReads(lines, later);
    var s := ["used_by:"] + lines + later;
    assert s[0] == "used_by:";
    assert s[1..] == lines + later;
    PackagesStep(s);
  }

  lemma OneBlockReads(b: Block, later: seq<string>)
    requires GoodBlock(b) && ReadPackages(later).Ok? && |later| > 0 && !IsPackageLine(later[0])
    ensures var (packages, after) := ReadPackages(later).value;
      ReadPackages(BlockLines(b) + later) == Ok(((if b.UsedBy? then StripAll(b.lines) else []) + packages, after))
  {
    hide ReadPackages, IsPackageLine, StripAll;
    match b
    case UsedBy(lines) => RunStep(lines, later);
    case Gap(line) =>
      GapStep(line, later);
      assert [] + ReadPackages(later).value.0 == ReadPackages(later).value.0;
  }

  lemma {:induction false} BlocksRead(blocks: seq<Block>, tail: seq<string>)
    requires GoodBlocks(blocks)
    ensures ReadPackages(Spelled(blocks) + (["text:"] + tail)) == Ok((Packages(blocks), tail))
  {
    var end := ["text:"] + tail;
    if |blocks| == 0 {
      assert Spelled(blocks) + end == end && end[0] == "text:" && end[1..] == tail;
    } else {
      hide ReadPackages, IsPackageLine, StripAll, GoodBlock, BlockLines;
      BlocksRead(blocks[1..], tail);
      NextIsNoPackage(blocks[1..], tail);
      OneBlockReads(blocks[0], Spelled(blocks[1..]) + end);
      ConcatAssociates(BlockLines(blocks[0]), Spelled(blocks[1..]), end);
    }
  }

  lemma NextIsNoPackage(blocks: seq<Block>, tail: seq<string>)
    requires GoodBlocks(blocks)
    ensures var next := Spelled(blocks) + (["text:"] + tail); |next| > 0 && !IsPackageLine(next[0])
  {
    assert "  "[0] == ' ' && "text:"[0] == 't' && "used_by:"[0] == 'u';
    if |blocks| > 0 && blocks[0].Gap? {
      BlankIsNoKeyword(blocks[0].line);
    }
  }

  /** A section put together from good parts reads as what they say. */
  lemma SourceReads(x: Source, after: seq<string>)
    requires GoodSource(x)
    ensures ParseSection(SourceLines(x) + after) == Ok((SectionOf(x), after))
  {
    hide Strip, ReadPackages, ReadBody, Packages, Spelled, JoinLines, StripBreaksStart, StripBreaksEnd, GoodBlocks;
    var lines := SourceLines(x) + after;
    var fenced := FencedLines(x) + after;
    assert lines[0] == x.heading && lines[1] == x.name;
    assert lines[2..] == Spelled(x.blocks) + (["text:"] + fenced);
    BlocksRead(x.blocks, fenced);
    assert fenced[0] == "<<<" && fenced[1..] == x.body + [">>>"] + after;
    BodyRoundTrip(x.body, after);
  }

  lemma {:induction false} RunParts(rest: seq<string>) returns (lines: seq<string>)
    ensures GoodBlock(UsedBy(lines)) && rest == lines + PackageRun(rest).1 && PackageRun(rest).0 == StripAll(lines)
  {
    if |rest| > 0 && IsPackageLine(rest[0]) {
      var later := RunParts(rest[1..]);
      lines := [rest[0]] + later;
      assert lines[1..] == later;
      assert rest == [rest[0]] + rest[1..];
    } else {
      lines := [];
      assert rest == [] + rest;
    }
  }

  /** What is read as packages is either followed by a text, or by nothing a section can go on with. */
  lemma {:induction false} BlocksFound(rest: seq<string>) returns (blocks: seq<Block>)
    requires ReadPackages(rest).Ok?
    ensures var (packages, after) := ReadPackages(rest).value;
      |after| > 0 && after[0] == "<<<" ==>
        GoodBlocks(blocks) && Packages(blocks) == packages && rest == Spelled(blocks) + (["text:"] + after)
    decreases |rest|
  {
    hide Strip, IsPackageLine;
    blocks := [];
    if |rest| > 0 {
      assert rest == [rest[0]] + rest[1..];
      if rest[0] == "used_by:" {
        var lines := RunParts(rest[1..]);
        var after := PackageRun(rest[1..]).1;
        var later := BlocksFound(after);
        blocks := [UsedBy(lines)] + later;
        assert blocks[1..] == later;
        if |ReadPackages(rest).value.1| > 0 && ReadPackages(rest).value.1[0] == "<<<" {
          var end := ["text:"] + ReadPackages(rest).value.1;
          assert rest == (["used_by:"] + lines) + (Spelled(later) + end);
          ConcatAssociates(["used_by:"] + lines, Spelled(later), end);
        }
      } else if rest[0] == "text:" {
        assert Spelled([]) + rest == rest;
      } else if "### " <= rest[0] {
        assert "### "[0] == '#' && "<<<"[0] == '<';
      } else {
        var later := BlocksFound(rest[1..]);
        blocks := [Gap(rest[0])] + later;
        assert blocks[1..] == later;
        if |ReadPackages(rest).value.1| > 0 && ReadPackages(rest).value.1[0] == "<<<" {
          var end := ["text:"] + ReadPackages(rest).value.1;
          ConcatAssociates([rest[0]], Spelled(later), end);
          assert [] + Packages(later) == Packages(later);
        }
      }
    }
  }

  lemma {:induction false} BodyFound(rest: seq<string>)
    requires ReadBody(rest).Some?
    ensures var (body, after) := ReadBody(rest).value; ">>>" !in body && rest == body + [">>>"] + after
  {
    assert rest == [rest[0]] + rest[1..];
    if rest[0] != ">>>" {
      BodyFound(rest[1..]);
    }
  }

  /** A section the parser reads was put together from good parts. */
  lemma SourceFound(rest: seq<string>) returns (x: Source)
    requires |rest| > 0 && ParseSection(rest).Ok?
    ensures var (section, after) := ParseSection(rest).value;
      GoodSource(x) && rest == SourceLines(x) + after && section == SectionOf(x)
  {
    hide Strip, ReadPackages, ReadBody, Packages, Spelled, JoinLines, StripBreaksStart, StripBreaksEnd, GoodBlocks;
    var (packages, after) := ReadPackages(rest[2..]).value;
    var blocks := BlocksFound(rest[2..]);
    var (body, end) := ReadBody(after[1..]).value;
    BodyFound(after[1..]);
    x := Source(rest[0], rest[1], blocks, body);
    assert rest == [rest[0], rest[1]] + rest[2..];
    assert after == ["<<<"] + after[1..];
    assert after == FencedLines(x) + end;
    SourceEnds(rest[0], rest[1], Spelled(blocks), FencedLines(x), end);
  }

  lemma SourceEnds(heading: string, name: string, spelled: seq<string>, fenced: seq<string>, end: seq<string>)
    ensures [heading, name] + (spelled + (["text:"] + (fenced + end)))
            == [heading, name] + (spelled + (["text:"] + fenced)) + end
  {
  }

  /** The parser reads a section from the front of some lines exactly when they begin with one put together from good parts. */
  lemma SectionExactly(rest: seq<string>, section: LicenseSection, after: seq<string>)
    requires |rest| > 0
    ensures ParseSection(rest) == Ok((section, after)) <==>
      exists x :: GoodSource(x) && rest == SourceLines(x) + after && section == SectionOf(x)
  {
    hide GoodSource, SourceLines, SectionOf, ParseSection;
    if ParseSection(rest) == Ok((section, after)) {
      var x := SourceFound(rest);
    }
    if x :| GoodSource(x) && rest == SourceLines(x) + after && section == SectionOf(x) {
      SourceReads(x, after);
    }
  }

  // ----- what is wrong with a section

  lemma {:induction false} OpenBody(rest: seq<string>)
    requires ">>>" !in rest
    ensures ReadBody(rest).None?
  {
    if |rest| > 0 {
      assert rest[0] in rest;
      OpenBody(rest[1..]);
    }
  }

  /** Behind a good heading, name and package lists, the first thing missing is what is reported. */
  lemma SectionFaults(x: Source, behind: seq<string>)
    requires "### " <= x.heading && Strip(x.heading[4..]) != "" && "name: " <= x.name && Strip(x.name[6..]) != ""
    requires GoodBlocks(x.blocks)
    ensures var r := ParseSection([x.heading, x.name] + (Spelled(x.blocks) + (["text:"] + behind)));
      && (Packages(x.blocks) == [] ==> r == Err(NoPackages))
      && (Packages(x.blocks) != [] && (behind == [] || behind[0] != "<<<") ==> r == Err(MissingFence))
      && (Packages(x.blocks) != [] && behind != [] && behind[0] == "<<<" && ">>>" !in behind ==> r == Err(UnclosedFence))
  {
    hide Strip, ReadPackages, ReadBody, Packages, Spelled, JoinLines, StripBreaksStart, StripBreaksEnd, GoodBlocks;
    var lines := [x.heading, x.name] + (Spelled(x.blocks) + (["text:"] + behind));
    assert lines[0] == x.heading && lines[1] == x.name;
    assert lines[2..] == Spelled(x.blocks) + (["text:"] + behind);
    BlocksRead(x.blocks, behind);
    if behind != [] && ">>>" !in behind {
      OpenBody(behind[1..]);
    }
  }

  /** A text that is all line breaks is no text. */
  lemma NoTextFault(x: Source, after: seq<string>)
    requires "### " <= x.heading && Strip(x.heading[4..]) != "" && "name: " <= x.name && Strip(x.name[6..]) != ""
    requires GoodBlocks(x.blocks) && Packages(x.blocks) != []
    requires ">>>" !in x.body && Unbroken(JoinLines(x.body)) == ""
    ensures ParseSection(SourceLines(x) + after) == Err(NoText)
  {
    hide Strip, ReadPackages, ReadBody, Packages, Spelled, JoinLines, StripBreaksStart, StripBreaksEnd, GoodBlocks;
    var lines := SourceLines(x) + after;
    var fenced := FencedLines(x) + after;
    assert lines[0] == x.heading && lines[1] == x.name;
    assert lines[2..] == Spelled(x.blocks) + (["text:"] + fenced);
    BlocksRead(x.blocks, fenced);
    assert fenced[0] == "<<<" && fenced[1..] == x.body + [">>>"] + after;
    BodyRoundTrip(x.body, after);
  }

  // ----- the whole inventory

  datatype Part = Blank(line: string) | Section(source: Source)

  ghost predicate GoodPart(p: Part) {
    match p
    case Blank(line) => Strip(line) == ""
    case Section(source) => GoodSource(source)
  }

  ghost predicate GoodParts(parts: seq<Part>) {
    forall i :: 0 <= i < |parts| ==> GoodPart(parts[i])
  }

  ghost function PartLines(p: Part): seq<string> {
    match p
    case Blank(line) => [line]
    case Section(source) => SourceLines(source)
  }

  ghost function AllLines(parts: seq<Part>): seq<string> {
    if |parts| == 0 then [] else PartLines(parts[0]) + AllLines(parts[1..])
  }

  ghost function SectionsOf(parts: seq<Part>): seq<LicenseSection>
    requires GoodParts(parts)
  {
    if |parts| == 0 then []
    else
      assert GoodPart(parts[0]);
      (if parts[0].Section? then [SectionOf(parts[0].source)] else []) + SectionsOf(parts[1..])
  }

  lemma {:induction false} PartsRead(parts: seq<Part>)
    requires GoodParts(parts)
    ensures ParseSections(AllLines(parts)) == Ok(SectionsOf(parts))
  {
    if |parts| > 0 {
      hide Strip, ParseSection, GoodSource, SourceLines, SectionOf;
      var s, later := AllLines(parts), AllLines(parts[1..]);
      PartsRead(parts[1..]);
      assert GoodPart(parts[0]);
      match parts[0]
      case Blank(line) =>
        assert s[0] == line && s[1..] == later;
        assert [] + SectionsOf(parts[1..]) == SectionsOf(parts[1..]);
      case Section(source) =>
        SourceReads(source, later);
        SourceOpens(source);
        assert s[0] == SourceLines(source)[0];
    }
  }

  lemma SourceOpens(x: Source)
    requires GoodSource(x)
    ensures |SourceLines(x)| > 0 && Strip(SourceLines(x)[0]) != ""
  {
    InkShows("### ", x.heading);
  }

  lemma {:induction false} PartsFound(rest: seq<string>) returns (parts: seq<Part>)
    requires ParseSections(rest).Ok?
    ensures GoodParts(parts) && rest == AllLines(parts) && ParseSections(rest).value == SectionsOf(parts)
    decreases |rest|
  {
    parts := [];
    if |rest| > 0 {
      hide Strip, ParseSection, GoodSource, SourceLines, SectionOf;
      if Strip(rest[0]) == "" {
        var later := PartsFound(rest[1..]);
        parts := [Blank(rest[0])] + later;
        assert parts[1..] == later && rest == [rest[0]] + rest[1..];
        assert [] + SectionsOf(later) == SectionsOf(later);
      } else {
        var x := SourceFound(rest);
        var later := PartsFound(ParseSection(rest).value.1);
        parts := [Section(x)] + later;
        assert parts[1..] == later;
      }
    }
  }

  ghost predicate GoodEntry(line: string) {
    Strip(line) == "" || "- " <= Strip(line)
  }

  ghost predicate GoodEntries(lines: seq<string>) {
    forall i :: 0 <= i < |lines| ==> GoodEntry(lines[i])
  }

  /** What the summary lines say, blank ones left out. */
  ghost function Entries(lines: seq<string>): seq<string>
    requires GoodEntries(lines)
  {
    if |lines| == 0 then []
    else
      assert GoodEntry(lines[0]);
      (if Strip(lines[0]) == "" then [] else [Strip(Strip(lines[0])[2..])]) + Entries(lines[1..])
  }

  lemma {:induction false} SummaryExactly(lines: seq<string>)
    ensures ParseSummary(lines).Ok? <==> GoodEntries(lines)
    ensures ParseSummary(lines).Ok? ==> ParseSummary(lines).value == Entries(lines)
  {
    if |lines| > 0 {
      hide Strip;
      SummaryExactly(lines[1..]);
      assert lines == [lines[0]] + lines[1..];
      assert GoodEntries(lines) <==> GoodEntry(lines[0]) && GoodEntries(lines[1..]);
      if GoodEntries(lines) {
        assert [] + Entries(lines[1..]) == Entries(lines[1..]);
      }
    }
  }

  datatype Report = Report(preamble: seq<string>, summary: seq<string>, parts: seq<Part>)

  ghost function ReportLines(x: Report): seq<string> {
    x.preamble + [SUMMARY_HEADING] + x.summary + [SECTIONS_HEADING] + AllLines(x.parts)
  }

  /** Each heading stands behind what it opens for the first time, and something is listed under both. */
  ghost predicate GoodReport(x: Report) {
    && SUMMARY_HEADING !in x.preamble && SECTIONS_HEADING !in x.preamble && SECTIONS_HEADING !in x.summary
    && GoodEntries(x.summary) && GoodParts(x.parts)
    && Entries(x.summary) != [] && SectionsOf(x.parts) != []
  }

  ghost function InventoryOf(x: Report): Inventory
    requires GoodReport(x)
  {
    Inventory(Entries(x.summary), SectionsOf(x.parts))
  }

  lemma {:induction false} FirstIndexCuts(lines: seq<string>, x: string)
    requires FirstIndex(lines, x).Some?
    ensures var i := FirstIndex(lines, x).value; lines[i] == x && x !in lines[..i]
  {
    if lines[0] != x {
      FirstIndexCuts(lines[1..], x);
      var i := FirstIndex(lines, x).value;
      assert lines[..i] == [lines[0]] + lines[1..][..i - 1];
    }
  }

  lemma CutTwice(lines: seq<string>, p: nat, q: nat)
    requires p < q < |lines|
    ensures lines == lines[..p] + [lines[p]] + lines[p + 1..q] + [lines[q]] + lines[q + 1..]
    ensures forall x :: x !in lines[..q] ==> x !in lines[..p] && x !in lines[p + 1..q]
  {
  }

  lemma ReportFound(lines: seq<string>) returns (x: Report)
    requires ParseLines(lines).Ok?
    ensures GoodReport(x) && lines == ReportLines(x) && ParseLines(lines).value == InventoryOf(x)
  {
    hide ParseSummary, ParseSections, FirstIndex, GoodEntries, GoodParts, Entries, SectionsOf, AllLines;
    var p, q := FirstIndex(lines, SUMMARY_HEADING).value, FirstIndex(lines, SECTIONS_HEADING).value;
    FirstIndexCuts(lines, SUMMARY_HEADING);
    FirstIndexCuts(lines, SECTIONS_HEADING);
    CutTwice(lines, p, q);
    SummaryExactly(lines[p + 1..q]);
    var parts := PartsFound(lines[q + 1..]);
    x := Report(lines[..p], lines[p + 1..q], parts);
  }

  lemma ReportReads(x: Report)
    requires GoodReport(x)
    ensures ParseLines(ReportLines(x)) == Ok(InventoryOf(x))
  {
    hide ParseSummary, ParseSections, FirstIndex, GoodEntries, GoodParts, Entries, SectionsOf, AllLines;
    HeadingsFound(x.preamble, x.summary, AllLines(x.parts));
    SummaryExactly(x.summary);
    PartsRead(x.parts);
  }

  /** The parser accepts exactly the reports put together from good parts, and reads what they say. */
  lemma AcceptedExactly(lines: seq<string>, inventory: Inventory)
    ensures ParseLines(lines) == Ok(inventory) <==>
      exists x :: GoodReport(x) && lines == ReportLines(x) && inventory == InventoryOf(x)
  {
    hide GoodReport, ReportLines, InventoryOf, ParseLines;
    if ParseLines(lines) == Ok(inventory) {
      var x := ReportFound(lines);
    }
    if x :| GoodReport(x) && lines == ReportLines(x) && inventory == InventoryOf(x) {
      ReportReads(x);
    }
  }
}
