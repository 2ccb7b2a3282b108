/**
  The third-party license inventory: a line grammar that is parsed with one cursor
  and compared by meaning, whatever the order of summary lines, sections or packages.
 */
module LicenseInventory {
  import opened Wrappers
  import opened Sorting
  import opened IndexLists

  // ----- strings as the script treats them

  /** The characters Python's `str.isspace` accepts. */
  predicate IsSpace(c: char) {
    var n := c as int;
    9 <= n <= 13 || 0x1C <= n <= 0x20 || n == 0x85 || n == 0xA0 || n == 0x1680 || 0x2000 <= n <= 0x200A
    || n == 0x2028 || n == 0x2029 || n == 0x202F || n == 0x205F || n == 0x3000
  }

  function StripStart(s: string): string {
    if |s| > 0 && IsSpace(s[0]) then StripStart(s[1..]) else s
  }

  function StripEnd(s: string): string {
    if |s| > 0 && IsSpace(s[|s| - 1]) then StripEnd(s[..|s| - 1]) else s
  }

  function Strip(s: string): string {
    StripEnd(StripStart(s))
  }

  function StripBreaksStart(s: string): string {
    if |s| > 0 && s[0] == '\n' then StripBreaksStart(s[1..]) else s
  }

  function StripBreaksEnd(s: string): string {
    if |s| > 0 && s[|s| - 1] == '\n' then StripBreaksEnd(s[..|s| - 1]) else s
  }

  function JoinLines(lines: seq<string>): string {
    if |lines| == 0 then ""
    else if |lines| == 1 then lines[0]
    else lines[0] + "\n" + JoinLines(lines[1..])
  }

  /** Python's `split("\n")`: one line more than there are breaks. */
  function SplitLines(text: string): (lines: seq<string>)
    ensures |lines| > 0
  {
    if |text| == 0 then [""]
    else
      var lines := SplitLines(text[1..]);
      if text[0] == '\n' then [""] + lines else [[text[0]] + lines[0]] + lines[1..]
  }

  /** "\r\n" and then "\r" become "\n". */
  function NormalizedNewlines(text: string): string
    decreases |text|
  {
    if |text| == 0 then ""
    else if text[0] == '\r' && |text| > 1 && text[1] == '\n' then "\n" + NormalizedNewlines(text[2..])
    else if text[0] == '\r' then "\n" + NormalizedNewlines(text[1..])
    else [text[0]] + NormalizedNewlines(text[1..])
  }

  // ----- the grammar

  datatype InventoryError =
    | MissingHeadings
    | HeadingOrder
    | InvalidSummaryLine
    | ExpectedHeading
    | MissingId
    | MissingName
    | EmptyName
    | UnexpectedContent
    | NoPackages
    | MissingFence
    | UnclosedFence
    | NoText
    | NoSummary
    | NoSections

  datatype LicenseSection = LicenseSection(id: string, name: string, packages: seq<string>, text: string)

  datatype Inventory = Inventory(summary: seq<string>, sections: seq<LicenseSection>)

  const SUMMARY_HEADING := "## License summary"
  const SECTIONS_HEADING := "## License texts and packages"

  function FirstIndex(lines: seq<string>, x: string): (i: Option<nat>)
    ensures i.Some? ==> i.value < |lines|
  {
    if |lines| == 0 then None
    else if lines[0] == x then Some(0)
    else match FirstIndex(lines[1..], x)
      case None => None
      case Some(k) => Some(k + 1)
  }

  function ParseSummary(lines: seq<string>): Result<seq<string>, InventoryError> {
    if |lines| == 0 then Ok([])
    else
      var stripped := Strip(lines[0]);
      if stripped == "" then ParseSummary(lines[1..])
      else if !("- " <= stripped) then Err(InvalidSummaryLine)
      else match ParseSummary(lines[1..])
        case Err(error) => Err(error)
        case Ok(more) => Ok([Strip(stripped[2..])] + more)
  }

  predicate IsPackageLine(line: string) {
    "  " <= line && Strip(line) != ""
  }

  /** The package lines at the front, and what follows them. */
  function PackageRun(rest: seq<string>): (r: (seq<string>, seq<string>))
    ensures |r.1| <= |rest|
  {
    if |rest| > 0 && IsPackageLine(rest[0]) then
      var (more, after) := PackageRun(rest[1..]);
      ([Strip(rest[0])] + more, after)
    else ([], rest)
  }

  function ReadPackages(rest: seq<string>): (r: Result<(seq<string>, seq<string>), InventoryError>)
    ensures r.Ok? ==> |r.value.1| <= |rest|
    decreases |rest|
  {
    if |rest| == 0 then Ok(([], rest))
    else if rest[0] == "used_by:" then
      var (packages, after) := PackageRun(rest[1..]);
      match ReadPackages(after)
      case Err(error) => Err(error)
      case Ok((more, end)) => Ok((packages + more, end))
    else if rest[0] == "text:" then Ok(([], rest[1..]))
    else if "### " <= rest[0] then Ok(([], rest))
    else if Strip(rest[0]) == "" then ReadPackages(rest[1..])
    else Err(UnexpectedContent)
  }

  /** The lines up to the closing fence, and what follows it. */
  function ReadBody(rest: seq<string>): (r: Option<(seq<string>, seq<string>)>)
    ensures r.Some? ==> |r.value.1| < |rest|
  {
    if |rest| == 0 then None
    else if rest[0] == ">>>" then Some(([], rest[1..]))
    else match ReadBody(rest[1..])
      case None => None
      case Some((body, after)) => Some(([rest[0]] + body, after))
  }

  /** One section from its heading on, its packages in file order. */
  function ParseSection(rest: seq<string>): (r: Result<(LicenseSection, seq<string>), InventoryError>)
    requires |rest| > 0
    ensures r.Ok? ==> |r.value.1| < |rest|
  {
    if !("### " <= rest[0]) then Err(ExpectedHeading)
    else
      var id := Strip(rest[0][4..]);
      if id == "" then Err(MissingId)
      else if |rest| < 2 || !("name: " <= rest[1]) then Err(MissingName)
      else
        var name := Strip(rest[1][6..]);
        if name == "" then Err(EmptyName)
        else match ReadPackages(rest[2..])
          case Err(error) => Err(error)
          case Ok((packages, after)) =>
            if |packages| == 0 then Err(NoPackages)
            else if |after| == 0 || after[0] != "<<<" then Err(MissingFence)
            else match ReadBody(after[1..])
              case None => Err(UnclosedFence)
              case Some((body, end)) =>
                var text := StripBreaksEnd(StripBreaksStart(JoinLines(body)));
                if text == "" then Err(NoText) else Ok((LicenseSection(id, name, packages, text), end))
  }

  function ParseSections(rest: seq<string>): Result<seq<LicenseSection>, InventoryError>
    decreases |rest|
  {
    if |rest| == 0 then Ok([])
    else if Strip(rest[0]) == "" then ParseSections(rest[1..])
    else match ParseSection(rest)
      case Err(error) => Err(error)
      case Ok((section, after)) =>
        match ParseSections(after)
        case Err(error) => Err(error)
        case Ok(more) => Ok([section] + more)
  }

  /** The whole inventory in file order. */
  function ParseLines(lines: seq<string>): Result<Inventory, InventoryError> {
    match (FirstIndex(lines, SUMMARY_HEADING), FirstIndex(lines, SECTIONS_HEADING))
    case (Some(summaryStart), Some(sectionsStart)) =>
      if sectionsStart <= summaryStart then Err(HeadingOrder)
      else
        (match ParseSummary(lines[summaryStart + 1..sectionsStart])
         case Err(error) => Err(error)
         case Ok(summary) =>
           match ParseSections(lines[sectionsStart + 1..])
           case Err(error) => Err(error)
           case Ok(sections) =>
             if |summary| == 0 then Err(NoSummary)
             else if |sections| == 0 then Err(NoSections)
             else Ok(Inventory(summary, sections)))
    case _ => Err(MissingHeadings)
  }

  // ----- the canonical form

  predicate SectionLeq(a: LicenseSection, b: LicenseSection) {
    if a.id != b.id then StringLeq(a.id, b.id)
    else if a.name != b.name then StringLeq(a.name, b.name)
    else if a.packages != b.packages then TupleLeq(a.packages, b.packages)
    else StringLeq(a.text, b.text)
  }

  function SortedPackages(s: LicenseSection): LicenseSection {
    s.(packages := Sort(s.packages, StringLeq))
  }

  function WithSortedPackages(sections: seq<LicenseSection>): seq<LicenseSection> {
    Mapped(sections, SortedPackages)
  }

  function Canonical(inventory: Inventory): Inventory {
    Inventory(Sort(inventory.summary, StringLeq), Sort(WithSortedPackages(inventory.sections), SectionLeq))
  }

  /** The inventory a text holds, everything in file order. */
  function ParseText(text: string): Result<Inventory, InventoryError> {
    ParseLines(SplitLines(NormalizedNewlines(text)))
  }

  function ParseInventory(text: string): Result<Inventory, InventoryError> {
    match ParseText(text)
    case Err(error) => Err(error)
    case Ok(inventory) => Ok(Canonical(inventory))
  }

  // ----- the parser as it runs

  method ParsePackageRunAt(lines: seq<string>, start: nat) returns (run: seq<string>, index: nat)
    requires start <= |lines|
    ensures start <= index <= |lines| && PackageRun(lines[start..]) == (run, lines[index..])
  {
    index, run := start, [];
    while index < |lines| && IsPackageLine(lines[index])
      invariant start <= index <= |lines|
      invariant PackageRun(lines[start..]).0 == run + PackageRun(lines[index..]).0
      invariant PackageRun(lines[start..]).1 == PackageRun(lines[index..]).1
    {
      assert lines[index..][1..] == lines[index + 1..];
      run := run + [Strip(lines[index])];
      index := index + 1;
    }
    assert run + [] == run;
  }

  lemma SplitLater(before: seq<string>, run: seq<string>, rest: seq<string>)
    ensures ReadPackages(rest).Ok? ==>
      before + (run + ReadPackages(rest).value.0) == before + run + ReadPackages(rest).value.0
  {
  }

  method ParsePackagesAt(lines: seq<string>, start: nat)
    returns (r: Result<seq<string>, InventoryError>, index: nat)
    requires start <= |lines|
    ensures index <= |lines|
    ensures match ReadPackages(lines[start..])
      case Ok((packages, after)) => r == Ok(packages) && lines[index..] == after
      case Err(error) => r == Err(error)
  {
    index := start;
    var packages: seq<string> := [];
    while index < |lines|
      invariant start <= index <= |lines|
      invariant match (ReadPackages(lines[start..]), ReadPackages(lines[index..]))
        case (Ok((all, end)), Ok((more, after))) => all == packages + more && end == after
        case (Err(error), Err(e)) => error == e
        case _ => false
    {
      var current := lines[index];
      ghost var rest := lines[index..];
      assert rest[1..] == lines[index + 1..];
      if current == "used_by:" {
        ghost var before := packages;
        var run;
        run, index := ParsePackageRunAt(lines, index + 1);
        packages := packages + run;
        SplitLater(before, run, lines[index..]);
        continue;
      }
      assert packages + [] == packages;
      if current == "text:" {
        index := index + 1;
        return Ok(packages), index;
      }
      if "### " <= current {
        return Ok(packages), index;
      }
      if Strip(current) == "" {
        index := index + 1;
        continue;
      }
      return Err(UnexpectedContent), index;
    }
    assert packages + [] == packages;
    r := Ok(packages);
  }

  method ParseBodyAt(lines: seq<string>, start: nat) returns (closed: bool, body: seq<string>, index: nat)
    requires start <= |lines|
    ensures closed == ReadBody(lines[start..]).Some?
    ensures closed ==> index <= |lines| && ReadBody(lines[start..]) == Some((body, lines[index..]))
  {
    index, body, closed := start, [], false;
    while index < |lines|
      invariant start <= index <= |lines|
      invariant match (ReadBody(lines[start..]), ReadBody(lines[index..]))
        case (Some((all, end)), Some((more, after))) => all == body + more && end == after
        case (None, None) => true
        case _ => false
    {
      assert lines[index..][1..] == lines[index + 1..];
      assert body + [] == body;
      if lines[index] == ">>>" {
        closed := true;
        index := index + 1;
        return;
      }
      body := body + [lines[index]];
      index := index + 1;
    }
  }

  method ParseSectionAt(lines: seq<string>, start: nat)
    returns (r: Result<LicenseSection, InventoryError>, index: nat)
    requires start < |lines|
    ensures r.Ok? ==> start < index <= |lines|
    ensures match ParseSection(lines[start..])
      case Ok((section, after)) => r == Ok(section) && index <= |lines| && lines[index..] == after
      case Err(error) => r == Err(error)
  {
    index := start;
    var line := lines[index];
    ghost var rest := lines[start..];
    if !("### " <= line) {
      return Err(ExpectedHeading), index;
    }
    var id := Strip(line[4..]);
    if id == "" {
      return Err(MissingId), index;
    }
    index := index + 1;
    if index >= |lines| || !("name: " <= lines[index]) {
      return Err(MissingName), index;
    }
    var name := Strip(lines[index][6..]);
    if name == "" {
      return Err(EmptyName), index;
    }
    index := index + 1;
    assert rest[2..] == lines[index..];
    var packages;
    packages, index := ParsePackagesAt(lines, index);
    if packages.Err? {
      return Err(packages.error), index;
    }
    if |packages.value| == 0 {
      return Err(NoPackages), index;
    }
    if index >= |lines| || lines[index] != "<<<" {
      return Err(MissingFence), index;
    }
    assert lines[index..][1..] == lines[index + 1..];
    index := index + 1;
    var closed, body;
    closed, body, index := ParseBodyAt(lines, index);
    if !closed {
      return Err(UnclosedFence), index;
    }
    var text := StripBreaksEnd(StripBreaksStart(JoinLines(body)));
    if text == "" {
      return Err(NoText), index;
    }
    r := Ok(LicenseSection(id, name, packages.value, text));
  }

  /** What is parsed so far and what is left decide the sections of the whole. */
  ghost predicate SectionsSoFar(lines: seq<string>, start: nat, index: nat, sections: seq<LicenseSection>)
    requires start <= |lines| && index <= |lines|
  {
    match (ParseSections(lines[start..]), ParseSections(lines[index..]))
    case (Ok(all), Ok(more)) => all == sections + more
    case (Err(error), Err(e)) => error == e
    case _ => false
  }

  lemma FirstSection(lines: seq<string>, start: nat)
    requires start <= |lines|
    ensures SectionsSoFar(lines, start, start, [])
  {
    hide ParseSections;
    assert ParseSections(lines[start..]).Ok? ==>
      [] + ParseSections(lines[start..]).value == ParseSections(lines[start..]).value;
  }

  lemma LastSection(lines: seq<string>, start: nat, sections: seq<LicenseSection>)
    requires start <= |lines| && SectionsSoFar(lines, start, |lines|, sections)
    ensures ParseSections(lines[start..]) == Ok(sections)
  {
    assert sections + [] == sections;
  }

  lemma BlankBetween(lines: seq<string>, start: nat, index: nat, sections: seq<LicenseSection>)
    requires start <= |lines| && index < |lines| && SectionsSoFar(lines, start, index, sections)
    requires Strip(lines[index]) == ""
    ensures SectionsSoFar(lines, start, index + 1, sections)
  {
    hide ParseSection, Strip;
    assert lines[index..][1..] == lines[index + 1..];
  }

  lemma NextSection(lines: seq<string>, start: nat, index: nat, sections: seq<LicenseSection>, next: nat)
    requires start <= |lines| && index < |lines| && SectionsSoFar(lines, start, index, sections)
    requires Strip(lines[index]) != ""
    ensures match ParseSection(lines[index..])
      case Err(error) => ParseSections(lines[start..]) == Err(error)
      case Ok((section, after)) =>
        next <= |lines| && lines[next..] == after ==> SectionsSoFar(lines, start, next, sections + [section])
  {
    hide ParseSection, Strip, ParseSections;
    UnfoldSections(lines[index..]);
    if ParseSection(lines[index..]).Ok? {
      var (section, after) := ParseSection(lines[index..]).value;
      if ParseSections(after).Ok? {
        assert sections + ([section] + ParseSections(after).value) == sections + [section] + ParseSections(after).value;
      }
    }
  }

  lemma UnfoldSections(rest: seq<string>)
    requires |rest| > 0 && Strip(rest[0]) != ""
    ensures ParseSections(rest) ==
      match ParseSection(rest)
      case Err(error) => Err(error)
      case Ok((section, after)) =>
        match ParseSections(after)
        case Err(error) => Err(error)
        case Ok(more) => Ok([section] + more)
  {
    hide ParseSection, Strip;
  }

  method ParseSectionsAt(lines: seq<string>, start: nat) returns (r: Result<seq<LicenseSection>, InventoryError>)
    requires start <= |lines|
    ensures r == ParseSections(lines[start..])
  {
    hide ParseSections, ParseSection, Strip, SectionsSoFar;
    var sections: seq<LicenseSection> := [];
    var index := start;
    FirstSection(lines, start);
    while index < |lines|
      invariant start <= index <= |lines|
      invariant SectionsSoFar(lines, start, index, sections)
    {
      if Strip(lines[index]) == "" {
        BlankBetween(lines, start, index, sections);
        index := index + 1;
        continue;
      }
      var section, next := ParseSectionAt(lines, index);
      NextSection(lines, start, index, sections, next);
      if section.Err? {
        return Err(section.error);
      }
      sections := sections + [section.value];
      index := next;
    }
    LastSection(lines, start, sections);
    r := Ok(sections);
  }

  method ParseSummaryLines(lines: seq<string>) returns (r: Result<seq<string>, InventoryError>)
    ensures r == ParseSummary(lines)
  {
    var summary: seq<string> := [];
    assert lines[0..] == lines;
    for i := 0 to |lines|
      invariant match (ParseSummary(lines), ParseSummary(lines[i..]))
        case (Ok(all), Ok(more)) => all == summary + more
        case (Err(error), Err(e)) => error == e
        case _ => false
    {
      assert lines[i..][1..] == lines[i + 1..];
      var stripped := Strip(lines[i]);
      if stripped == "" {
        continue;
      }
      if !("- " <= stripped) {
        return Err(InvalidSummaryLine);
      }
      summary := summary + [Strip(stripped[2..])];
    }
    assert summary + [] == summary;
    r := Ok(summary);
  }

  /** Parse the text of one inventory into its canonical form. */
  method Parse(text: string) returns (r: Result<Inventory, InventoryError>)
    ensures r == ParseInventory(text)
  {
    hide ParseSummary, ParseSections, FirstIndex, SplitLines, NormalizedNewlines, Canonical;
    var lines := SplitLines(NormalizedNewlines(text));
    var summaryStart, sectionsStart := FirstIndex(lines, SUMMARY_HEADING), FirstIndex(lines, SECTIONS_HEADING);
    if summaryStart.None? || sectionsStart.None? {
      return Err(MissingHeadings);
    }
    if sectionsStart.value <= summaryStart.value {
      return Err(HeadingOrder);
    }
    var summary := ParseSummaryLines(lines[summaryStart.value + 1..sectionsStart.value]);
    if summary.Err? {
      return Err(summary.error);
    }
    var sections := ParseSectionsAt(lines, sectionsStart.value + 1);
    if sections.Err? {
      return Err(sections.error);
    }
    if |summary.value| == 0 {
      return Err(NoSummary);
    }
    if |sections.value| == 0 {
      return Err(NoSections);
    }
    r := Ok(Canonical(Inventory(summary.value, sections.value)));
  }

  // ----- comparing two inventories

  datatype Problem =
    | SummaryDiffers
    | Missing(sections: set<LicenseSection>)
    | Unexpected(sections: set<LicenseSection>)
    | MultiplicityDiffers
    | Malformed(error: InventoryError)

  function Members<T>(xs: seq<T>): set<T> {
    set x | x in xs
  }

  function Problems(expected: Inventory, actual: Inventory): seq<Problem> {
    var missing := Members(expected.sections) - Members(actual.sections);
    var added := Members(actual.sections) - Members(expected.sections);
    (if expected.summary != actual.summary then [SummaryDiffers] else [])
    + Drift(expected.sections != actual.sections, missing, added)
  }

  function Drift(differ: bool, missing: set<LicenseSection>, added: set<LicenseSection>): seq<Problem> {
    if !differ then []
    else if missing == {} && added == {} then [MultiplicityDiffers]
    else (if missing != {} then [Missing(missing)] else []) + (if added != {} then [Unexpected(added)] else [])
  }

  lemma SectionOrder()
    ensures TotalOrder(SectionLeq)
  {
    StringOrder();
    TupleOrder();
    hide StringLeq, TupleLeq;
    forall a: LicenseSection, b: LicenseSection
      ensures SectionLeq(a, b) || SectionLeq(b, a)
      ensures SectionLeq(a, b) && SectionLeq(b, a) ==> a == b
    {
    }
    forall a: LicenseSection, b: LicenseSection, c: LicenseSection | SectionLeq(a, b) && SectionLeq(b, c)
      ensures SectionLeq(a, c)
    {
    }
  }

  /** What a section says: its fields, and its packages in no order. */
  datatype Meaning = Meaning(id: string, name: string, packages: multiset<string>, text: string)

  function MeaningOf(s: LicenseSection): Meaning {
    Meaning(s.id, s.name, multiset(s.packages), s.text)
  }

  function Meanings(sections: seq<LicenseSection>): seq<Meaning> {
    Mapped(sections, MeaningOf)
  }

  /** Sections compare equal exactly when they agree up to the order of their packages. */
  lemma SameSectionSorts(a: LicenseSection, b: LicenseSection)
    ensures SortedPackages(a) == SortedPackages(b) <==> MeaningOf(a) == MeaningOf(b)
  {
    StringOrder();
    SameSorted(a.packages, b.packages, StringLeq);
  }

  /** Sorting the packages inside sections tells lists of sections apart exactly as their meanings do. */
  lemma SameSectionsSort(a: seq<LicenseSection>, b: seq<LicenseSection>)
    ensures multiset(WithSortedPackages(a)) == multiset(WithSortedPackages(b)) <==>
      multiset(Meanings(a)) == multiset(Meanings(b))
  {
    forall x: LicenseSection, y: LicenseSection
      ensures SortedPackages(x) == SortedPackages(y) <==> MeaningOf(x) == MeaningOf(y)
    {
      SameSectionSorts(x, y);
    }
    hide SortedPackages, MeaningOf, Mapped;
    if multiset(Meanings(a)) == multiset(Meanings(b)) {
      MappedSame(a, b, MeaningOf, SortedPackages);
    }
    if multiset(WithSortedPackages(a)) == multiset(WithSortedPackages(b)) {
      MappedSame(a, b, SortedPackages, MeaningOf);
    }
  }

  /** The same summary lines, and sections that say the same, equally often. */
  ghost predicate SayTheSame(a: Inventory, b: Inventory) {
    multiset(a.summary) == multiset(b.summary) && multiset(Meanings(a.sections)) == multiset(Meanings(b.sections))
  }

  /** Comparing canonical forms finds no problem exactly when the inventories say the same. */
  lemma VerifiedExactly(committed: Inventory, generated: Inventory)
    ensures Problems(Canonical(committed), Canonical(generated)) == [] <==> SayTheSame(committed, generated)
  {
    StringOrder();
    SectionOrder();
    SameSorted(committed.summary, generated.summary, StringLeq);
    SameSorted(WithSortedPackages(committed.sections), WithSortedPackages(generated.sections), SectionLeq);
    SameSectionsSort(committed.sections, generated.sections);
    hide Sort, WithSortedPackages, Meanings;
    NoProblems(Canonical(committed), Canonical(generated));
  }

  /** There is no problem to report exactly when the canonical forms are equal. */
  lemma NoProblems(expected: Inventory, actual: Inventory)
    ensures Problems(expected, actual) == [] <==> expected == actual
  {
  }

  /** Some section of the list says this. */
  ghost predicate Says(sections: seq<LicenseSection>, meaning: Meaning) {
    exists s :: s in sections && MeaningOf(s) == meaning
  }

  /** The sections named in a problem say exactly what some section of `a` says and none of `b` does. */
  ghost predicate SaidByOneOnly(named: set<LicenseSection>, a: seq<LicenseSection>, b: seq<LicenseSection>) {
    && (forall s :: s in named ==> Says(a, MeaningOf(s)) && !Says(b, MeaningOf(s)))
    && forall s :: s in a && !Says(b, MeaningOf(s)) ==> exists n :: n in named && MeaningOf(n) == MeaningOf(s)
  }

  lemma CanonicalMembers(inventory: Inventory, s: LicenseSection)
    ensures s in Canonical(inventory).sections <==> exists t :: t in inventory.sections && SortedPackages(t) == s
  {
    var mapped := WithSortedPackages(inventory.sections);
    SortKeeps(mapped, SectionLeq);
    assert s in Canonical(inventory).sections <==> s in multiset(mapped);
    hide SortedPackages, Sort;
    if t :| t in inventory.sections && SortedPackages(t) == s {
      var i :| 0 <= i < |inventory.sections| && inventory.sections[i] == t;
      assert mapped[i] == s;
    }
  }

  lemma SortedSaysTheSame(s: LicenseSection)
    ensures MeaningOf(SortedPackages(s)) == MeaningOf(s)
  {
    SortKeeps(s.packages, StringLeq);
  }

  /** A section of the canonical form is one of the other inventory exactly when that says the same somewhere. */
  lemma CanonicalSays(a: Inventory, b: Inventory, s: LicenseSection)
    requires s in Canonical(a).sections
    ensures Says(a.sections, MeaningOf(s))
    ensures s in Canonical(b).sections <==> Says(b.sections, MeaningOf(s))
  {
    CanonicalMembers(a, s);
    CanonicalMembers(b, s);
    var t :| t in a.sections && SortedPackages(t) == s;
    SortedSaysTheSame(t);
    forall u | u in b.sections
      ensures SortedPackages(u) == s <==> MeaningOf(u) == MeaningOf(s)
    {
      SameSectionSorts(u, t);
    }
    hide SortedPackages, MeaningOf, Canonical;
  }

  /** The sections of one canonical form that the other lacks are those that only one inventory has. */
  lemma DifferenceSaid(a: Inventory, b: Inventory)
    ensures SaidByOneOnly(Members(Canonical(a).sections) - Members(Canonical(b).sections), a.sections, b.sections)
  {
    var named := Members(Canonical(a).sections) - Members(Canonical(b).sections);
    hide SortedPackages, MeaningOf, Canonical, Says;
    forall s | s in named
      ensures Says(a.sections, MeaningOf(s)) && !Says(b.sections, MeaningOf(s))
    {
      CanonicalSays(a, b, s);
    }
    forall s | s in a.sections && !Says(b.sections, MeaningOf(s))
      ensures SortedPackages(s) in named && MeaningOf(SortedPackages(s)) == MeaningOf(s)
    {
      CanonicalMembers(a, SortedPackages(s));
      SortedSaysTheSame(s);
      CanonicalSays(a, b, SortedPackages(s));
    }
  }

  /** Some section of `a` says what none of `b` does. */
  ghost predicate HasOwn(a: seq<LicenseSection>, b: seq<LicenseSection>) {
    exists s :: s in a && !Says(b, MeaningOf(s))
  }

  lemma NothingNamed(named: set<LicenseSection>, a: seq<LicenseSection>, b: seq<LicenseSection>)
    requires SaidByOneOnly(named, a, b)
    ensures named == {} <==> !HasOwn(a, b)
  {
    hide MeaningOf;
    if s :| s in named {
      var t :| t in a && MeaningOf(t) == MeaningOf(s);
      assert !Says(b, MeaningOf(t));
    }
  }

  /**
    What a reported drift means for the two inventories as written: which sections only the
    committed one has, which only the generated one has, and whether it is only how often
    they occur, or only the summary.
   */
  lemma ProblemsExplained(committed: Inventory, generated: Inventory)
    ensures var problems := Problems(Canonical(committed), Canonical(generated));
      var c, g := committed.sections, generated.sections;
      && (SummaryDiffers in problems <==> multiset(committed.summary) != multiset(generated.summary))
      && (forall named :: Missing(named) in problems ==> SaidByOneOnly(named, c, g))
      && (forall named :: Unexpected(named) in problems ==> SaidByOneOnly(named, g, c))
      && ((exists named :: Missing(named) in problems) <==> HasOwn(c, g))
      && ((exists named :: Unexpected(named) in problems) <==> HasOwn(g, c))
      && (MultiplicityDiffers in problems <==>
            multiset(Meanings(c)) != multiset(Meanings(g)) && !HasOwn(c, g) && !HasOwn(g, c))
  {
    var expected, actual := Canonical(committed), Canonical(generated);
    StringOrder();
    SectionOrder();
    SameSorted(committed.summary, generated.summary, StringLeq);
    SameSorted(WithSortedPackages(committed.sections), WithSortedPackages(generated.sections), SectionLeq);
    SameSectionsSort(committed.sections, generated.sections);
    assert expected.summary == actual.summary <==> multiset(committed.summary) == multiset(generated.summary);
    assert expected.sections == actual.sections <==>
           multiset(Meanings(committed.sections)) == multiset(Meanings(generated.sections));
    DifferenceSaid(committed, generated);
    DifferenceSaid(generated, committed);
    var missing := Members(expected.sections) - Members(actual.sections);
    var added := Members(actual.sections) - Members(expected.sections);
    NothingNamed(missing, committed.sections, generated.sections);
    NothingNamed(added, generated.sections, committed.sections);
    ReportedProblems(expected, actual);
    hide Canonical, Problems, Members, Meanings, HasOwn, SaidByOneOnly;
  }

  /** Which problems are reported for two canonical inventories. */
  lemma ReportedProblems(expected: Inventory, actual: Inventory)
    ensures var problems := Problems(expected, actual);
      var missing := Members(expected.sections) - Members(actual.sections);
      var added := Members(actual.sections) - Members(expected.sections);
      && (SummaryDiffers in problems <==> expected.summary != actual.summary)
      && (forall named :: Missing(named) in problems <==> named == missing != {})
      && (forall named :: Unexpected(named) in problems <==> named == added != {})
      && (MultiplicityDiffers in problems <==> expected.sections != actual.sections && missing == {} && added == {})
  {
    var missing := Members(expected.sections) - Members(actual.sections);
    var added := Members(actual.sections) - Members(expected.sections);
    var summary := if expected.summary != actual.summary then [SummaryDiffers] else [];
    var drift := Drift(expected.sections != actual.sections, missing, added);
    DriftMembers(expected.sections != actual.sections, missing, added);
    assert Problems(expected, actual) == summary + drift;
    hide Problems, Members, Drift;
    assert forall p :: p in summary + drift <==> p in summary || p in drift;
    if expected.sections == actual.sections {
      assert missing == {} && added == {};
    }
  }

  lemma DriftMembers(differ: bool, missing: set<LicenseSection>, added: set<LicenseSection>)
    ensures var drift := Drift(differ, missing, added);
      && SummaryDiffers !in drift
      && (forall named :: Missing(named) in drift <==> differ && named == missing != {})
      && (forall named :: Unexpected(named) in drift <==> differ && named == added != {})
      && (MultiplicityDiffers in drift <==> differ && missing == {} && added == {})
  {
  }

  /** Succeeds exactly when both texts parse and say the same, in any order of lines, sections and packages. */
  method VerifyInventories(committed: string, generated: string) returns (r: Result<(), seq<Problem>>)
    ensures r.Ok? <==>
      ParseText(committed).Ok? && ParseText(generated).Ok?
      && SayTheSame(ParseText(committed).value, ParseText(generated).value)
    ensures r.Err? && ParseText(committed).Ok? && ParseText(generated).Ok? ==>
      r.error == Problems(Canonical(ParseText(committed).value), Canonical(ParseText(generated).value))
  {
    hide ParseText, Canonical, Problems, SayTheSame;
    var expected := Parse(committed);
    if expected.Err? {
      return Err([Malformed(expected.error)]);
    }
    var actual := Parse(generated);
    if actual.Err? {
      return Err([Malformed(actual.error)]);
    }
    VerifiedExactly(ParseText(committed).value, ParseText(generated).value);
    var problems := Problems(expected.value, actual.value);
    r := if |problems| == 0 then Ok(()) else Err(problems);
  }

  /** `a` is `b` with its sections, and the packages inside them, in another order. */
  ghost predicate Reordering(a: seq<LicenseSection>, b: seq<LicenseSection>, at: seq<nat>) {
    && |at| == |a| == |b| && InRange(at, |b|) && multiset(at) == multiset(Positions(|b|))
    && forall i :: 0 <= i < |at| ==> MeaningOf(a[i]) == MeaningOf(b[at[i]])
  }

  /** Sections say the same, equally often, exactly when one list is a reordering of the other. */
  lemma ReorderedSections(a: seq<LicenseSection>, b: seq<LicenseSection>)
    ensures multiset(Meanings(a)) == multiset(Meanings(b)) <==> exists at :: Reordering(a, b, at)
  {
    hide MeaningOf;
    var ma, mb, all := Meanings(a), Meanings(b), Positions(|b|);
    PickedAll(mb);
    if multiset(ma) == multiset(mb) {
      var at := MatchUp(ma, mb, all);
      assert |at| == |multiset(at)| == |multiset(all)| == |b|;
      assert Reordering(a, b, at);
    }
    if exists at :: Reordering(a, b, at) {
      var at :| Reordering(a, b, at);
      assert ma == Picked(mb, at);
      PickedSame(mb, at, all);
    }
  }
}
