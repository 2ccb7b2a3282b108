/** Windows PE files as they are written, and what the check makes of them. */
module PeLayout {
  import opened Arith
  import opened Wrappers
  import opened Bytes
  import opened BinaryTarget
  import opened BinaryLayout

  /** One section header; the bits for code and for executable are told apart from the others. */
  datatype PeSectionHeader = PeSectionHeader(
    name: seq<Byte>, virtualSize: U32, address: U32, rawSize: U32, rawOffset: U32, middle: seq<Byte>,
    low: nat, code: bool, between: nat, executable: bool, high: nat)

  ghost predicate GoodSection(s: PeSectionHeader) {
    |s.name| == 8 && |s.middle| == 12 && s.low < 0x20 && s.between < 0x80_0000 && s.high < 4
  }

  function Characteristics(s: PeSectionHeader): nat {
    s.low + (if s.code then 0x20 else 0) + 0x40 * s.between + (if s.executable then 0x2000_0000 else 0)
    + 0x4000_0000 * s.high
  }

  function SectionItems(s: PeSectionHeader): seq<Item> {
    [Raw(s.name), Num(s.virtualSize, 4), Num(s.address, 4), Num(s.rawSize, 4), Num(s.rawOffset, 4), Raw(s.middle),
     Num(Characteristics(s), 4)]
  }

  function SectionRows(ss: seq<PeSectionHeader>): seq<seq<Byte>> {
    seq(|ss|, i requires 0 <= i < |ss| => Layout(SectionItems(ss[i])))
  }

  /** An x86-64 executable: the DOS stub, the headers, and the section table. */
  datatype PeFile = PeFile(
    dos: seq<Byte>, stub: seq<Byte>, stamps: seq<Byte>, relocated: bool, otherFlags: nat, versions: seq<Byte>,
    entry: U32, optional: seq<Byte>, sections: seq<PeSectionHeader>)

  ghost predicate GoodPe(x: PeFile) {
    && |x.dos| == 58 && 64 + |x.stub| <= 1024 * 1024 && |x.stamps| == 12 && x.otherFlags < 0x4000
    && |x.versions| == 14 && 92 <= |x.optional| < 0x1_0000 - 20
    && 0 < |x.sections| < 0x1_0000 && forall i :: 0 <= i < |x.sections| ==> GoodSection(x.sections[i])
  }

  function PeItems(x: PeFile): seq<Item> {
    [Raw([0x4D, 0x5A]), Raw(x.dos), Num(64 + |x.stub|, 4), Raw(x.stub),
     Raw([0x50, 0x45, 0, 0, 0x64, 0x86]), Num(|x.sections|, 2), Raw(x.stamps), Num(20 + |x.optional|, 2),
     Num((if x.relocated then 1 else 0) + 2 + 4 * x.otherFlags, 2),
     Num(0x020B, 2), Raw(x.versions), Num(x.entry, 4), Raw(x.optional)]
  }

  function PeImage(x: PeFile, tail: seq<Byte>): seq<Byte> {
    Layout(PeItems(x)) + Table(SectionRows(x.sections)) + tail
  }

  lemma SectionStarts(s: PeSectionHeader)
    requires GoodSection(s)
    ensures var items := SectionItems(s);
      && Start(items, 2) == 12 && Start(items, 3) == 16 && Start(items, 4) == 20 && Start(items, 6) == 36
      && |Layout(items)| == 40
  {
    var items := SectionItems(s);
    assert Start(items, 1) == 8 && Start(items, 2) == 12 && Start(items, 3) == 16 && Start(items, 4) == 20;
    assert Start(items, 5) == 24 && Start(items, 6) == 36 && Start(items, 7) == 40;
    StartIsLength(items, 7);
    assert items[..7] == items;
  }

  lemma SectionBits(s: PeSectionHeader)
    requires GoodSection(s)
    ensures Characteristics(s) < 0x1_0000_0000
    ensures HasBit(Characteristics(s), 0x20) <==> s.code
    ensures HasBit(Characteristics(s), 0x2000_0000) <==> s.executable
  {
    hide HasBit;
    BitMeaning(s.low, s.code, 0x20, s.between + (if s.executable then 0x80_0000 else 0) + 0x100_0000 * s.high);
    BitMeaning(
      s.low + (if s.code then 0x20 else 0) + 0x40 * s.between, s.executable, 0x2000_0000, s.high);
  }

  /** The fields of a section header where the check looks for them. */
  lemma SectionFields(image: seq<Byte>, at: nat, s: PeSectionHeader)
    requires GoodSection(s) && Stands(image, at, Layout(SectionItems(s)))
    ensures at + 40 <= |image|
    ensures Field(image, at + 12, 4) == s.address && Field(image, at + 16, 4) == s.rawSize
    ensures Field(image, at + 20, 4) == s.rawOffset && Field(image, at + 36, 4) == Characteristics(s)
  {
    PowersOf256();
    SectionStarts(s);
    SectionBits(s);
    var items := SectionItems(s);
    hide Field, HasBit, Start, Layout, Characteristics;
    NumAt(image, at, items, 2, at + 12, s.address, 4);
    NumAt(image, at, items, 3, at + 16, s.rawSize, 4);
    NumAt(image, at, items, 4, at + 20, s.rawOffset, 4);
    NumAt(image, at, items, 6, at + 36, Characteristics(s), 4);
    assert at + 40 <= |image|;
  }

  lemma SectionRowsSized(ss: seq<PeSectionHeader>)
    requires forall i :: 0 <= i < |ss| ==> GoodSection(ss[i])
    ensures AllSized(SectionRows(ss), 40)
  {
    forall i | 0 <= i < |ss|
      ensures |SectionRows(ss)[i]| == 40
    {
      SectionStarts(ss[i]);
    }
  }

  lemma PeStarts(x: PeFile)
    requires GoodPe(x)
    ensures var items, pe := PeItems(x), 64 + |x.stub|;
      && Start(items, 0) == 0 && Start(items, 2) == 60 && Start(items, 4) == pe && Start(items, 5) == pe + 6
      && Start(items, 7) == pe + 20 && Start(items, 8) == pe + 22 && Start(items, 9) == pe + 24
      && Start(items, 11) == pe + 40 && |Layout(items)| == pe + 44 + |x.optional|
  {
    var items, pe := PeItems(x), 64 + |x.stub|;
    assert Start(items, 1) == 2 && Start(items, 2) == 60 && Start(items, 3) == 64 && Start(items, 4) == pe;
    assert Start(items, 5) == pe + 6 && Start(items, 6) == pe + 8 && Start(items, 7) == pe + 20;
    assert Start(items, 8) == pe + 22 && Start(items, 9) == pe + 24 && Start(items, 10) == pe + 26;
    assert Start(items, 11) == pe + 40 && Start(items, 12) == pe + 44 && Start(items, 13) == pe + 44 + |x.optional|;
    StartIsLength(items, 13);
    assert items[..13] == items;
  }

  /** The fields of the headers where the check looks for them. */
  lemma PeHeaderFields(x: PeFile, image: seq<Byte>)
    requires GoodPe(x) && Stands(image, 0, Layout(PeItems(x)))
    ensures var pe := 64 + |x.stub|;
      && |image| >= pe + 44
      && image[..2] == MZ && Field(image, 60, 4) == pe && image[pe..pe + 6] == PE_AMD64
      && Field(image, pe + 6, 2) == |x.sections| && Field(image, pe + 20, 2) == 20 + |x.optional|
      && HasBit(Field(image, pe + 22, 2), 2) && Field(image, pe + 24, 2) == 0x020B && Field(image, pe + 40, 4) == x.entry
  {
    hide Field, HasBit, Start, Layout, Stands;
    PowersOf256();
    PeStarts(x);
    BitMeaning(if x.relocated then 1 else 0, true, 2, x.otherFlags);
    hide Pow256;
    var items, pe := PeItems(x), 64 + |x.stub|;
    RawAt(image, 0, items, 0, 0, MZ);
    NumAt(image, 0, items, 2, 60, pe, 4);
    RawAt(image, 0, items, 4, pe, PE_AMD64);
    NumAt(image, 0, items, 5, pe + 6, |x.sections|, 2);
    NumAt(image, 0, items, 7, pe + 20, 20 + |x.optional|, 2);
    NumAt(image, 0, items, 8, pe + 22, (if x.relocated then 1 else 0) + 2 + 4 * x.otherFlags, 2);
    NumAt(image, 0, items, 9, pe + 24, 0x020B, 2);
    NumAt(image, 0, items, 11, pe + 40, x.entry, 4);
  }

  lemma PeFields(x: PeFile, tail: seq<Byte>)
    requires GoodPe(x)
    ensures var image, pe := PeImage(x, tail), 64 + |x.stub|;
      && |image| == pe + 44 + |x.optional| + 40 * |x.sections| + |tail|
      && image[..2] == MZ && Field(image, 60, 4) == pe && image[pe..pe + 6] == PE_AMD64
      && Field(image, pe + 6, 2) == |x.sections| && Field(image, pe + 20, 2) == 20 + |x.optional|
      && HasBit(Field(image, pe + 22, 2), 2) && Field(image, pe + 24, 2) == 0x020B && Field(image, pe + 40, 4) == x.entry
  {
    PeStarts(x);
    SectionRowsSized(x.sections);
    TableLength(SectionRows(x.sections), 40);
    hide Field, HasBit, Start, Layout, Table, PeItems;
    FrontOfThree(Layout(PeItems(x)), Table(SectionRows(x.sections)), tail);
    PeHeaderFields(x, PeImage(x, tail));
  }

  lemma PeSectionFields(x: PeFile, tail: seq<Byte>, i: nat)
    requires GoodPe(x) && i < |x.sections|
    ensures var image, s, at := PeImage(x, tail), x.sections[i], 108 + |x.stub| + |x.optional| + 40 * i;
      && at + 40 <= |image|
      && Field(image, at + 12, 4) == s.address && Field(image, at + 16, 4) == s.rawSize
      && Field(image, at + 20, 4) == s.rawOffset && Field(image, at + 36, 4) == Characteristics(s)
  {
    hide Layout, SectionItems, PeItems, Table, Field, HasBit, Start, Stands, Characteristics, GoodPe;
    PeFields(x, tail);
    SectionStands(x, tail, i);
    SectionIsGood(x, i);
    SectionFields(PeImage(x, tail), 108 + |x.stub| + |x.optional| + 40 * i, x.sections[i]);
  }

  lemma SectionIsGood(x: PeFile, i: nat)
    requires GoodPe(x) && i < |x.sections|
    ensures GoodSection(x.sections[i])
  {
  }

  lemma SectionStands(x: PeFile, tail: seq<Byte>, i: nat)
    requires GoodPe(x) && i < |x.sections|
    ensures Stands(PeImage(x, tail), 108 + |x.stub| + |x.optional| + 40 * i, Layout(SectionItems(x.sections[i])))
  {
    hide Layout, SectionItems, PeItems, Table, Start, Stands;
    PeStarts(x);
    SectionRowsSized(x.sections);
    RowIn(Layout(PeItems(x)), SectionRows(x.sections), tail, 40, i);
  }

  ghost predicate SectionFits(s: PeSectionHeader, fileSize: nat) {
    s.rawSize > 0 ==> s.rawOffset + s.rawSize <= fileSize
  }

  /** The section holds executable code from the file at the address. */
  ghost predicate SectionRuns(s: PeSectionHeader, address: nat) {
    s.code && s.executable && s.address <= address < s.address + s.rawSize
  }

  /**
    A written PE file is accepted exactly when the data of every section lies inside the
    file and its entry point, which is not zero, falls in executable code.
   */
  lemma WrittenPe(x: PeFile, tail: seq<Byte>, fileSize: nat)
    requires GoodPe(x) && fileSize >= 108 + |x.stub| + |x.optional| + 40 * |x.sections|
    ensures PeAccepted(PeImage(x, tail), fileSize) <==>
      && x.entry != 0
      && (forall i :: 0 <= i < |x.sections| ==> SectionFits(x.sections[i], fileSize))
      && exists i :: 0 <= i < |x.sections| && SectionRuns(x.sections[i], x.entry)
  {
    hide Field, PeImage, HasPeOffset, PeHeaderFits, PeSection, PeSectionInFile, PeMaps, PeEntry, PeSectionCount, SectionFits,
      SectionRuns, GoodPe;
    var image := PeImage(x, tail);
    PeFits(x, tail, fileSize);
    forall i: nat | i < |x.sections|
      ensures PeSection(image, i) + 40 <= |image|
      ensures PeSectionInFile(image, fileSize, PeSection(image, i)) <==> SectionFits(x.sections[i], fileSize)
      ensures PeMaps(image, PeSection(image, i), x.entry) <==> SectionRuns(x.sections[i], x.entry)
    {
      SectionChecked(x, tail, fileSize, i);
    }
  }

  lemma PeFits(x: PeFile, tail: seq<Byte>, fileSize: nat)
    requires GoodPe(x) && fileSize >= 108 + |x.stub| + |x.optional| + 40 * |x.sections|
    ensures var image := PeImage(x, tail);
      && HasPeOffset(image) && PeHeaderFits(image, fileSize)
      && PeSectionCount(image) == |x.sections| && PeEntry(image) == x.entry
      && forall i: nat :: i <= |x.sections| ==> PeSection(image, i) == 108 + |x.stub| + |x.optional| + 40 * i
  {
    hide Field, HasBit, PeImage;
    PeFields(x, tail);
    assert PeOffset(PeImage(x, tail)) == 64 + |x.stub|;
  }

  lemma SectionChecked(x: PeFile, tail: seq<Byte>, fileSize: nat, i: nat)
    requires GoodPe(x) && i < |x.sections| && HasPeOffset(PeImage(x, tail))
    requires PeSection(PeImage(x, tail), i) == 108 + |x.stub| + |x.optional| + 40 * i
    ensures var image, at := PeImage(x, tail), PeSection(PeImage(x, tail), i);
      && at + 40 <= |image|
      && (PeSectionInFile(image, fileSize, at) <==> SectionFits(x.sections[i], fileSize))
      && (PeMaps(image, at, x.entry) <==> SectionRuns(x.sections[i], x.entry))
  {
    hide Field, HasBit, PeImage, PeSection, Characteristics;
    PeSectionFields(x, tail, i);
    SectionIsGood(x, i);
    SectionBits(x.sections[i]);
  }
}
