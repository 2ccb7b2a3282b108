/** ELF files as they are written, and what the check makes of them. */
module ElfLayout {
  import opened Arith
  import opened Wrappers
  import opened Bytes
  import opened BinaryTarget
  import opened BinaryLayout

  /** One program header; the executable bit is told apart from the other flags. */
  datatype Program = Program(
    kind: nat, executable: bool, otherFlags: nat, offset: U64, address: U64, physical: U64, inFile: U64, inMemory: U64,
    align: U64)

  ghost predicate GoodProgram(p: Program) {
    p.kind < 0x1_0000_0000 && p.otherFlags < 0x8000_0000
  }

  function ProgramItems(p: Program): seq<Item> {
    [Num(p.kind, 4), Num((if p.executable then 1 else 0) + 2 * p.otherFlags, 4), Num(p.offset, 8), Num(p.address, 8),
     Num(p.physical, 8), Num(p.inFile, 8), Num(p.inMemory, 8), Num(p.align, 8)]
  }

  function ProgramRows(ps: seq<Program>): seq<seq<Byte>> {
    seq(|ps|, i requires 0 <= i < |ps| => Layout(ProgramItems(ps[i])))
  }

  /** An executable or shared object for x86-64; what the check does not look at is left open. */
  datatype ElfFile = ElfFile(
    shared: bool, padding: seq<Byte>, entry: U64, sections: U64, flags: nat, rest: seq<Byte>, programs: seq<Program>)

  ghost predicate GoodElf(x: ElfFile) {
    && |x.padding| == 9 && |x.rest| == 6 && x.flags < 0x1_0000_0000
    && 0 < |x.programs| < 0x1_0000 && forall i :: 0 <= i < |x.programs| ==> GoodProgram(x.programs[i])
  }

  function ElfItems(x: ElfFile): seq<Item> {
    [Raw([0x7F, 0x45, 0x4C, 0x46, 2, 1, 1]), Raw(x.padding), Num(if x.shared then 3 else 2, 2), Num(62, 2), Num(1, 4),
     Num(x.entry, 8), Num(64, 8), Num(x.sections, 8), Num(x.flags, 4), Num(64, 2), Num(56, 2), Num(|x.programs|, 2),
     Raw(x.rest)]
  }

  function ElfImage(x: ElfFile, tail: seq<Byte>): seq<Byte> {
    Layout(ElfItems(x)) + Table(ProgramRows(x.programs)) + tail
  }

  lemma ProgramStarts(p: Program)
    ensures var items := ProgramItems(p);
      && Start(items, 0) == 0 && Start(items, 1) == 4 && Start(items, 2) == 8 && Start(items, 3) == 16
      && Start(items, 5) == 32 && Start(items, 6) == 40 && |Layout(items)| == 56
  {
    var items := ProgramItems(p);
    assert Start(items, 1) == 4 && Start(items, 2) == 8 && Start(items, 3) == 16 && Start(items, 4) == 24;
    assert Start(items, 5) == 32 && Start(items, 6) == 40 && Start(items, 7) == 48 && Start(items, 8) == 56;
    StartIsLength(items, 8);
    assert items[..8] == items;
  }

  /** The fields of a program header where the check looks for them. */
  lemma ProgramFields(image: seq<Byte>, at: nat, p: Program)
    requires GoodProgram(p) && Stands(image, at, Layout(ProgramItems(p)))
    ensures at + 56 <= |image|
    ensures Field(image, at, 4) == p.kind && (HasBit(Field(image, at + 4, 4), 1) <==> p.executable)
    ensures Field(image, at + 8, 8) == p.offset && Field(image, at + 16, 8) == p.address
    ensures Field(image, at + 32, 8) == p.inFile && Field(image, at + 40, 8) == p.inMemory
  {
    PowersOf256();
    ProgramStarts(p);
    var items := ProgramItems(p);
    BitMeaning(0, p.executable, 1, p.otherFlags);
    hide Field, HasBit, Start, Layout;
    NumAt(image, at, items, 0, at, p.kind, 4);
    NumAt(image, at, items, 1, at + 4, (if p.executable then 1 else 0) + 2 * p.otherFlags, 4);
    NumAt(image, at, items, 2, at + 8, p.offset, 8);
    NumAt(image, at, items, 3, at + 16, p.address, 8);
    NumAt(image, at, items, 5, at + 32, p.inFile, 8);
    NumAt(image, at, items, 6, at + 40, p.inMemory, 8);
    assert at + 56 <= |image|;
  }

  lemma ProgramRowsSized(ps: seq<Program>)
    ensures AllSized(ProgramRows(ps), 56)
  {
    forall i | 0 <= i < |ps|
      ensures |ProgramRows(ps)[i]| == 56
    {
      ProgramStarts(ps[i]);
    }
  }

  lemma ElfStarts(x: ElfFile)
    requires GoodElf(x)
    ensures var items := ElfItems(x);
      && Start(items, 0) == 0 && Start(items, 2) == 16 && Start(items, 3) == 18 && Start(items, 4) == 20
      && Start(items, 5) == 24 && Start(items, 6) == 32 && Start(items, 9) == 52 && Start(items, 10) == 54
      && Start(items, 11) == 56 && |Layout(items)| == 64
  {
    var items := ElfItems(x);
    assert Start(items, 1) == 7 && Start(items, 2) == 16 && Start(items, 3) == 18 && Start(items, 4) == 20;
    assert Start(items, 5) == 24 && Start(items, 6) == 32 && Start(items, 7) == 40 && Start(items, 8) == 48;
    assert Start(items, 9) == 52 && Start(items, 10) == 54 && Start(items, 11) == 56 && Start(items, 12) == 58;
    assert Start(items, 13) == 64;
    StartIsLength(items, 13);
    assert items[..13] == items;
  }

  /** The fields of the header where the check looks for them. */
  lemma ElfHeaderFields(x: ElfFile, image: seq<Byte>)
    requires GoodElf(x) && Stands(image, 0, Layout(ElfItems(x)))
    ensures |image| >= 64 && image[..7] == ELF_MAGIC
    ensures Field(image, 16, 2) == (if x.shared then 3 else 2) && Field(image, 18, 2) == 0x3E && Field(image, 20, 4) == 1
    ensures Field(image, 24, 8) == x.entry && Field(image, 32, 8) == 64 && Field(image, 52, 2) == 64
    ensures Field(image, 54, 2) == 56 && Field(image, 56, 2) == |x.programs|
  {
    StandsInside(image, 0, Layout(ElfItems(x)));
    hide Field, Start, Layout, Stands;
    PowersOf256();
    ElfStarts(x);
    hide Pow256;
    var items := ElfItems(x);
    RawAt(image, 0, items, 0, 0, ELF_MAGIC);
    NumAt(image, 0, items, 2, 16, if x.shared then 3 else 2, 2);
    NumAt(image, 0, items, 3, 18, 0x3E, 2);
    NumAt(image, 0, items, 4, 20, 1, 4);
    NumAt(image, 0, items, 5, 24, x.entry, 8);
    NumAt(image, 0, items, 6, 32, 64, 8);
    NumAt(image, 0, items, 9, 52, 64, 2);
    NumAt(image, 0, items, 10, 54, 56, 2);
    NumAt(image, 0, items, 11, 56, |x.programs|, 2);
  }

  lemma ElfFields(x: ElfFile, tail: seq<Byte>)
    requires GoodElf(x)
    ensures var image := ElfImage(x, tail);
      && |image| == 64 + 56 * |x.programs| + |tail| && image[..7] == ELF_MAGIC
      && Field(image, 16, 2) == (if x.shared then 3 else 2) && Field(image, 18, 2) == 0x3E && Field(image, 20, 4) == 1
      && Field(image, 24, 8) == x.entry && Field(image, 32, 8) == 64 && Field(image, 52, 2) == 64
      && Field(image, 54, 2) == 56 && Field(image, 56, 2) == |x.programs|
  {
    ElfStarts(x);
    ProgramRowsSized(x.programs);
    TableLength(ProgramRows(x.programs), 56);
    hide Field, Start, Layout, Table, ElfItems;
    FrontOfThree(Layout(ElfItems(x)), Table(ProgramRows(x.programs)), tail);
    ElfHeaderFields(x, ElfImage(x, tail));
  }

  lemma ElfProgramFields(x: ElfFile, tail: seq<Byte>, i: nat)
    requires GoodElf(x) && i < |x.programs|
    ensures var image, p := ElfImage(x, tail), x.programs[i];
      && |image| >= 64 && ElfProgram(image, i) == 64 + 56 * i && 64 + 56 * i + 56 <= |image|
      && Field(image, 64 + 56 * i, 4) == p.kind && (HasBit(Field(image, 64 + 56 * i + 4, 4), 1) <==> p.executable)
      && Field(image, 64 + 56 * i + 8, 8) == p.offset && Field(image, 64 + 56 * i + 16, 8) == p.address
      && Field(image, 64 + 56 * i + 32, 8) == p.inFile && Field(image, 64 + 56 * i + 40, 8) == p.inMemory
  {
    hide Layout, ProgramItems, ElfItems, Table, Field, HasBit, Start, Stands, GoodElf;
    ElfFields(x, tail);
    ProgramStands(x, tail, i);
    ProgramIsGood(x, i);
    ProgramFields(ElfImage(x, tail), 64 + 56 * i, x.programs[i]);
  }

  lemma ProgramIsGood(x: ElfFile, i: nat)
    requires GoodElf(x) && i < |x.programs|
    ensures GoodProgram(x.programs[i])
  {
  }

  lemma ProgramStands(x: ElfFile, tail: seq<Byte>, i: nat)
    requires GoodElf(x) && i < |x.programs|
    ensures Stands(ElfImage(x, tail), 64 + 56 * i, Layout(ProgramItems(x.programs[i])))
  {
    hide Layout, ProgramItems, ElfItems, Table, Start, Stands;
    ElfStarts(x);
    ProgramRowsSized(x.programs);
    RowIn(Layout(ElfItems(x)), ProgramRows(x.programs), tail, 56, i);
  }

  /** The program's bytes lie inside the file, and are no more than its memory. */
  ghost predicate ProgramFits(p: Program, fileSize: nat) {
    p.kind == 1 ==> p.inFile <= p.inMemory && p.offset + p.inFile <= fileSize
  }

  /** The program loads executable bytes of the file at the address. */
  ghost predicate ProgramRuns(p: Program, address: nat) {
    p.kind == 1 && p.executable && p.address <= address < p.address + p.inFile
  }

  /**
    A written ELF file is accepted exactly when every load segment lies inside the file and
    its entry point, which is not zero, falls in one loaded executable.
   */
  lemma WrittenElf(x: ElfFile, tail: seq<Byte>, fileSize: nat)
    requires GoodElf(x) && fileSize >= 64 + 56 * |x.programs|
    ensures ElfAccepted(ElfImage(x, tail), fileSize) <==>
      && x.entry != 0
      && (forall i :: 0 <= i < |x.programs| ==> ProgramFits(x.programs[i], fileSize))
      && exists i :: 0 <= i < |x.programs| && ProgramRuns(x.programs[i], x.entry)
  {
    hide Field, HasBit, ElfImage, ElfHeaderFits, ElfProgram, ElfSegmentInFile, ElfMaps, ElfEntry, ElfProgramCount,
      ProgramFits, ProgramRuns, GoodElf;
    var image := ElfImage(x, tail);
    ElfFits(x, tail, fileSize);
    forall i: nat | i < |x.programs|
      ensures ElfProgram(image, i) + 56 <= |image|
      ensures ElfSegmentInFile(image, fileSize, ElfProgram(image, i)) <==> ProgramFits(x.programs[i], fileSize)
      ensures ElfMaps(image, ElfProgram(image, i), x.entry) <==> ProgramRuns(x.programs[i], x.entry)
    {
      ProgramChecked(x, tail, fileSize, i);
    }
  }

  lemma ElfFits(x: ElfFile, tail: seq<Byte>, fileSize: nat)
    requires GoodElf(x) && fileSize >= 64 + 56 * |x.programs|
    ensures var image := ElfImage(x, tail);
      && |image| >= 64 && ElfHeaderFits(image, fileSize)
      && ElfProgramCount(image) == |x.programs| && ElfEntry(image) == x.entry
  {
    hide Field, ElfImage;
    ElfFields(x, tail);
  }

  lemma ProgramChecked(x: ElfFile, tail: seq<Byte>, fileSize: nat, i: nat)
    requires GoodElf(x) && i < |x.programs| && |ElfImage(x, tail)| >= 64
    ensures var image, at := ElfImage(x, tail), ElfProgram(ElfImage(x, tail), i);
      && at + 56 <= |image|
      && (ElfSegmentInFile(image, fileSize, at) <==> ProgramFits(x.programs[i], fileSize))
      && (ElfMaps(image, at, x.entry) <==> ProgramRuns(x.programs[i], x.entry))
  {
    hide Field, HasBit, ElfImage, ElfProgram;
    ElfProgramFields(x, tail, i);
  }
}
