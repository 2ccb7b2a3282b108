/** Mach-O files as they are written, and what the check makes of them. */
module MachOLayout {
  import opened Arith
  import opened Wrappers
  import opened Bytes
  import opened BinaryTarget
  import opened BinaryLayout

  /** One load command; the executable bit of a segment's rights is told apart from the others. */
  datatype Command =
    | SegmentCommand(
        name: seq<Byte>, memory: seq<Byte>, offset: U64, size: U64, maximum: U32,
        low: nat, executable: bool, high: nat, sections: U32, flags: seq<Byte>, rest: seq<Byte>)
    | EntryCommand(offset: U64, rest: seq<Byte>)
    | OtherCommand(kind: U32, rest: seq<Byte>)

  ghost predicate WritableCommand(c: Command) {
    && |c.rest| < 0x1_0000_0000 - 72
    && match c
       case SegmentCommand(name, memory, _, _, _, low, _, high, _, flags, _) =>
         |name| == 16 && |memory| == 16 && low < 4 && high < 0x2000_0000 && |flags| == 4
       case EntryCommand(_, _) => true
       case OtherCommand(kind, _) => kind != SEGMENT && kind != ENTRY_POINT
  }

  function CommandLength(c: Command): nat {
    |c.rest| + match c
      case SegmentCommand(_, _, _, _, _, _, _, _, _, _, _) => 72
      case EntryCommand(_, _) => 16
      case OtherCommand(_, _) => 8
  }

  function CommandItems(c: Command): seq<Item> {
    match c
    case SegmentCommand(name, memory, offset, size, maximum, low, executable, high, sections, flags, rest) =>
      [Num(0x19, 4), Num(CommandLength(c), 4), Raw(name), Raw(memory), Num(offset, 8), Num(size, 8), Num(maximum, 4),
       Num(low + (if executable then 4 else 0) + 8 * high, 4), Num(sections, 4), Raw(flags), Raw(rest)]
    case EntryCommand(offset, rest) => [Num(0x8000_0028, 4), Num(CommandLength(c), 4), Num(offset, 8), Raw(rest)]
    case OtherCommand(kind, rest) => [Num(kind, 4), Num(CommandLength(c), 4), Raw(rest)]
  }

  function CommandRows(cs: seq<Command>): seq<seq<Byte>> {
    seq(|cs|, i requires 0 <= i < |cs| => Layout(CommandItems(cs[i])))
  }

  /** A thin 64-bit executable: the header and its load commands. */
  datatype MachOFile = MachOFile(cpu: U32, subtype: seq<Byte>, flags: seq<Byte>, commands: seq<Command>)

  ghost predicate GoodMachO(x: MachOFile) {
    && |x.subtype| == 4 && |x.flags| == 8 && 0 < |x.commands| < 0x1_0000_0000
    && |Table(CommandRows(x.commands))| < 0x1_0000_0000
    && forall i :: 0 <= i < |x.commands| ==> WritableCommand(x.commands[i])
  }

  function MachOItems(x: MachOFile): seq<Item> {
    [Raw([0xCF, 0xFA, 0xED, 0xFE]), Num(x.cpu, 4), Raw(x.subtype), Num(2, 4), Num(|x.commands|, 4),
     Num(|Table(CommandRows(x.commands))|, 4), Raw(x.flags)]
  }

  function MachOImage(x: MachOFile, tail: seq<Byte>): seq<Byte> {
    Layout(MachOItems(x)) + Table(CommandRows(x.commands)) + tail
  }

  lemma SegmentStarts(c: Command)
    requires WritableCommand(c) && c.SegmentCommand?
    ensures var items := CommandItems(c);
      && Start(items, 0) == 0 && Start(items, 1) == 4 && Start(items, 4) == 40 && Start(items, 5) == 48
      && Start(items, 7) == 60 && Start(items, 8) == 64 && |Layout(items)| == CommandLength(c)
  {
    hide Layout;
    var items := CommandItems(c);
    assert Start(items, 1) == 4 && Start(items, 2) == 8 && Start(items, 3) == 24 && Start(items, 4) == 40;
    assert Start(items, 5) == 48 && Start(items, 6) == 56 && Start(items, 7) == 60 && Start(items, 8) == 64;
    assert Start(items, 9) == 68 && Start(items, 10) == 72 && Start(items, 11) == CommandLength(c);
    StartIsLength(items, 11);
    assert items[..11] == items;
  }

  lemma OtherStarts(c: Command)
    requires WritableCommand(c) && !c.SegmentCommand?
    ensures var items := CommandItems(c);
      && Start(items, 0) == 0 && Start(items, 1) == 4 && Start(items, 2) == 8 && |Layout(items)| == CommandLength(c)
  {
    hide Layout;
    var items := CommandItems(c);
    assert Start(items, 1) == 4 && Start(items, 2) == 8;
    if c.EntryCommand? {
      assert Start(items, 3) == 16 && Start(items, 4) == CommandLength(c);
      StartIsLength(items, 4);
      assert items[..4] == items;
    } else {
      assert Start(items, 3) == CommandLength(c);
      StartIsLength(items, 3);
      assert items[..3] == items;
    }
  }

  lemma CommandSized(c: Command)
    requires WritableCommand(c)
    ensures |Layout(CommandItems(c))| == CommandLength(c) >= 8
  {
    hide Layout, CommandItems;
    if c.SegmentCommand? {
      SegmentStarts(c);
    } else {
      OtherStarts(c);
    }
  }

  lemma SegmentFields(image: seq<Byte>, at: nat, c: Command)
    requires WritableCommand(c) && c.SegmentCommand? && Stands(image, at, Layout(CommandItems(c)))
    ensures at + CommandLength(c) <= |image|
    ensures Field(image, at, 4) == SEGMENT && Field(image, at + 4, 4) == CommandLength(c)
    ensures Field(image, at + 40, 8) == c.offset && Field(image, at + 48, 8) == c.size
    ensures HasBit(Field(image, at + 60, 4), 4) <==> c.executable
    ensures Field(image, at + 64, 4) == c.sections
  {
    hide Field, HasBit, Start, Layout, Stands;
    PowersOf256();
    SegmentStarts(c);
    StandsInside(image, at, Layout(CommandItems(c)));
    BitMeaning(c.low, c.executable, 4, c.high);
    hide Pow256;
    var items := CommandItems(c);
    NumAt(image, at, items, 0, at, SEGMENT, 4);
    NumAt(image, at, items, 1, at + 4, CommandLength(c), 4);
    NumAt(image, at, items, 4, at + 40, c.offset, 8);
    NumAt(image, at, items, 5, at + 48, c.size, 8);
    NumAt(image, at, items, 7, at + 60, c.low + (if c.executable then 4 else 0) + 8 * c.high, 4);
    NumAt(image, at, items, 8, at + 64, c.sections, 4);
  }

  lemma OtherFields(image: seq<Byte>, at: nat, c: Command)
    requires WritableCommand(c) && !c.SegmentCommand? && Stands(image, at, Layout(CommandItems(c)))
    ensures at + CommandLength(c) <= |image|
    ensures Field(image, at, 4) == (if c.EntryCommand? then ENTRY_POINT else c.kind)
    ensures Field(image, at + 4, 4) == CommandLength(c)
    ensures c.EntryCommand? ==> Field(image, at + 8, 8) == c.offset
  {
    hide Field, HasBit, Start, Layout, Stands;
    PowersOf256();
    OtherStarts(c);
    StandsInside(image, at, Layout(CommandItems(c)));
    hide Pow256;
    var items := CommandItems(c);
    NumAt(image, at, items, 0, at, if c.EntryCommand? then ENTRY_POINT else c.kind, 4);
    NumAt(image, at, items, 1, at + 4, CommandLength(c), 4);
    if c.EntryCommand? {
      NumAt(image, at, items, 2, at + 8, c.offset, 8);
    }
  }

  /** The command has room for what its kind holds, and a segment lies inside the file. */
  ghost predicate CommandFits(c: Command, fileSize: nat) {
    match c
    case SegmentCommand(_, _, offset, size, _, _, _, _, sections, _, rest) =>
      sections * 80 <= |rest| && offset + size <= fileSize
    case EntryCommand(_, rest) => |rest| >= 8
    case OtherCommand(_, _) => true
  }

  /** The command maps the file offset as executable. */
  ghost predicate CommandRuns(c: Command, x: nat) {
    c.SegmentCommand? && c.executable && c.offset <= x < c.offset + c.size
  }

  /** What the check reads in a written command. */
  lemma CommandRead(image: seq<Byte>, fileSize: nat, at: nat, c: Command, x: nat)
    requires WritableCommand(c) && Stands(image, at, Layout(CommandItems(c)))
    ensures at + 8 <= at + CommandLength(c) <= |image| && CommandSize(image, at) == CommandLength(c)
    ensures CommandBetween(image, fileSize, at, at + CommandLength(c)) <==> CommandFits(c, fileSize)
    ensures CommandFits(c, fileSize) ==> (IsEntryPoint(image, at) <==> c.EntryCommand?)
    ensures c.EntryCommand? && CommandFits(c, fileSize) ==> Field(image, at + 8, 8) == c.offset
    ensures MachOMaps(image, at, x) <==> CommandRuns(c, x)
  {
    hide Field, HasBit, Layout, Stands, CommandItems;
    if c.SegmentCommand? {
      SegmentFields(image, at, c);
    } else {
      OtherFields(image, at, c);
    }
  }

  lemma MachOStarts(x: MachOFile)
    requires GoodMachO(x)
    ensures var items := MachOItems(x);
      && Start(items, 0) == 0 && Start(items, 1) == 4 && Start(items, 3) == 12 && Start(items, 4) == 16
      && Start(items, 5) == 20 && |Layout(items)| == 32
  {
    hide Layout, Table;
    var items := MachOItems(x);
    assert Start(items, 1) == 4 && Start(items, 2) == 8 && Start(items, 3) == 12 && Start(items, 4) == 16;
    assert Start(items, 5) == 20 && Start(items, 6) == 24 && Start(items, 7) == 32;
    StartIsLength(items, 7);
    assert items[..7] == items;
  }

  lemma MachOHeaderRead(x: MachOFile, tail: seq<Byte>)
    requires GoodMachO(x)
    ensures var image, total := MachOImage(x, tail), |Table(CommandRows(x.commands))|;
      && |image| >= 32 + total && image[..4] == MACHO_MAGIC
      && Field(image, 4, 4) == x.cpu && Field(image, 12, 4) == 2
      && Field(image, 16, 4) == |x.commands| && Field(image, 20, 4) == total
  {
    hide Field, Start, Layout, Stands, Table;
    PowersOf256();
    hide Pow256;
    MachOStarts(x);
    var image, items := MachOImage(x, tail), MachOItems(x);
    FrontOfThree(Layout(items), Table(CommandRows(x.commands)), tail);
    RawAt(image, 0, items, 0, 0, MACHO_MAGIC);
    NumAt(image, 0, items, 1, 4, x.cpu, 4);
    NumAt(image, 0, items, 3, 12, 2, 4);
    NumAt(image, 0, items, 4, 16, |x.commands|, 4);
    NumAt(image, 0, items, 5, 20, |Table(CommandRows(x.commands))|, 4);
  }

  /** Where command `k` begins; the last cut is where the commands end. */
  ghost function CutOf(x: MachOFile, k: nat): nat
    requires k <= |x.commands|
  {
    32 + Start(RowItems(CommandRows(x.commands)), k)
  }

  lemma CutsStep(x: MachOFile, k: nat)
    requires GoodMachO(x) && k < |x.commands|
    ensures CutOf(x, k + 1) == CutOf(x, k) + CommandLength(x.commands[k]) && CommandLength(x.commands[k]) >= 8
  {
    hide Layout, CommandItems;
    CommandSized(x.commands[k]);
  }

  lemma CutsEnd(x: MachOFile)
    ensures CutOf(x, 0) == 32 && CutOf(x, |x.commands|) == 32 + |Table(CommandRows(x.commands))|
  {
    var rows := CommandRows(x.commands);
    StartIsLength(RowItems(rows), |rows|);
    assert RowItems(rows)[..|rows|] == RowItems(rows);
  }

  lemma TableStands(x: MachOFile, tail: seq<Byte>)
    requires GoodMachO(x)
    ensures Stands(MachOImage(x, tail), 32, Table(CommandRows(x.commands)))
  {
    MachOStarts(x);
    var front, table := Layout(MachOItems(x)), Table(CommandRows(x.commands));
    hide Layout, Table;
    PartOfThree(front, table, tail, 0, |table|);
    assert table[0..|table|] == table;
  }

  lemma CommandStands(x: MachOFile, tail: seq<Byte>, k: nat)
    requires GoodMachO(x) && k < |x.commands|
    ensures Stands(MachOImage(x, tail), CutOf(x, k), Layout(CommandItems(x.commands[k])))
  {
    var items := RowItems(CommandRows(x.commands));
    assert items[k] == Raw(Layout(CommandItems(x.commands[k])));
    assert Table(CommandRows(x.commands)) == Layout(items) && CutOf(x, k) == 32 + Start(items, k);
    hide Layout, Stands, Start, MachOImage, CommandItems, RowItems, Table, CutOf, GoodMachO, CommandRows;
    TableStands(x, tail);
    ItemStands(MachOImage(x, tail), 32, items, k);
  }

  /** What the check reads in each command of a written file. */
  lemma CommandInFile(x: MachOFile, tail: seq<Byte>, fileSize: nat, k: nat, offset: nat)
    requires GoodMachO(x) && k < |x.commands|
    ensures var image, at, c := MachOImage(x, tail), CutOf(x, k), x.commands[k];
      && CutOf(x, k + 1) == at + CommandLength(c) && at + 8 <= CutOf(x, k + 1) <= |image|
      && CommandSize(image, at) == CommandLength(c)
      && (CommandBetween(image, fileSize, at, CutOf(x, k + 1)) <==> CommandFits(c, fileSize))
      && (CommandFits(c, fileSize) ==> (IsEntryPoint(image, at) <==> c.EntryCommand?))
      && (c.EntryCommand? && CommandFits(c, fileSize) ==> Field(image, at + 8, 8) == c.offset)
      && (MachOMaps(image, at, offset) <==> CommandRuns(c, offset))
  {
    hide Field, Layout, Stands, MachOImage, CommandItems, CommandBetween, CommandFits, IsEntryPoint, MachOMaps,
      CommandRuns, CutOf;
    CommandStands(x, tail, k);
    CutsStep(x, k);
    CommandRead(MachOImage(x, tail), fileSize, CutOf(x, k), x.commands[k], offset);
  }

  ghost function Cuts(x: MachOFile): seq<nat> {
    seq(|x.commands| + 1, k requires 0 <= k < |x.commands| + 1 => CutOf(x, k))
  }

  ghost predicate AllCommandsFit(x: MachOFile, fileSize: nat) {
    forall k :: 0 <= k < |x.commands| ==> CommandFits(x.commands[k], fileSize)
  }

  /** The offset the last entry-point command names. */
  ghost function EntryOf(cs: seq<Command>): Option<nat> {
    if |cs| == 0 then None
    else
      var m := |cs| - 1;
      if cs[m].EntryCommand? then Some(cs[m].offset) else EntryOf(cs[..m])
  }

  /** Any way to cut the commands of a written file is the way they were written. */
  lemma {:induction false} CutsForced(x: MachOFile, tail: seq<Byte>, fileSize: nat, cuts: seq<nat>, k: nat)
    requires GoodMachO(x) && |cuts| == |x.commands| + 1 && k <= |x.commands|
    requires Tiles(MachOImage(x, tail), fileSize, 32, CutOf(x, |x.commands|), cuts)
    ensures cuts[k] == CutOf(x, k)
  {
    hide MachOImage;
    if k == 0 {
      CutsEnd(x);
    } else {
      CutsForced(x, tail, fileSize, cuts, k - 1);
      CommandInFile(x, tail, fileSize, k - 1, 0);
      hide CommandSize, CutOf;
      assert CommandBetween(MachOImage(x, tail), fileSize, cuts[k - 1], cuts[k - 1 + 1]);
    }
  }

  lemma WrittenTiles(x: MachOFile, tail: seq<Byte>, fileSize: nat)
    requires GoodMachO(x) && AllCommandsFit(x, fileSize)
    ensures Tiles(MachOImage(x, tail), fileSize, 32, CutOf(x, |x.commands|), Cuts(x))
  {
    hide MachOImage, CommandBetween, CommandFits, CutOf, GoodMachO;
    CutsEnd(x);
    var cuts := Cuts(x);
    forall k | 0 <= k < |cuts| - 1
      ensures CommandBetween(MachOImage(x, tail), fileSize, cuts[k], cuts[k + 1])
    {
      CommandInFile(x, tail, fileSize, k, 0);
    }
  }

  /** The entry of the first `k` commands, as the cuts show it behind them. */
  lemma {:induction false} EntryBehind(x: MachOFile, tail: seq<Byte>, fileSize: nat, k: nat)
    requires GoodMachO(x) && AllCommandsFit(x, fileSize) && k <= |x.commands|
    ensures EntryOf(x.commands) ==
      if LastEntry(MachOImage(x, tail), Cuts(x)[k..]).Some? then LastEntry(MachOImage(x, tail), Cuts(x)[k..])
      else EntryOf(x.commands[..k])
    decreases |x.commands| - k
  {
    hide MachOImage, CommandFits, CutOf, GoodMachO, IsEntryPoint, Field;
    var image, n := MachOImage(x, tail), |x.commands|;
    if k == n {
      assert x.commands[..n] == x.commands;
    } else {
      EntryBehind(x, tail, fileSize, k + 1);
      CommandInFile(x, tail, fileSize, k, 0);
      assert Cuts(x)[k..][1..] == Cuts(x)[k + 1..];
      assert x.commands[..k + 1][..k] == x.commands[..k];
    }
  }

  lemma EntryFound(x: MachOFile, tail: seq<Byte>, fileSize: nat)
    requires GoodMachO(x) && AllCommandsFit(x, fileSize)
    ensures LastEntry(MachOImage(x, tail), Cuts(x)) == EntryOf(x.commands)
  {
    EntryBehind(x, tail, fileSize, 0);
    assert Cuts(x)[0..] == Cuts(x);
    assert EntryOf(x.commands[..0]) == None;
  }

  lemma CoverFound(x: MachOFile, tail: seq<Byte>, fileSize: nat, offset: nat)
    requires GoodMachO(x)
    ensures Covered(MachOImage(x, tail), Cuts(x), offset) <==>
      exists k :: 0 <= k < |x.commands| && CommandRuns(x.commands[k], offset)
  {
    hide MachOImage, CommandRuns, MachOMaps, CutOf, GoodMachO;
    var cuts := Cuts(x);
    forall k | 0 <= k < |x.commands|
      ensures MachOMaps(MachOImage(x, tail), cuts[k], offset) <==> CommandRuns(x.commands[k], offset)
    {
      CommandInFile(x, tail, fileSize, k, offset);
    }
  }

  lemma MachOHeaderOk(x: MachOFile, tail: seq<Byte>, fileSize: nat)
    requires GoodMachO(x) && fileSize >= 32 + |Table(CommandRows(x.commands))|
    ensures var image := MachOImage(x, tail);
      && MachOHeaderFits(image, fileSize, x.cpu)
      && CommandCount(image) == |x.commands| && CommandsEnd(image) == CutOf(x, |x.commands|)
  {
    hide Field, MachOImage, Table;
    MachOHeaderRead(x, tail);
    CutsEnd(x);
    CutsGrow(x, |x.commands|);
  }

  lemma {:induction false} CutsGrow(x: MachOFile, k: nat)
    requires GoodMachO(x) && k <= |x.commands|
    ensures CutOf(x, k) >= 32 + 8 * k
  {
    hide CutOf, WritableCommand, GoodMachO, CommandLength;
    if k > 0 {
      CutsGrow(x, k - 1);
      CutsStep(x, k - 1);
    } else {
      CutsEnd(x);
    }
  }

  /**
    A written Mach-O file is accepted exactly when every command has the room it needs,
    every segment lies inside the file, and the last entry point falls in an executable one.
   */
  lemma WrittenMachO(x: MachOFile, tail: seq<Byte>, fileSize: nat)
    requires GoodMachO(x) && fileSize >= 32 + |Table(CommandRows(x.commands))|
    ensures MachOVerdict(MachOImage(x, tail), fileSize, x.cpu).Ok? <==>
      && AllCommandsFit(x, fileSize) && EntryOf(x.commands).Some?
      && exists k :: 0 <= k < |x.commands| && CommandRuns(x.commands[k], EntryOf(x.commands).value)
  {
    hide MachOImage, MachOVerdict, MachOHeaderFits, CommandCount, CommandsEnd, Tiles, Covered, LastEntry, AllCommandsFit,
      CommandRuns, CutOf, GoodMachO, Table, Cuts;
    var image := MachOImage(x, tail);
    MachOExactly(image, fileSize, x.cpu);
    MachOHeaderOk(x, tail, fileSize);
    if cuts :| IsMachO(image, fileSize, x.cpu, cuts) {
      OnlyCuts(x, tail, fileSize, cuts);
    }
    if AllCommandsFit(x, fileSize) {
      WrittenTiles(x, tail, fileSize);
      EntryFound(x, tail, fileSize);
      CutsSize(x);
      if EntryOf(x.commands).Some? {
        CoverFound(x, tail, fileSize, EntryOf(x.commands).value);
      }
      assert IsMachO(image, fileSize, x.cpu, Cuts(x)) <==>
             LastEntry(image, Cuts(x)).Some? && Covered(image, Cuts(x), LastEntry(image, Cuts(x)).value);
    }
  }

  lemma CutsSize(x: MachOFile)
    ensures |Cuts(x)| == |x.commands| + 1
  {
  }

  lemma OnlyCuts(x: MachOFile, tail: seq<Byte>, fileSize: nat, cuts: seq<nat>)
    requires GoodMachO(x) && |cuts| == |x.commands| + 1
    requires Tiles(MachOImage(x, tail), fileSize, 32, CutOf(x, |x.commands|), cuts)
    ensures cuts == Cuts(x) && AllCommandsFit(x, fileSize)
  {
    hide MachOImage, CommandFits, CommandBetween, CutOf, GoodMachO;
    forall k | 0 <= k <= |x.commands|
      ensures cuts[k] == CutOf(x, k)
    {
      CutsForced(x, tail, fileSize, cuts, k);
    }
    forall k | 0 <= k < |x.commands|
      ensures CommandFits(x.commands[k], fileSize)
    {
      CommandInFile(x, tail, fileSize, k, 0);
      assert CommandBetween(MachOImage(x, tail), fileSize, cuts[k], cuts[k + 1]);
    }
  }
}
