/**
  The structural check of a release binary against its target label: Windows PE, ELF
  and thin Mach-O, walked over the first bytes of the file.
 */
module BinaryTarget {
  import opened Arith
  import opened Wrappers
  import opened Bytes

  datatype BinaryError =
    | NotPe
    | InvalidPeOffset
    | InvalidPe
    | PeSectionOutOfBounds
    | PeEntryNotMapped
    | IncompleteElf
    | InvalidElf
    | ElfSegmentOutOfBounds
    | ElfEntryNotMapped
    | InvalidMachO
    | TruncatedCommand
    | InvalidCommand
    | TruncatedSegment
    | InvalidSegment
    | TruncatedEntryPoint
    | MalformedCommands
    | MachOEntryNotMapped

  /** The little-endian integer in `n` bytes at `at`; its precondition rules out a truncated slice. */
  function Field(image: seq<Byte>, at: nat, n: nat): nat
    requires at + n <= |image|
  {
    FromLittleEndian(image[at..at + n])
  }

  /** The bit worth `weight` is set. */
  predicate HasBit(n: nat, weight: nat)
    requires weight > 0
  {
    n / weight % 2 == 1
  }

  // ----- Windows PE

  const MZ: seq<Byte> := [0x4D, 0x5A]
  const PE_AMD64: seq<Byte> := [0x50, 0x45, 0, 0, 0x64, 0x86]

  predicate HasPeOffset(image: seq<Byte>) {
    |image| >= 64 && image[..2] == MZ && Field(image, 60, 4) <= 1024 * 1024 && Field(image, 60, 4) + 44 <= |image|
  }

  function PeOffset(image: seq<Byte>): (pe: nat)
    requires HasPeOffset(image)
    ensures pe + 44 <= |image|
  {
    Field(image, 60, 4)
  }

  function PeSectionCount(image: seq<Byte>): nat
    requires HasPeOffset(image)
  {
    Field(image, PeOffset(image) + 6, 2)
  }

  /** Where section header `i` starts. */
  function PeSection(image: seq<Byte>, i: nat): nat
    requires HasPeOffset(image)
  {
    PeOffset(image) + 24 + Field(image, PeOffset(image) + 20, 2) + i * 40
  }

  function PeEntry(image: seq<Byte>): nat
    requires HasPeOffset(image)
  {
    Field(image, PeOffset(image) + 40, 4)
  }

  predicate PeHeaderFits(image: seq<Byte>, fileSize: nat) {
    && HasPeOffset(image)
    && var pe := PeOffset(image);
      && image[pe..pe + 6] == PE_AMD64
      && PeSectionCount(image) > 0
      && Field(image, pe + 20, 2) >= 112
      && HasBit(Field(image, pe + 22, 2), 0x0002)
      && Field(image, pe + 24, 2) == 0x020B
      && PeSection(image, PeSectionCount(image)) <= |image|
      && PeSection(image, PeSectionCount(image)) <= fileSize
  }

  /** The raw data of the section with its header at `at` lies inside the file. */
  predicate PeSectionInFile(image: seq<Byte>, fileSize: nat, at: nat)
    requires at + 40 <= |image|
  {
    Field(image, at + 16, 4) > 0 ==> Field(image, at + 20, 4) + Field(image, at + 16, 4) <= fileSize
  }

  /** The section is executable code backed by the file, and maps the address `rva`. */
  predicate PeMaps(image: seq<Byte>, at: nat, rva: nat)
    requires at + 40 <= |image|
  {
    var start, rawSize, flags := Field(image, at + 12, 4), Field(image, at + 16, 4), Field(image, at + 36, 4);
    && HasBit(flags, 0x20000000) && HasBit(flags, 0x20)
    && rawSize > 0
    && start <= rva < start + rawSize
  }

  lemma PeSectionInHeader(image: seq<Byte>, fileSize: nat, i: nat)
    requires PeHeaderFits(image, fileSize) && i < PeSectionCount(image)
    ensures PeSection(image, i) + 40 <= |image|
  {
  }

  ghost predicate PeSectionsInFile(image: seq<Byte>, fileSize: nat, count: nat)
    requires PeHeaderFits(image, fileSize) && count <= PeSectionCount(image)
  {
    forall i: nat :: i < count ==>
      PeSection(image, i) + 40 <= |image| && PeSectionInFile(image, fileSize, PeSection(image, i))
  }

  ghost predicate PeMapped(image: seq<Byte>, fileSize: nat, count: nat)
    requires PeHeaderFits(image, fileSize) && count <= PeSectionCount(image)
  {
    exists i: nat ::
      i < count && PeSection(image, i) + 40 <= |image| && PeMaps(image, PeSection(image, i), PeEntry(image))
  }

  /** A header that fits, sections inside the file, and an entry point in executable code. */
  ghost predicate PeAccepted(image: seq<Byte>, fileSize: nat) {
    && PeHeaderFits(image, fileSize) && PeSectionsInFile(image, fileSize, PeSectionCount(image))
    && PeEntry(image) != 0 && PeMapped(image, fileSize, PeSectionCount(image))
  }

  method RequirePe(header: seq<Byte>, fileSize: nat) returns (r: Result<(), BinaryError>)
    ensures r == Err(NotPe) <==> |header| < 64 || header[..2] != MZ
    ensures r == Err(InvalidPeOffset) <==> |header| >= 64 && header[..2] == MZ && !HasPeOffset(header)
    ensures r == Err(InvalidPe) <==> HasPeOffset(header) && !PeHeaderFits(header, fileSize)
    ensures r == Err(PeSectionOutOfBounds) <==>
      PeHeaderFits(header, fileSize) && !PeSectionsInFile(header, fileSize, PeSectionCount(header))
    ensures r == Err(PeEntryNotMapped) <==>
      && PeHeaderFits(header, fileSize) && PeSectionsInFile(header, fileSize, PeSectionCount(header))
      && !(PeEntry(header) != 0 && PeMapped(header, fileSize, PeSectionCount(header)))
    ensures r.Ok? <==> PeAccepted(header, fileSize)
  {
    hide Field, FromLittleEndian, HasBit;
    if |header| < 64 || header[..2] != MZ {
      return Err(NotPe);
    }
    var peOffset := Field(header, 60, 4);
    if peOffset > 1024 * 1024 || peOffset + 44 > |header| {
      return Err(InvalidPeOffset);
    }
    var sectionCount := Field(header, peOffset + 6, 2);
    var optionalHeaderSize := Field(header, peOffset + 20, 2);
    var sectionTable := peOffset + 24 + optionalHeaderSize;
    var sectionTableEnd := sectionTable + sectionCount * 40;
    if header[peOffset..peOffset + 6] != PE_AMD64 || sectionCount == 0 || optionalHeaderSize < 112
       || !HasBit(Field(header, peOffset + 22, 2), 0x0002) || Field(header, peOffset + 24, 2) != 0x020B
       || sectionTableEnd > |header| || sectionTableEnd > fileSize
    {
      return Err(InvalidPe);
    }
    var entry := Field(header, peOffset + 24 + 16, 4);
    var entryIsExecutable := false;
    for index := 0 to sectionCount
      invariant PeSectionsInFile(header, fileSize, index)
      invariant entryIsExecutable <==> PeMapped(header, fileSize, index)
    {
      var at := sectionTable + index * 40;
      PeSectionInHeader(header, fileSize, index);
      assert at == PeSection(header, index);
      var virtualSize, start := Field(header, at + 8, 4), Field(header, at + 12, 4);
      var rawSize, rawOffset := Field(header, at + 16, 4), Field(header, at + 20, 4);
      var flags := Field(header, at + 36, 4);
      var mappedSize := Max(virtualSize, rawSize);
      if rawSize > 0 && rawOffset + rawSize > fileSize {
        return Err(PeSectionOutOfBounds);
      }
      if HasBit(flags, 0x20000000) && HasBit(flags, 0x20) && rawSize > 0
         && start <= entry && entry < start + Min(mappedSize, rawSize)
      {
        entryIsExecutable := true;
      }
    }
    if entry == 0 || !entryIsExecutable {
      return Err(PeEntryNotMapped);
    }
    r := Ok(());
  }

  // ----- ELF

  const ELF_MAGIC: seq<Byte> := [0x7F, 0x45, 0x4C, 0x46, 2, 1, 1]

  function ElfEntry(image: seq<Byte>): nat
    requires |image| >= 64
  {
    Field(image, 24, 8)
  }

  function ElfProgramCount(image: seq<Byte>): nat
    requires |image| >= 64
  {
    Field(image, 56, 2)
  }

  /** Where program header `i` starts. */
  function ElfProgram(image: seq<Byte>, i: nat): nat
    requires |image| >= 64
  {
    Field(image, 32, 8) + Field(image, 54, 2) * i
  }

  predicate ElfHeaderFits(image: seq<Byte>, fileSize: nat) {
    && |image| >= 64
    && image[..7] == ELF_MAGIC
    && (Field(image, 16, 2) == 2 || Field(image, 16, 2) == 3)
    && Field(image, 18, 2) == 0x3E && Field(image, 20, 4) == 1 && Field(image, 52, 2) == 64
    && Field(image, 32, 8) >= 64 && Field(image, 54, 2) >= 56
    && ElfProgramCount(image) > 0
    && ElfProgram(image, ElfProgramCount(image)) <= |image|
    && ElfProgram(image, ElfProgramCount(image)) <= fileSize
  }

  /** A load segment has no more bytes in the file than in memory, and they lie inside the file. */
  predicate ElfSegmentInFile(image: seq<Byte>, fileSize: nat, at: nat)
    requires at + 56 <= |image|
  {
    Field(image, at, 4) == 1 ==>
      && Field(image, at + 32, 8) <= Field(image, at + 40, 8)
      && Field(image, at + 8, 8) + Field(image, at + 32, 8) <= fileSize
  }

  /** An executable load segment whose bytes in the file map the address. */
  predicate ElfMaps(image: seq<Byte>, at: nat, address: nat)
    requires at + 56 <= |image|
  {
    var start := Field(image, at + 16, 8);
    && Field(image, at, 4) == 1 && HasBit(Field(image, at + 4, 4), 0x1)
    && start <= address < start + Field(image, at + 32, 8)
  }

  lemma ElfProgramInHeader(image: seq<Byte>, fileSize: nat, i: nat)
    requires ElfHeaderFits(image, fileSize) && i < ElfProgramCount(image)
    ensures ElfProgram(image, i) + 56 <= |image|
  {
    hide Field;
    var size, count := Field(image, 54, 2), ElfProgramCount(image);
    assert size * (i + 1) <= size * count;
  }

  ghost predicate ElfSegmentsInFile(image: seq<Byte>, fileSize: nat, count: nat)
    requires ElfHeaderFits(image, fileSize) && count <= ElfProgramCount(image)
  {
    forall i: nat :: i < count ==>
      ElfProgram(image, i) + 56 <= |image| && ElfSegmentInFile(image, fileSize, ElfProgram(image, i))
  }

  ghost predicate ElfMapped(image: seq<Byte>, fileSize: nat, count: nat)
    requires ElfHeaderFits(image, fileSize) && count <= ElfProgramCount(image)
  {
    exists i: nat ::
      i < count && ElfProgram(image, i) + 56 <= |image| && ElfMaps(image, ElfProgram(image, i), ElfEntry(image))
  }

  /** A header that fits, load segments inside the file, and an entry point in an executable one. */
  ghost predicate ElfAccepted(image: seq<Byte>, fileSize: nat) {
    && ElfHeaderFits(image, fileSize) && ElfSegmentsInFile(image, fileSize, ElfProgramCount(image))
    && ElfEntry(image) != 0 && ElfMapped(image, fileSize, ElfProgramCount(image))
  }

  method RequireElf(header: seq<Byte>, fileSize: nat) returns (r: Result<(), BinaryError>)
    ensures r == Err(IncompleteElf) <==> |header| < 64
    ensures r == Err(InvalidElf) <==> |header| >= 64 && !ElfHeaderFits(header, fileSize)
    ensures r == Err(ElfSegmentOutOfBounds) <==>
      ElfHeaderFits(header, fileSize) && !ElfSegmentsInFile(header, fileSize, ElfProgramCount(header))
    ensures r == Err(ElfEntryNotMapped) <==>
      && ElfHeaderFits(header, fileSize) && ElfSegmentsInFile(header, fileSize, ElfProgramCount(header))
      && !(ElfEntry(header) != 0 && ElfMapped(header, fileSize, ElfProgramCount(header)))
    ensures r.Ok? <==> ElfAccepted(header, fileSize)
  {
    hide Field, FromLittleEndian, HasBit;
    if |header| < 64 {
      return Err(IncompleteElf);
    }
    var programOffset, entrySize, programCount := Field(header, 32, 8), Field(header, 54, 2), Field(header, 56, 2);
    var tableEnd := programOffset + entrySize * programCount;
    if header[..7] != ELF_MAGIC || (Field(header, 16, 2) != 2 && Field(header, 16, 2) != 3)
       || Field(header, 18, 2) != 0x3E || Field(header, 20, 4) != 1 || Field(header, 52, 2) != 64
       || programOffset < 64 || entrySize < 56 || programCount == 0 || tableEnd > |header| || tableEnd > fileSize
    {
      return Err(InvalidElf);
    }
    var entry := Field(header, 24, 8);
    var entryIsExecutable := false;
    for index := 0 to programCount
      invariant ElfSegmentsInFile(header, fileSize, index)
      invariant entryIsExecutable <==> ElfMapped(header, fileSize, index)
    {
      var at := programOffset + index * entrySize;
      ElfProgramInHeader(header, fileSize, index);
      assert at == ElfProgram(header, index);
      var kind, flags, offset := Field(header, at, 4), Field(header, at + 4, 4), Field(header, at + 8, 8);
      var address := Field(header, at + 16, 8);
      var inFile, inMemory := Field(header, at + 32, 8), Field(header, at + 40, 8);
      if kind == 1 && (inFile > inMemory || offset + inFile > fileSize) {
        return Err(ElfSegmentOutOfBounds);
      }
      if kind == 1 && HasBit(flags, 0x1) && inFile > 0 && address <= entry && entry < address + inFile {
        entryIsExecutable := true;
      }
    }
    if entry == 0 || !entryIsExecutable {
      return Err(ElfEntryNotMapped);
    }
    r := Ok(());
  }

  // ----- Mach-O

  const MACHO_MAGIC: seq<Byte> := [0xCF, 0xFA, 0xED, 0xFE]
  const CPU_ARM64: nat := 0x0100000C
  const CPU_X86_64: nat := 0x01000007
  const SEGMENT: nat := 0x19
  const ENTRY_POINT: nat := 0x80000028

  function CommandCount(image: seq<Byte>): nat {
    if |image| >= 24 then Field(image, 16, 4) else 0
  }

  function CommandsEnd(image: seq<Byte>): nat {
    32 + if |image| >= 24 then Field(image, 20, 4) else 0
  }

  predicate MachOHeaderFits(image: seq<Byte>, fileSize: nat, cpu: nat) {
    && |image| >= 32 && image[..4] == MACHO_MAGIC
    && Field(image, 4, 4) == cpu && Field(image, 12, 4) == 2
    && CommandCount(image) > 0 && CommandsEnd(image) >= 32 + CommandCount(image) * 8
    && CommandsEnd(image) <= |image| && CommandsEnd(image) <= fileSize
  }

  function CommandSize(image: seq<Byte>, at: nat): nat
    requires at + 8 <= |image|
  {
    Field(image, at + 4, 4)
  }

  /** What is wrong with the command at `at`, in the order the script looks. */
  function CommandFault(image: seq<Byte>, fileSize: nat, end: nat, at: nat): Option<BinaryError>
    requires end <= |image|
  {
    if at + 8 > end then Some(TruncatedCommand)
    else
      var kind, size := Field(image, at, 4), CommandSize(image, at);
      if size < 8 || at + size > end then Some(InvalidCommand)
      else if kind == SEGMENT then
        if size < 72 then Some(TruncatedSegment)
        else if size < 72 + Field(image, at + 64, 4) * 80
                || Field(image, at + 40, 8) + Field(image, at + 48, 8) > fileSize
        then Some(InvalidSegment)
        else None
      else if kind == ENTRY_POINT && size < 24 then Some(TruncatedEntryPoint)
      else None
  }

  /** A well-formed command: it lies in the command area and has room for what its kind holds. */
  predicate GoodCommand(image: seq<Byte>, fileSize: nat, end: nat, at: nat)
    requires end <= |image|
  {
    CommandFault(image, fileSize, end, at).None?
  }

  /** A good segment command that maps file bytes as executable. */
  predicate IsExecutable(image: seq<Byte>, at: nat) {
    && at + 72 <= |image| && Field(image, at, 4) == SEGMENT
    && HasBit(Field(image, at + 60, 4), 0x4) && Field(image, at + 48, 8) > 0
  }

  predicate IsEntryPoint(image: seq<Byte>, at: nat) {
    at + 24 <= |image| && Field(image, at, 4) == ENTRY_POINT
  }

  /** The segments and the entry point seen so far. */
  datatype Seen = Seen(segments: seq<(nat, nat)>, entry: Option<nat>)

  function See(image: seq<Byte>, seen: Seen, at: nat): Seen {
    if IsExecutable(image, at) then
      var start := Field(image, at + 40, 8);
      seen.(segments := seen.segments + [(start, start + Field(image, at + 48, 8))])
    else if IsEntryPoint(image, at) then seen.(entry := Some(Field(image, at + 8, 8)))
    else seen
  }

  /** `left` commands from `at` on. */
  function Scan(image: seq<Byte>, fileSize: nat, end: nat, at: nat, left: nat, seen: Seen)
    : Result<(nat, Seen), BinaryError>
    requires end <= |image|
    decreases left
  {
    if left == 0 then Ok((at, seen))
    else match CommandFault(image, fileSize, end, at)
      case Some(error) => Err(error)
      case None =>
        Scan(image, fileSize, end, at + CommandSize(image, at), left - 1, See(image, seen, at))
  }

  predicate Inside(segments: seq<(nat, nat)>, x: nat) {
    exists i :: 0 <= i < |segments| && segments[i].0 <= x < segments[i].1
  }

  function MachOVerdict(image: seq<Byte>, fileSize: nat, cpu: nat): Result<(), BinaryError> {
    if !MachOHeaderFits(image, fileSize, cpu) then Err(InvalidMachO)
    else match Scan(image, fileSize, CommandsEnd(image), 32, CommandCount(image), Seen([], None))
      case Err(error) => Err(error)
      case Ok((at, seen)) =>
        if at != CommandsEnd(image) then Err(MalformedCommands)
        else if seen.entry.None? || !Inside(seen.segments, seen.entry.value) then Err(MachOEntryNotMapped)
        else Ok(())
  }

  method RequireMachO(header: seq<Byte>, fileSize: nat, cpu: nat) returns (r: Result<(), BinaryError>)
    ensures r == MachOVerdict(header, fileSize, cpu)
  {
    hide Field, FromLittleEndian, HasBit, Inside;
    var commandCount, commandBytes := 0, 0;
    if |header| >= 24 {
      commandCount, commandBytes := Field(header, 16, 4), Field(header, 20, 4);
    }
    var commandsEnd := 32 + commandBytes;
    if |header| < 32 || header[..4] != MACHO_MAGIC || Field(header, 4, 4) != cpu || Field(header, 12, 4) != 2
       || commandCount == 0 || commandBytes < commandCount * 8 || commandsEnd > |header| || commandsEnd > fileSize
    {
      return Err(InvalidMachO);
    }
    ghost var whole := Scan(header, fileSize, commandsEnd, 32, commandCount, Seen([], None));
    var commandOffset: nat := 32;
    var executableSegments: seq<(nat, nat)> := [];
    var entryFileOffset: Option<nat> := None;
    for index := 0 to commandCount
      invariant whole == Scan(header, fileSize, commandsEnd, commandOffset, commandCount - index,
                              Seen(executableSegments, entryFileOffset))
    {
      if commandOffset + 8 > commandsEnd {
        return Err(TruncatedCommand);
      }
      var command, size := Field(header, commandOffset, 4), Field(header, commandOffset + 4, 4);
      var next := commandOffset + size;
      if size < 8 || next > commandsEnd {
        return Err(InvalidCommand);
      }
      if command == SEGMENT {
        if size < 72 {
          return Err(TruncatedSegment);
        }
        var fileOffset, segmentSize := Field(header, commandOffset + 40, 8), Field(header, commandOffset + 48, 8);
        var protection, sections := Field(header, commandOffset + 60, 4), Field(header, commandOffset + 64, 4);
        if size < 72 + sections * 80 || fileOffset + segmentSize > fileSize {
          return Err(InvalidSegment);
        }
        if HasBit(protection, 0x4) && segmentSize > 0 {
          executableSegments := executableSegments + [(fileOffset, fileOffset + segmentSize)];
        }
      } else if command == ENTRY_POINT {
        if size < 24 {
          return Err(TruncatedEntryPoint);
        }
        entryFileOffset := Some(Field(header, commandOffset + 8, 8));
      }
      commandOffset := next;
    }
    if commandOffset != commandsEnd {
      return Err(MalformedCommands);
    }
    if entryFileOffset.None? || !Inside(executableSegments, entryFileOffset.value) {
      return Err(MachOEntryNotMapped);
    }
    r := Ok(());
  }

  // ----- what an accepted Mach-O looks like

  /** One command exactly between `at` and `next`, with room for what its kind holds. */
  ghost predicate CommandBetween(image: seq<Byte>, fileSize: nat, at: nat, next: nat) {
    && at + 8 <= next <= |image| && next == at + CommandSize(image, at)
    && (Field(image, at, 4) == SEGMENT ==>
          && at + 72 <= next && at + 72 + Field(image, at + 64, 4) * 80 <= next
          && Field(image, at + 40, 8) + Field(image, at + 48, 8) <= fileSize)
    && (Field(image, at, 4) == ENTRY_POINT ==> at + 24 <= next)
  }

  /** Commands lie end to end from `start` to `end`, cut at `cuts`. */
  ghost predicate Tiles(image: seq<Byte>, fileSize: nat, start: nat, end: nat, cuts: seq<nat>) {
    && |cuts| > 0 && cuts[0] == start && cuts[|cuts| - 1] == end
    && forall k :: 0 <= k < |cuts| - 1 ==> CommandBetween(image, fileSize, cuts[k], cuts[k + 1])
  }

  ghost predicate MachOMaps(image: seq<Byte>, at: nat, x: nat) {
    IsExecutable(image, at) && Field(image, at + 40, 8) <= x < Field(image, at + 40, 8) + Field(image, at + 48, 8)
  }

  /** Some command of the tiling maps the file offset `x` as executable. */
  ghost predicate Covered(image: seq<Byte>, cuts: seq<nat>, x: nat) {
    exists k :: 0 <= k < |cuts| - 1 && MachOMaps(image, cuts[k], x)
  }

  /** The offset the last entry-point command names. */
  ghost function LastEntry(image: seq<Byte>, cuts: seq<nat>): Option<nat> {
    if |cuts| < 2 then None
    else
      var later := LastEntry(image, cuts[1..]);
      if later.Some? || !IsEntryPoint(image, cuts[0]) then later else Some(Field(image, cuts[0] + 8, 8))
  }

  ghost predicate IsMachO(image: seq<Byte>, fileSize: nat, cpu: nat, cuts: seq<nat>) {
    && MachOHeaderFits(image, fileSize, cpu)
    && |cuts| == CommandCount(image) + 1
    && Tiles(image, fileSize, 32, CommandsEnd(image), cuts)
    && LastEntry(image, cuts).Some? && Covered(image, cuts, LastEntry(image, cuts).value)
  }

  lemma {:induction false} TilesGrow(image: seq<Byte>, fileSize: nat, start: nat, end: nat, cuts: seq<nat>)
    requires Tiles(image, fileSize, start, end, cuts)
    ensures start <= end && (|cuts| > 1 ==> start < cuts[1] <= end && Tiles(image, fileSize, cuts[1], end, cuts[1..]))
    decreases |cuts|
  {
    if |cuts| > 1 {
      assert CommandBetween(image, fileSize, cuts[0], cuts[1]);
      assert Tiles(image, fileSize, cuts[1], end, cuts[1..]) by {
        forall k | 0 <= k < |cuts[1..]| - 1
          ensures CommandBetween(image, fileSize, cuts[1..][k], cuts[1..][k + 1])
        {
          assert CommandBetween(image, fileSize, cuts[k + 1], cuts[k + 2]);
        }
      }
      TilesGrow(image, fileSize, cuts[1], end, cuts[1..]);
    }
  }

  /** Inside the command area, no fault and a command in its place are the same. */
  lemma FaultlessIsBetween(image: seq<Byte>, fileSize: nat, end: nat, at: nat, next: nat)
    requires end <= |image| && next <= end
    ensures CommandBetween(image, fileSize, at, next) <==>
      GoodCommand(image, fileSize, end, at) && next == at + CommandSize(image, at)
  {
    hide Field;
  }

  lemma GoodCommandEnds(image: seq<Byte>, fileSize: nat, end: nat, at: nat)
    requires end <= |image| && GoodCommand(image, fileSize, end, at)
    ensures at + 8 <= end && at + CommandSize(image, at) <= end
  {
    hide Field;
  }

  /** A scan without fault leaves the cuts it made. */
  lemma {:induction false} ScanCuts(image: seq<Byte>, fileSize: nat, end: nat, at: nat, left: nat, seen: Seen)
    returns (cuts: seq<nat>)
    requires end <= |image| && Scan(image, fileSize, end, at, left, seen).Ok?
    ensures |cuts| == left + 1
    ensures Tiles(image, fileSize, at, Scan(image, fileSize, end, at, left, seen).value.0, cuts)
    decreases left
  {
    hide CommandFault, CommandSize, See, CommandBetween;
    if left == 0 {
      cuts := [at];
    } else {
      assert GoodCommand(image, fileSize, end, at);
      GoodCommandEnds(image, fileSize, end, at);
      var next := at + CommandSize(image, at);
      FaultlessIsBetween(image, fileSize, end, at, next);
      var later := ScanCuts(image, fileSize, end, next, left - 1, See(image, seen, at));
      cuts := [at] + later;
    }
  }

  /** What a tiling adds to what was seen before. */
  ghost predicate Adds(image: seq<Byte>, cuts: seq<nat>, before: Seen, after: Seen) {
    && (forall x: nat :: Inside(after.segments, x) <==> Inside(before.segments, x) || Covered(image, cuts, x))
    && after.entry == if LastEntry(image, cuts).Some? then LastEntry(image, cuts) else before.entry
  }

  lemma InsideOneMore(segments: seq<(nat, nat)>, start: nat, end: nat, x: nat)
    ensures Inside(segments + [(start, end)], x) <==> Inside(segments, x) || start <= x < end
  {
    var more := segments + [(start, end)];
    if start <= x < end {
      assert more[|segments|].0 <= x < more[|segments|].1;
    }
    if Inside(segments, x) {
      var i :| 0 <= i < |segments| && segments[i].0 <= x < segments[i].1;
      assert more[i].0 <= x < more[i].1;
    }
  }

  lemma CoveredFirst(image: seq<Byte>, cuts: seq<nat>, x: nat)
    requires |cuts| > 1
    ensures Covered(image, cuts, x) <==> MachOMaps(image, cuts[0], x) || Covered(image, cuts[1..], x)
  {
    hide MachOMaps;
    if Covered(image, cuts, x) && !MachOMaps(image, cuts[0], x) {
      var k :| 0 <= k < |cuts| - 1 && MachOMaps(image, cuts[k], x);
      assert MachOMaps(image, cuts[1..][k - 1], x);
    }
    if Covered(image, cuts[1..], x) {
      var k :| 0 <= k < |cuts[1..]| - 1 && MachOMaps(image, cuts[1..][k], x);
      assert MachOMaps(image, cuts[k + 1], x);
    }
  }

  lemma SeeInside(image: seq<Byte>, seen: Seen, at: nat, x: nat)
    ensures Inside(See(image, seen, at).segments, x) <==> Inside(seen.segments, x) || MachOMaps(image, at, x)
  {
    hide Field, Inside, HasBit;
    if IsExecutable(image, at) {
      var start := Field(image, at + 40, 8);
      InsideOneMore(seen.segments, start, start + Field(image, at + 48, 8), x);
    }
  }

  lemma AddsFirst(image: seq<Byte>, cuts: seq<nat>, before: Seen, after: Seen)
    requires |cuts| > 1 && Adds(image, cuts[1..], See(image, before, cuts[0]), after)
    ensures Adds(image, cuts, before, after)
  {
    hide Field, Inside, HasBit, Covered, MachOMaps;
    forall x: nat
      ensures Inside(after.segments, x) <==> Inside(before.segments, x) || Covered(image, cuts, x)
    {
      CoveredFirst(image, cuts, x);
      SeeInside(image, before, cuts[0], x);
    }
    SeeEntry(image, before, cuts[0]);
  }

  lemma SeeEntry(image: seq<Byte>, seen: Seen, at: nat)
    ensures See(image, seen, at).entry ==
      if IsEntryPoint(image, at) then Some(Field(image, at + 8, 8)) else seen.entry
  {
    hide Field, HasBit;
  }

  /** Every tiling scans without fault to its end, and the scan sees exactly what it holds. */
  lemma {:induction false} TilesScan(
    image: seq<Byte>, fileSize: nat, end: nat, at: nat, left: nat, seen: Seen, cuts: seq<nat>
  )
    requires end <= |image| && |cuts| == left + 1 && Tiles(image, fileSize, at, end, cuts)
    ensures Scan(image, fileSize, end, at, left, seen).Ok?
    ensures var (stop, after) := Scan(image, fileSize, end, at, left, seen).value;
      stop == end && Adds(image, cuts, seen, after)
    decreases left
  {
    if left == 0 {
      hide Inside;
      assert cuts == [at];
    } else {
      hide CommandFault, CommandSize, See, CommandBetween, Adds, Tiles;
      TilesGrow(image, fileSize, at, end, cuts);
      FirstTile(image, fileSize, at, end, cuts);
      FaultlessIsBetween(image, fileSize, end, at, cuts[1]);
      TilesScan(image, fileSize, end, cuts[1], left - 1, See(image, seen, at), cuts[1..]);
      AddsFirst(image, cuts, seen, Scan(image, fileSize, end, at, left, seen).value.1);
    }
  }

  lemma FirstTile(image: seq<Byte>, fileSize: nat, start: nat, end: nat, cuts: seq<nat>)
    requires Tiles(image, fileSize, start, end, cuts) && |cuts| > 1
    ensures cuts[0] == start && CommandBetween(image, fileSize, cuts[0], cuts[1])
  {
  }

  /**
    Exactly the files are accepted whose declared number of commands lies end to end in the
    declared area, and whose last entry point falls in a segment mapped executable.
   */
  lemma MachOExactly(image: seq<Byte>, fileSize: nat, cpu: nat)
    ensures MachOVerdict(image, fileSize, cpu).Ok? <==> exists cuts :: IsMachO(image, fileSize, cpu, cuts)
  {
    hide Scan, Inside, Covered, LastEntry, Tiles, CommandCount, CommandsEnd;
    var end, count, start := CommandsEnd(image), CommandCount(image), Seen([], None);
    if MachOVerdict(image, fileSize, cpu).Ok? {
      var cuts := ScanCuts(image, fileSize, end, 32, count, start);
      TilesScan(image, fileSize, end, 32, count, start, cuts);
      NothingInside();
      assert IsMachO(image, fileSize, cpu, cuts);
    }
    if exists cuts :: IsMachO(image, fileSize, cpu, cuts) {
      var cuts :| IsMachO(image, fileSize, cpu, cuts);
      TilesScan(image, fileSize, end, 32, count, start, cuts);
    }
  }

  lemma NothingInside()
    ensures forall x: nat :: !Inside([], x)
  {
  }

  /** There is only one way to cut the command area. */
  lemma {:induction false} TilingIsUnique(
    image: seq<Byte>, fileSize: nat, start: nat, end: nat, a: seq<nat>, b: seq<nat>
  )
    requires Tiles(image, fileSize, start, end, a) && Tiles(image, fileSize, start, end, b)
    ensures a == b
    decreases |a|
  {
    hide Tiles, CommandBetween;
    TilesGrow(image, fileSize, start, end, a);
    TilesGrow(image, fileSize, start, end, b);
    TileEnds(image, fileSize, start, end, a);
    TileEnds(image, fileSize, start, end, b);
    if |a| > 1 && |b| > 1 {
      TilingIsUnique(image, fileSize, a[1], end, a[1..], b[1..]);
      assert a == [a[0]] + a[1..] && b == [b[0]] + b[1..];
    }
  }

  lemma TileEnds(image: seq<Byte>, fileSize: nat, start: nat, end: nat, cuts: seq<nat>)
    requires Tiles(image, fileSize, start, end, cuts)
    ensures |cuts| > 0 && cuts[0] == start && cuts[|cuts| - 1] == end
    ensures |cuts| > 1 ==> start + 8 <= |image| && cuts[1] == start + CommandSize(image, start)
  {
    if |cuts| > 1 {
      assert CommandBetween(image, fileSize, cuts[0], cuts[1]);
    }
  }

  // ----- the target label

  datatype Format = Pe | Elf | MachO(cpu: nat)

  /** The format a target label asks for; any label that is not listed is taken for an Intel Mac. */
  function FormatOf(target: string): Format {
    if target == "x86_64-pc-windows-msvc" then Pe
    else if target == "x86_64-unknown-linux-gnu" then Elf
    else if target == "aarch64-apple-darwin" then MachO(CPU_ARM64)
    else MachO(CPU_X86_64)
  }

  /** What acceptance as one format demands of the first bytes. */
  ghost predicate LooksLike(image: seq<Byte>, format: Format) {
    match format
    case Pe => |image| >= 2 && image[..2] == MZ
    case Elf => |image| >= 7 && image[..7] == ELF_MAGIC
    case MachO(cpu) => |image| >= 8 && image[..4] == MACHO_MAGIC && Field(image, 4, 4) == cpu
  }

  method RequireBinaryTargetBytes(header: seq<Byte>, fileSize: nat, target: string) returns (r: Result<(), BinaryError>)
    ensures FormatOf(target).Pe? ==> (r.Ok? <==> PeAccepted(header, fileSize))
    ensures FormatOf(target).Elf? ==> (r.Ok? <==> ElfAccepted(header, fileSize))
    ensures FormatOf(target).MachO? ==>
      (r.Ok? <==> exists cuts :: IsMachO(header, fileSize, FormatOf(target).cpu, cuts))
    ensures r.Ok? ==> LooksLike(header, FormatOf(target))
  {
    hide Field, IsMachO, PeSectionsInFile, PeMapped, ElfSegmentsInFile, ElfMapped;
    if target == "x86_64-pc-windows-msvc" {
      r := RequirePe(header, fileSize);
      return;
    }
    if target == "x86_64-unknown-linux-gnu" {
      r := RequireElf(header, fileSize);
      return;
    }
    var expectedCpu := if target == "aarch64-apple-darwin" then CPU_ARM64 else CPU_X86_64;
    r := RequireMachO(header, fileSize, expectedCpu);
    MachOExactly(header, fileSize, expectedCpu);
  }

  /** No image is accepted for labels of two formats, so a mislabelled binary is always refused. */
  lemma OneFormat(image: seq<Byte>, a: Format, b: Format)
    requires LooksLike(image, a) && LooksLike(image, b)
    ensures a == b
  {
    hide Field;
    if |image| >= 7 {
      assert image[0] == image[..2][0] == image[..7][0] == image[..4][0];
    }
  }
}
