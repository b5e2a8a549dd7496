/** Mach-O images as the rebinding engine reads them: a load-command area that is walked with a
    byte cursor, and the symbol, string and indirect-symbol tables of the link-edit segment,
    looked up at the addresses the engine computes. */
module MachO {
  import opened CStrings
  import opened Wrappers

  const UINT_MAX: nat := 0xFFFF_FFFF
  /** Loop counters declared `uint` or `uint32_t`. */
  type uint32 = n: nat | n <= UINT_MAX

  const POINTER_SIZE: nat := 8
  const HEADER_SIZE: nat := 32
  const ADDRESS_SPACE: nat := 0x1_0000_0000_0000_0000

  const SECTION_TYPE: bv32 := 0x0000_00FF
  const S_NON_LAZY_SYMBOL_POINTERS: bv32 := 0x6
  const S_LAZY_SYMBOL_POINTERS: bv32 := 0x7

  const INDIRECT_SYMBOL_LOCAL: nat := 0x8000_0000
  const INDIRECT_SYMBOL_ABS: nat := 0x4000_0000
  const INDIRECT_SYMBOL_LOCAL_ABS: nat := 0xC000_0000

  /** Memory is a 64-bit address space of pointer-sized words. */
  const MEMORY_WORDS: nat := 0x2000_0000_0000_0000
  type Address = a: nat | a < MEMORY_WORDS
  type Pointer = nat

  datatype Section = Section(addr: nat, size: nat, flags: bv32, reserved1: nat)
  /** `nsects` is a 32-bit field. */
  type SectionTable = s: seq<Section> | |s| <= UINT_MAX

  datatype LoadCommand =
    | Segment(cmdsize: nat, segname: string, vmaddr: nat, fileoff: nat, sections: SectionTable)
    | Symtab(cmdsize: nat, symoff: nat, stroff: nat)
    | Dysymtab(cmdsize: nat, indirectsymoff: nat, nindirectsyms: nat)
    | OtherCommand(cmdsize: nat)

  /** `known` is whether dladdr recognises the header. The maps are what a read of memory finds:
      the load command at a byte address, and the tables that start at an address (a symbol
      table as its `n_strx` column). */
  datatype RawImage = Image(
    header: nat, slide: int, known: bool, ncmds: uint32,
    commandAt: map<nat, LoadCommand>,
    symtabAt: map<nat, seq<nat>>, strtabAt: map<nat, seq<Byte>>, indirectAt: map<nat, seq<nat>>)

  /* ----- the load-command cursor ----- */

  ghost predicate CommandsReadable(img: RawImage, n: nat)
    decreases n, 0
  {
    n == 0 || (CommandsReadable(img, n - 1) && Cursor(img, n - 1) in img.commandAt)
  }

  /** The cursor before step `n`: each step adds the size of the command it stands on. */
  ghost function Cursor(img: RawImage, n: nat): nat
    requires CommandsReadable(img, n)
    decreases n, 1
  {
    if n == 0 then img.header + HEADER_SIZE
    else Cursor(img, n - 1) + img.commandAt[Cursor(img, n - 1)].cmdsize
  }

  ghost predicate IsCommand(img: RawImage, i: nat)
  {
    i < img.ncmds && CommandsReadable(img, i + 1)
  }

  /** The command that the cursor meets in step `i`. */
  ghost function CommandAt(img: RawImage, i: nat): LoadCommand
    requires IsCommand(img, i)
  {
    img.commandAt[Cursor(img, i)]
  }

  /* ----- the three commands the first walk looks for ----- */

  datatype Kind = LinkEdit | SymbolTable | DynamicSymbolTable

  predicate Is(cmd: LoadCommand, kind: Kind)
  {
    match kind
    case LinkEdit => cmd.Segment? && cmd.segname == "__LINKEDIT"
    case SymbolTable => cmd.Symtab?
    case DynamicSymbolTable => cmd.Dysymtab?
  }

  /** What the first walk has found after `n` steps. */
  ghost function LastOf(img: RawImage, n: nat, kind: Kind): (last: Option<LoadCommand>)
    requires n <= img.ncmds && CommandsReadable(img, n)
    ensures last.Some? ==> Is(last.value, kind)
  {
    if n == 0 then None
    else if Is(CommandAt(img, n - 1), kind) then Some(CommandAt(img, n - 1))
    else LastOf(img, n - 1, kind)
  }

  /** An offset from the link-edit base, in `uintptr_t`. */
  function TableAddress(slide: int, linkedit: LoadCommand, offset: nat): nat
    requires linkedit.Segment?
  {
    (slide + linkedit.vmaddr - linkedit.fileoff + offset) % ADDRESS_SPACE
  }

  /** Where the three tables start in memory. */
  datatype Tables = Tables(symtab: nat, strtab: nat, indirect: nat)

  /** The tables of an image, or None where the engine gives up. */
  ghost function FindTables(img: RawImage): Option<Tables>
    requires CommandsReadable(img, img.ncmds)
  {
    match (LastOf(img, img.ncmds, LinkEdit), LastOf(img, img.ncmds, SymbolTable),
           LastOf(img, img.ncmds, DynamicSymbolTable))
    case (Some(l), Some(s), Some(d)) =>
      if img.known && d.nindirectsyms != 0 then
        Some(Tables(TableAddress(img.slide, l, s.symoff), TableAddress(img.slide, l, s.stroff),
                    TableAddress(img.slide, l, d.indirectsymoff)))
      else None
    case _ => None
  }

  /* ----- the slots of a section ----- */

  /** An indirect symbol pointer: where it is, and the name it can be rebound by (its symbol
      without the first character), if any. */
  datatype Slot = Slot(addr: Address, name: Option<seq<Byte>>)

  function NameAt(strtab: seq<Byte>, at: nat): Option<seq<Byte>>
    requires Terminated(strtab, at)
  {
    var symbol := CStringAt(strtab, at);
    if |symbol| > 1 then Some(symbol[1..]) else None
  }

  function SlotCount(sect: Section): nat
  {
    sect.size / POINTER_SIZE
  }

  /** `slide + section->addr` wraps around as `uintptr_t` does; so does stepping over slots. */
  function SlotAddress(slide: int, sect: Section, i: nat): Address
  {
    ((slide + sect.addr) % ADDRESS_SPACE / POINTER_SIZE + i) % MEMORY_WORDS
  }

  predicate IsSpecialIndex(index: nat)
  {
    index == INDIRECT_SYMBOL_ABS || index == INDIRECT_SYMBOL_LOCAL || index == INDIRECT_SYMBOL_LOCAL_ABS
  }

  /** What the engine reads to handle slot `i` is there to be read. */
  predicate SlotReadable(img: RawImage, t: Tables, sect: Section, i: nat)
  {
    && t.indirect in img.indirectAt
    && sect.reserved1 + i < |img.indirectAt[t.indirect]|
    && var index := img.indirectAt[t.indirect][sect.reserved1 + i];
       (IsSpecialIndex(index) ||
        (&& t.symtab in img.symtabAt && index < |img.symtabAt[t.symtab]|
         && t.strtab in img.strtabAt
         && Terminated(img.strtabAt[t.strtab], img.symtabAt[t.symtab][index])))
  }

  ghost predicate SectionReadable(img: RawImage, t: Tables, sect: Section)
  {
    SlotCount(sect) <= UINT_MAX && forall i :: 0 <= i < SlotCount(sect) ==> SlotReadable(img, t, sect, i)
  }

  function SlotAt(img: RawImage, t: Tables, sect: Section, i: nat): Slot
    requires SlotReadable(img, t, sect, i)
  {
    var index := img.indirectAt[t.indirect][sect.reserved1 + i];
    var name := if IsSpecialIndex(index) then None
                else NameAt(img.strtabAt[t.strtab], img.symtabAt[t.symtab][index]);
    Slot(SlotAddress(img.slide, sect, i), name)
  }

  /* ----- the sections the second walk visits ----- */

  predicate IsDataSegment(cmd: LoadCommand)
  {
    cmd.Segment? && (cmd.segname == "__DATA" || cmd.segname == "__DATA_CONST")
  }

  predicate IsPointerSection(sect: Section)
  {
    sect.flags & SECTION_TYPE == S_LAZY_SYMBOL_POINTERS || sect.flags & SECTION_TYPE == S_NON_LAZY_SYMBOL_POINTERS
  }

  function SectionCount(cmd: LoadCommand): nat
  {
    if IsDataSegment(cmd) then |cmd.sections| else 0
  }

  /** Section `j` of a data segment is one of lazy or non-lazy symbol pointers. */
  predicate Eligible(cmd: LoadCommand, j: nat)
  {
    j < SectionCount(cmd) && IsPointerSection(cmd.sections[j])
  }

  /** Everything the engine dereferences while it walks the image is readable. */
  ghost predicate Readable(img: RawImage)
  {
    && CommandsReadable(img, img.ncmds)
    && (FindTables(img).Some? ==>
          forall i: nat, j: nat :: IsCommand(img, i) && Eligible(CommandAt(img, i), j) ==>
            SectionReadable(img, FindTables(img).value, CommandAt(img, i).sections[j]))
  }

  type Image = img: RawImage | Readable(img)
    ghost witness Image(0, 0, false, 0, map[], map[], map[], map[])

  lemma AllCommands(img: RawImage, n: nat, i: nat)
    requires CommandsReadable(img, n) && i <= n
    ensures CommandsReadable(img, i)
  {
    if i < n {
      AllCommands(img, n - 1, i);
    }
  }

  /* ----- all slots of an image ----- */

  /** The `index`th section of the `command`th load command. */
  datatype SectionRef = SectionRef(command: nat, index: nat)

  ghost predicate EligibleRef(img: RawImage, r: SectionRef)
  {
    IsCommand(img, r.command) && Eligible(CommandAt(img, r.command), r.index)
  }

  ghost function RefSection(img: RawImage, r: SectionRef): Section
    requires EligibleRef(img, r)
  {
    CommandAt(img, r.command).sections[r.index]
  }

  ghost predicate AllEligible(img: RawImage, refs: seq<SectionRef>)
  {
    forall k :: 0 <= k < |refs| ==> EligibleRef(img, refs[k])
  }

  /** The eligible ones among the first `n` sections of command `i`. */
  ghost function RefsInCommand(img: RawImage, i: nat, n: nat): (refs: seq<SectionRef>)
    ensures AllEligible(img, refs)
  {
    if n == 0 then []
    else RefsInCommand(img, i, n - 1) +
         if EligibleRef(img, SectionRef(i, n - 1)) then [SectionRef(i, n - 1)] else []
  }

  /** The eligible sections of the first `n` commands, in the order of the walk. */
  ghost function Refs(img: RawImage, n: nat): (refs: seq<SectionRef>)
    requires n <= img.ncmds && CommandsReadable(img, n)
    ensures AllEligible(img, refs)
  {
    if n == 0 then []
    else Refs(img, n - 1) + RefsInCommand(img, n - 1, SectionCount(CommandAt(img, n - 1)))
  }

  /** The first `n` slots of a section. */
  ghost function SectionSlots(img: RawImage, t: Tables, sect: Section, n: nat): (slots: seq<Slot>)
    requires SectionReadable(img, t, sect) && n <= SlotCount(sect)
    ensures |slots| == n
  {
    if n == 0 then [] else SectionSlots(img, t, sect, n - 1) + [SlotAt(img, t, sect, n - 1)]
  }

  /** The slots of the sections `refs` points at. */
  ghost function SlotsOf(img: Image, t: Tables, refs: seq<SectionRef>): seq<Slot>
    requires FindTables(img) == Some(t) && AllEligible(img, refs)
  {
    if refs == [] then []
    else
      assert EligibleRef(img, refs[|refs| - 1]);
      var sect := RefSection(img, refs[|refs| - 1]);
      SlotsOf(img, t, refs[..|refs| - 1]) + SectionSlots(img, t, sect, SlotCount(sect))
  }

  /** All slots that the engine handles in an image, in order. */
  ghost function ImageSlots(img: Image): seq<Slot>
  {
    match FindTables(img)
    case None => []
    case Some(t) => SlotsOf(img, t, Refs(img, img.ncmds))
  }

  lemma {:induction false} SlotsOfConcat(img: Image, t: Tables, a: seq<SectionRef>, b: seq<SectionRef>)
    requires FindTables(img) == Some(t)
    requires AllEligible(img, a) && AllEligible(img, b)
    ensures SlotsOf(img, t, a + b) == SlotsOf(img, t, a) + SlotsOf(img, t, b)
  {
    if b == [] {
      assert a + b == a;
    } else {
      var n := |b| - 1;
      assert (a + b)[..|a + b| - 1] == a + b[..n];
      SlotsOfConcat(img, t, a, b[..n]);
    }
  }

  /* ----- what the walks see ----- */

  ghost function TotalSize(img: RawImage, n: nat): nat
    requires n <= img.ncmds && CommandsReadable(img, n)
  {
    if n == 0 then 0 else TotalSize(img, n - 1) + CommandAt(img, n - 1).cmdsize
  }

  /** In both walks, step i stands at the header's end plus the sizes of the first i commands. */
  lemma {:induction false} CursorIsPrefixSum(img: RawImage, n: nat)
    requires n <= img.ncmds && CommandsReadable(img, n)
    ensures Cursor(img, n) == img.header + HEADER_SIZE + TotalSize(img, n)
  {
    if n > 0 {
      CursorIsPrefixSum(img, n - 1);
    }
  }

  /** Every command lies inside the command area, whose length is the sum of all sizes. */
  lemma {:induction false} CursorStaysInside(img: RawImage, n: nat, i: nat)
    requires n <= img.ncmds && CommandsReadable(img, n) && i < n
    ensures IsCommand(img, i)
    ensures img.header + HEADER_SIZE <= Cursor(img, i)
    ensures Cursor(img, i) + CommandAt(img, i).cmdsize <= img.header + HEADER_SIZE + TotalSize(img, n)
  {
    if i < n - 1 {
      CursorStaysInside(img, n - 1, i);
    } else {
      CursorIsPrefixSum(img, i);
    }
  }

  /** None of the first `n` commands is of this kind. */
  ghost predicate Absent(img: RawImage, n: nat, kind: Kind)
  {
    forall i :: 0 <= i < n && IsCommand(img, i) ==> !Is(CommandAt(img, i), kind)
  }

  ghost predicate IsLast(img: RawImage, n: nat, kind: Kind, k: nat)
  {
    && k < n && IsCommand(img, k) && Is(CommandAt(img, k), kind)
    && forall j :: k < j < n && IsCommand(img, j) ==> !Is(CommandAt(img, j), kind)
  }

  /** The first walk selects the last command of a kind, if there is one. */
  lemma {:induction false} LastOfIsLast(img: RawImage, n: nat, kind: Kind)
    requires n <= img.ncmds && CommandsReadable(img, n)
    ensures LastOf(img, n, kind) == None <==> Absent(img, n, kind)
    ensures LastOf(img, n, kind).Some? ==>
      exists k: nat :: IsLast(img, n, kind, k) && LastOf(img, n, kind).value == CommandAt(img, k)
  {
    if n > 0 {
      LastOfIsLast(img, n - 1, kind);
      assert IsCommand(img, n - 1);
      if Is(CommandAt(img, n - 1), kind) {
        assert IsLast(img, n, kind, n - 1);
      } else if LastOf(img, n - 1, kind).Some? {
        var k: nat :| IsLast(img, n - 1, kind, k) && LastOf(img, n - 1, kind).value == CommandAt(img, k);
        assert IsLast(img, n, kind, k);
      }
    }
  }

  /** An image that dladdr does not know, or that lacks a link-edit segment, a symbol table or a
      dynamic symbol table, or whose last dynamic symbol table has no indirect symbols, has no
      tables, and no slots; every other image has tables. */
  lemma NoTablesExactly(img: Image)
    ensures FindTables(img) == None <==>
      !img.known || (exists kind :: Absent(img, img.ncmds, kind)) ||
      (var d := LastOf(img, img.ncmds, DynamicSymbolTable); d.Some? && d.value.nindirectsyms == 0)
    ensures FindTables(img) == None ==> ImageSlots(img) == []
  {
    LastOfIsLast(img, img.ncmds, LinkEdit);
    LastOfIsLast(img, img.ncmds, SymbolTable);
    LastOfIsLast(img, img.ncmds, DynamicSymbolTable);
    if kind :| Absent(img, img.ncmds, kind) {
      LastOfIsLast(img, img.ncmds, kind);
    }
  }

  /** `a` comes strictly before `b` in the walk. */
  predicate Before(a: SectionRef, b: SectionRef)
  {
    a.command < b.command || (a.command == b.command && a.index < b.index)
  }

  /** Within one command. */
  lemma {:induction false} RefsInCommandExact(img: RawImage, i: nat, n: nat)
    ensures forall r :: r in RefsInCommand(img, i, n) <==>
      && r.command == i && r.index < n && IsCommand(img, i)
      && var cmd := CommandAt(img, i);
         && cmd.Segment? && (cmd.segname == "__DATA" || cmd.segname == "__DATA_CONST") && r.index < |cmd.sections|
         && (cmd.sections[r.index].flags & 0xFF == 6 || cmd.sections[r.index].flags & 0xFF == 7)
    ensures forall x, y :: 0 <= x < y < |RefsInCommand(img, i, n)| ==>
      Before(RefsInCommand(img, i, n)[x], RefsInCommand(img, i, n)[y])
  {
    if n != 0 {
      RefsInCommandExact(img, i, n - 1);
    }
  }

  /** The second walk visits exactly the lazy (7) and non-lazy (6) symbol-pointer sections of segments named
      "__DATA" and "__DATA_CONST", each once and in order. */
  lemma {:induction false} RefsExact(img: RawImage, n: nat)
    requires n <= img.ncmds && CommandsReadable(img, n)
    ensures forall r :: r in Refs(img, n) <==>
      && r.command < n && IsCommand(img, r.command)
      && var cmd := CommandAt(img, r.command);
         && cmd.Segment? && (cmd.segname == "__DATA" || cmd.segname == "__DATA_CONST") && r.index < |cmd.sections|
         && (cmd.sections[r.index].flags & 0xFF == 6 || cmd.sections[r.index].flags & 0xFF == 7)
    ensures forall x, y :: 0 <= x < y < |Refs(img, n)| ==> Before(Refs(img, n)[x], Refs(img, n)[y])
  {
    if n != 0 {
      RefsExact(img, n - 1);
      RefsInCommandExact(img, n - 1, SectionCount(CommandAt(img, n - 1)));
    }
  }

  /* ----- where tables and slots are ----- */

  /** What lies `d` bytes into the link-edit segment of the file lies `d` bytes into the segment in
      memory. */
  lemma TablesAreInLinkEdit(slide: int, linkedit: LoadCommand, d: nat)
    requires linkedit.Segment? && 0 <= slide + linkedit.vmaddr && slide + linkedit.vmaddr + d < ADDRESS_SPACE
    ensures TableAddress(slide, linkedit, linkedit.fileoff + d) == slide + linkedit.vmaddr + d
  {
  }

  /** The slots of a section are the pointers that fit in it, one after the other from its start. */
  lemma SlotsTileSection(slide: int, sect: Section, i: nat)
    requires 0 <= slide + sect.addr && (slide + sect.addr) % POINTER_SIZE == 0
    requires slide + sect.addr + sect.size <= ADDRESS_SPACE
    ensures i < SlotCount(sect) <==> POINTER_SIZE * (i + 1) <= sect.size
    ensures i < SlotCount(sect) ==> POINTER_SIZE * SlotAddress(slide, sect, i) == slide + sect.addr + POINTER_SIZE * i
  {
    var base := slide + sect.addr;
    if i < SlotCount(sect) {
      assert base % ADDRESS_SPACE == base;
      assert base / POINTER_SIZE + i < MEMORY_WORDS;
    }
  }

  /** Slots of a section never overlap, even where the address space wraps around. */
  lemma SlotsOfSectionDistinct(slide: int, sect: Section, i: nat, j: nat)
    requires i < j < MEMORY_WORDS
    ensures SlotAddress(slide, sect, i) != SlotAddress(slide, sect, j)
  {
    var start := (slide + sect.addr) % ADDRESS_SPACE / POINTER_SIZE;
    WrapsOnce(start, i);
    WrapsOnce(start, j);
  }

  lemma WrapsOnce(start: nat, i: nat)
    requires start < MEMORY_WORDS && i < MEMORY_WORDS
    ensures (start + i) % MEMORY_WORDS == if start + i < MEMORY_WORDS then start + i else start + i - MEMORY_WORDS
  {
  }

  /** Where the slots of an image come from: slot k is some slot of a visited section. */
  lemma {:induction false} SlotOrigin(img: Image, t: Tables, refs: seq<SectionRef>,
                                      k: nat) returns (r: SectionRef, i: nat)
    requires FindTables(img) == Some(t) && AllEligible(img, refs)
    requires k < |SlotsOf(img, t, refs)|
    ensures r in refs && EligibleRef(img, r)
    ensures var sect := RefSection(img, r);
      SectionReadable(img, t, sect) && i < SlotCount(sect) && SlotReadable(img, t, sect, i) &&
      SlotsOf(img, t, refs)[k] == SlotAt(img, t, sect, i)
  {
    var n := |refs| - 1;
    var before := SlotsOf(img, t, refs[..n]);
    if k < |before| {
      r, i := SlotOrigin(img, t, refs[..n], k);
    } else {
      r, i := refs[n], k - |before|;
      var sect := RefSection(img, r);
      SectionSlotsIndex(img, t, sect, SlotCount(sect), i);
    }
  }

  lemma {:induction false} SectionSlotsIndex(img: RawImage, t: Tables, sect: Section, n: nat, i: nat)
    requires SectionReadable(img, t, sect) && i < n <= SlotCount(sect)
    ensures SlotReadable(img, t, sect, i) && SectionSlots(img, t, sect, n)[i] == SlotAt(img, t, sect, i)
  {
    if i < n - 1 {
      SectionSlotsIndex(img, t, sect, n - 1, i);
    }
  }
}
