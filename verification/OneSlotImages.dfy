/** Images with a link-edit segment, its tables, and one more segment with one section of one pointer: whatever their
    header, slide, offsets, names, types and tables, what the engine makes of them. */
module OneSlotImages {
  import opened CStrings
  import opened MachO
  import opened Binding
  import opened Protocol
  import opened SingleImage
  import opened Cycles
  import opened ImageLayout
  import opened Wrappers

  /** `segname` and everything after it are those of the segment with the pointer. */
  datatype Layout = Layout(
    header: nat, slide: int, vmaddr: nat, fileoff: nat, symoff: nat, stroff: nat, indirectsymoff: nat,
    nindirectsyms: nat, segname: string, addr: nat, flags: bv32, reserved1: nat)

  datatype SymbolTables = SymbolTables(symtab: seq<nat>, strtab: seq<Byte>, indirect: seq<nat>)

  function LinkEditCommand(x: Layout): LoadCommand
  {
    Segment(72, "__LINKEDIT", x.vmaddr, x.fileoff, [])
  }

  function SymtabCommand(x: Layout): LoadCommand
  {
    Symtab(24, x.symoff, x.stroff)
  }

  function DysymtabCommand(x: Layout): LoadCommand
  {
    Dysymtab(80, x.indirectsymoff, x.nindirectsyms)
  }

  function PointerSection(x: Layout): Section
  {
    Section(x.addr, 8, x.flags, x.reserved1)
  }

  function PointerSegment(x: Layout): LoadCommand
  {
    Segment(152, x.segname, 0, 0, [PointerSection(x)])
  }

  function TableAt(x: Layout, offset: nat): nat
  {
    (x.slide + x.vmaddr - x.fileoff + offset) % 0x1_0000_0000_0000_0000
  }

  function LaidOut(x: Layout, y: SymbolTables): RawImage
  {
    Image(x.header, x.slide, true, 4,
          map[x.header + 32 := LinkEditCommand(x), x.header + 104 := SymtabCommand(x),
              x.header + 128 := DysymtabCommand(x), x.header + 208 := PointerSegment(x)],
          map[TableAt(x, x.symoff) := y.symtab], map[TableAt(x, x.stroff) := y.strtab],
          map[TableAt(x, x.indirectsymoff) := y.indirect])
  }

  predicate Special(index: nat)
  {
    index == 0x4000_0000 || index == 0x8000_0000 || index == 0xC000_0000
  }

  /** The pointer's entry in the indirect symbol table leads to a string. */
  predicate Resolves(x: Layout, y: SymbolTables)
  {
    && x.reserved1 < |y.indirect|
    && var index := y.indirect[x.reserved1];
       Special(index) || (index < |y.symtab| && Terminated(y.strtab, y.symtab[index]))
  }

  /** The segment and the section are of the kinds that hold symbol pointers, and there are any. */
  predicate HoldsPointer(x: Layout)
  {
    && (x.segname == "__DATA" || x.segname == "__DATA_CONST") && (x.flags & 0xFF == 6 || x.flags & 0xFF == 7)
    && x.nindirectsyms != 0
  }

  lemma Commands(x: Layout, y: SymbolTables)
    ensures var img := LaidOut(x, y);
      && CommandsReadable(img, 4) && (forall i :: IsCommand(img, i) <==> i < 4)
      && CommandAt(img, 0) == LinkEditCommand(x) && CommandAt(img, 1) == SymtabCommand(x)
      && CommandAt(img, 2) == DysymtabCommand(x) && CommandAt(img, 3) == PointerSegment(x)
  {
    var img := LaidOut(x, y);
    assert CommandsReadable(img, 1) && Cursor(img, 1) == x.header + 104;
    assert CommandsReadable(img, 2) && Cursor(img, 2) == x.header + 128;
    assert CommandsReadable(img, 3) && Cursor(img, 3) == x.header + 208;
    assert IsCommand(img, 0) && IsCommand(img, 1) && IsCommand(img, 2) && IsCommand(img, 3);
  }

  lemma FirstWalkOf(x: Layout, y: SymbolTables)
    ensures CommandsReadable(LaidOut(x, y), 4)
    ensures x.segname != "__LINKEDIT" ==> LastOf(LaidOut(x, y), 4, LinkEdit) == Some(LinkEditCommand(x))
    ensures LastOf(LaidOut(x, y), 4, SymbolTable) == Some(SymtabCommand(x))
    ensures LastOf(LaidOut(x, y), 4, DynamicSymbolTable) == Some(DysymtabCommand(x))
  {
    var img := LaidOut(x, y);
    Commands(x, y);
    assert LastOf(img, 1, LinkEdit) == LastOf(img, 2, LinkEdit) == LastOf(img, 3, LinkEdit) == Some(LinkEditCommand(x));
    assert LastOf(img, 2, SymbolTable) == LastOf(img, 3, SymbolTable) == Some(SymtabCommand(x));
    assert LastOf(img, 3, DynamicSymbolTable) == Some(DysymtabCommand(x));
  }

  lemma SectionOfLayout(x: Layout, y: SymbolTables)
    requires Resolves(x, y)
    ensures SectionReadable(LaidOut(x, y),
                            Tables(TableAt(x, x.symoff), TableAt(x, x.stroff), TableAt(x, x.indirectsymoff)),
                            PointerSection(x))
  {
    var t := Tables(TableAt(x, x.symoff), TableAt(x, x.stroff), TableAt(x, x.indirectsymoff));
    assert SlotReadable(LaidOut(x, y), t, PointerSection(x), 0);
  }

  lemma EligibleIn(x: Layout, y: SymbolTables, i: nat, j: nat)
    requires IsCommand(LaidOut(x, y), i)
    ensures Eligible(CommandAt(LaidOut(x, y), i), j) <==>
      && i == 3 && j == 0 && (x.segname == "__DATA" || x.segname == "__DATA_CONST")
      && (x.flags & 0xFF == 6 || x.flags & 0xFF == 7)
  {
    Commands(x, y);
    assert i == 0 || i == 1 || i == 2 || i == 3;
  }

  lemma TablesOf(x: Layout, y: SymbolTables)
    requires x.segname != "__LINKEDIT"
    ensures CommandsReadable(LaidOut(x, y), 4)
    ensures FindTables(LaidOut(x, y)) ==
      if x.nindirectsyms == 0 then None
      else Some(Tables(TableAt(x, x.symoff), TableAt(x, x.stroff), TableAt(x, x.indirectsymoff)))
  {
    FirstWalkOf(x, y);
  }

  lemma LaidOutReadable(x: Layout, y: SymbolTables)
    requires Resolves(x, y)
    ensures Readable(LaidOut(x, y))
  {
    var img := LaidOut(x, y);
    Commands(x, y);
    if FindTables(img).Some? {
      forall i: nat, j: nat | IsCommand(img, i) && Eligible(CommandAt(img, i), j)
        ensures SectionReadable(img, FindTables(img).value, CommandAt(img, i).sections[j])
      {
        EligibleIn(x, y, i, j);
        TablesOf(x, y);
        SectionOfLayout(x, y);
      }
    }
  }

  lemma PlacesOfLayout(x: Layout, y: SymbolTables, p: Place)
    ensures IsPlace(LaidOut(x, y), p) <==>
      && p == Place(3, 0, 0) && (x.segname == "__DATA" || x.segname == "__DATA_CONST")
      && (x.flags & 0xFF == 6 || x.flags & 0xFF == 7)
  {
    Commands(x, y);
    if IsCommand(LaidOut(x, y), p.command) {
      var i := p.command;
      assert i == 0 || i == 1 || i == 2 || i == 3;
    }
  }

  lemma SelectedIn(x: Layout, y: SymbolTables)
    requires x.segname != "__LINKEDIT" && x.nindirectsyms != 0
    ensures Selected(LaidOut(x, y), LinkEditCommand(x), SymtabCommand(x), DysymtabCommand(x))
  {
    FirstWalkOf(x, y);
    FirstWalk(LaidOut(x, y), 4, LinkEditCommand(x));
    FirstWalk(LaidOut(x, y), 4, SymtabCommand(x));
    FirstWalk(LaidOut(x, y), 4, DysymtabCommand(x));
  }

  /** The name of the pointer, from the tables themselves. */
  ghost predicate IsName(x: Layout, y: SymbolTables, name: Option<seq<Byte>>)
    requires Resolves(x, y)
  {
    var index := y.indirect[x.reserved1];
    if Special(index) then name == None else IsSymbolName(y.strtab, y.symtab[index], name)
  }

  lemma AtMostOne(places: seq<Place>, p: Place)
    requires Ordered(places) && forall q :: q in places <==> q == p
    ensures places == [p]
  {
    assert p in places;
    forall k | 0 <= k < |places| ensures places[k] == p {
      assert places[k] in places;
    }
    if |places| > 1 {
      NotTwice(places, p);
    }
  }

  lemma NotTwice(places: seq<Place>, p: Place)
    requires Ordered(places) && |places| > 1 && places[0] == p
    ensures places[1] != p
  {
    assert Precedes(places[0], places[1]);
  }

  lemma NoPlaces(x: Layout, y: SymbolTables)
    requires Resolves(x, y) && !HoldsPointer(x)
    ensures Readable(LaidOut(x, y)) && ImageSlots(LaidOut(x, y)) == []
  {
    LaidOutReadable(x, y);
    var img: Image := LaidOut(x, y);
    if |ImageSlots(img)| > 0 {
      SlotIsAtPlace(img, 0);
      var p :| IsPlace(img, p) && IsAddressOf(img.slide, SectionOf(img, p), p.index, ImageSlots(img)[0].addr);
      PlacesOfLayout(x, y, p);
      TablesOf(x, y);
    }
  }

  lemma OnePlace(x: Layout, y: SymbolTables)
    requires Resolves(x, y) && HoldsPointer(x)
    ensures Readable(LaidOut(x, y)) && |ImageSlots(LaidOut(x, y))| == 1 && IsPlace(LaidOut(x, y), Place(3, 0, 0))
    ensures var slot := ImageSlots(LaidOut(x, y))[0];
      IsSlotAt(LaidOut(x, y), LinkEditCommand(x), SymtabCommand(x), DysymtabCommand(x), Place(3, 0, 0), slot)
  {
    LaidOutReadable(x, y);
    var img: Image := LaidOut(x, y);
    SelectedIn(x, y);
    SlotsExactly(img, LinkEditCommand(x), SymtabCommand(x), DysymtabCommand(x));
    forall p ensures p in Places(img) <==> p == Place(3, 0, 0) {
      PlacesOfLayout(x, y, p);
    }
    AtMostOne(Places(img), Place(3, 0, 0));
  }

  lemma SlotOfLayout(x: Layout, y: SymbolTables, slot: Slot)
    requires Resolves(x, y) && IsPlace(LaidOut(x, y), Place(3, 0, 0))
    requires IsSlotAt(LaidOut(x, y), LinkEditCommand(x), SymtabCommand(x), DysymtabCommand(x), Place(3, 0, 0), slot)
    ensures IsName(x, y, slot.name)
    ensures (x.slide + x.addr) % 8 == 0 ==> 8 * slot.addr == (x.slide + x.addr) % 0x1_0000_0000_0000_0000
  {
    Commands(x, y);
    assert SectionOf(LaidOut(x, y), Place(3, 0, 0)) == PointerSection(x);
  }

  /** Such an image is well-formed, and has its one slot, at the address and with the name that its layout and tables
      say, if segment and section are of the right kinds, and none otherwise. */
  lemma SlotsOfLayout(x: Layout, y: SymbolTables)
    requires Resolves(x, y)
    ensures Readable(LaidOut(x, y))
    ensures |ImageSlots(LaidOut(x, y))| == if HoldsPointer(x) then 1 else 0
    ensures HoldsPointer(x) ==>
      var slot := ImageSlots(LaidOut(x, y))[0];
      && IsName(x, y, slot.name)
      && ((x.slide + x.addr) % 8 == 0 ==> 8 * slot.addr == (x.slide + x.addr) % 0x1_0000_0000_0000_0000)
  {
    if HoldsPointer(x) {
      OnePlace(x, y);
      SlotOfLayout(x, y, ImageSlots(LaidOut(x, y))[0]);
    } else {
      NoPlaces(x, y);
    }
  }

  lemma OnlyName(x: Layout, y: SymbolTables, v: Option<seq<Byte>>, w: Option<seq<Byte>>)
    requires Resolves(x, y) && IsName(x, y, v)
    ensures IsName(x, y, w) <==> v == w
  {
    var index := y.indirect[x.reserved1];
    if IsName(x, y, w) && !Special(index) {
      SymbolNameIsUnique(y.strtab, y.symtab[index], v, w);
    }
  }

  lemma TheSlotOfLayout(x: Layout, y: SymbolTables, a: Address, name: Option<seq<Byte>>)
    requires Resolves(x, y) && HoldsPointer(x) && (x.slide + x.addr) % 8 == 0
    requires 8 * a == (x.slide + x.addr) % 0x1_0000_0000_0000_0000 && IsName(x, y, name)
    ensures Readable(LaidOut(x, y)) && ImageSlots(LaidOut(x, y)) == [Slot(a, name)]
  {
    SlotsOfLayout(x, y);
    var slots := ImageSlots(LaidOut(x, y));
    OnlyName(x, y, slots[0].name, name);
    TheOnly(slots, a, name);
  }

  lemma TheOnly(slots: seq<Slot>, a: Address, name: Option<seq<Byte>>)
    requires |slots| == 1 && 8 * slots[0].addr == 8 * a && slots[0].name == name
    ensures slots == [Slot(a, name)]
  {
    assert slots == [slots[0]];
  }

  lemma LoadThenCall(mem: Memory, img: Image, call: seq<Rebinding>)
    ensures Run(mem, [LoadImage(img)] + [Register(call, true, true)]).mem == BindSlots(mem, call, ImageSlots(img))
  {
    var load := [LoadImage(img)];
    assert load[..0] == [];
    assert Run(mem, load) == State(mem, [], [img], 0);
    AfterOneMore(mem, load, Register(call, true, true));
    RegisterStep(Run(mem, load), call);
    assert call + [] == call && [img][..0] == [];
  }

  lemma OneSlotBound(mem: Memory, r: Rebinding, slot: Slot)
    ensures BindSlots(mem, [r], [slot])[slot.addr] ==
      if slot.name == Some(r.Name()) then r.replacement else mem[slot.addr]
  {
    assert [slot][..0] == [] && [r][1..] == [];
    assert BindSlots(mem, [r], [slot]) == BindSlot(mem, [r], slot);
    FirstMatchIsLeast([r], r.Name());
    if slot.name.Some? {
      FirstMatchMember([r], slot.name.value);
      FirstMatchIsLeast([r], slot.name.value);
    }
  }

  lemma NamedSlotOfLayout(x: Layout, y: SymbolTables, a: Address) returns (name: Option<seq<Byte>>)
    requires Resolves(x, y) && HoldsPointer(x) && (x.slide + x.addr) % 8 == 0
    requires 8 * a == (x.slide + x.addr) % 0x1_0000_0000_0000_0000
    ensures Readable(LaidOut(x, y)) && ImageSlots(LaidOut(x, y)) == [Slot(a, name)] && IsName(x, y, name)
  {
    SlotsOfLayout(x, y);
    name := ImageSlots(LaidOut(x, y))[0].name;
    TheSlotOfLayout(x, y, a, name);
  }

  /** Load the image and rebind a name. The word at the pointer's address then holds the replacement if the segment is
      named "__DATA" or "__DATA_CONST", the section is of type 6 or 7, and the tables give the pointer that name;
      and what it was loaded with otherwise. */
  lemma LoadAndRebind(mem: Memory, x: Layout, y: SymbolTables, r: Rebinding, a: Address)
    requires Resolves(x, y) && (x.slide + x.addr) % 8 == 0
    requires 8 * a == (x.slide + x.addr) % 0x1_0000_0000_0000_0000
    ensures Readable(LaidOut(x, y))
    ensures Run(mem, [LoadImage(LaidOut(x, y))] + [Register([r], true, true)]).mem[a] ==
      if HoldsPointer(x) && IsName(x, y, Some(r.Name())) then r.replacement else mem[a]
  {
    LaidOutReadable(x, y);
    LoadThenCall(mem, LaidOut(x, y), [r]);
    if HoldsPointer(x) {
      var name := NamedSlotOfLayout(x, y, a);
      OneSlotBound(mem, r, Slot(a, name));
      OnlyName(x, y, name, Some(r.Name()));
    } else {
      NoPlaces(x, y);
    }
  }
}
