/** What the two walks over an image come to, said in terms of the image's own commands, tables and bytes: which
    pointers the engine looks at, in which order, where they are, and what they are called. */
module ImageLayout {
  import opened CStrings
  import opened MachO
  import opened Binding
  import opened Protocol
  import opened Runs
  import opened Wrappers

  /* ----- the first walk ----- */

  ghost predicate LastLinkEdit(img: RawImage, n: nat, c: LoadCommand)
  {
    exists k: nat ::
      && k < n && IsCommand(img, k) && CommandAt(img, k) == c && c.Segment? && c.segname == "__LINKEDIT"
      && forall j :: k < j < n && IsCommand(img, j) ==>
           !(CommandAt(img, j).Segment? && CommandAt(img, j).segname == "__LINKEDIT")
  }

  ghost predicate LastSymtab(img: RawImage, n: nat, c: LoadCommand)
  {
    exists k: nat ::
      && k < n && IsCommand(img, k) && CommandAt(img, k) == c && c.Symtab?
      && forall j :: k < j < n && IsCommand(img, j) ==> !CommandAt(img, j).Symtab?
  }

  ghost predicate LastDysymtab(img: RawImage, n: nat, c: LoadCommand)
  {
    exists k: nat ::
      && k < n && IsCommand(img, k) && CommandAt(img, k) == c && c.Dysymtab?
      && forall j :: k < j < n && IsCommand(img, j) ==> !CommandAt(img, j).Dysymtab?
  }

  lemma FirstWalk(img: RawImage, n: nat, c: LoadCommand)
    requires n <= img.ncmds && CommandsReadable(img, n)
    ensures LastOf(img, n, LinkEdit) == Some(c) <==> LastLinkEdit(img, n, c)
    ensures LastOf(img, n, SymbolTable) == Some(c) <==> LastSymtab(img, n, c)
    ensures LastOf(img, n, DynamicSymbolTable) == Some(c) <==> LastDysymtab(img, n, c)
  {
    FirstWalkLinkEdit(img, n, c);
    FirstWalkSymtab(img, n, c);
    FirstWalkDysymtab(img, n, c);
  }

  lemma {:induction false} FirstWalkLinkEdit(img: RawImage, n: nat, c: LoadCommand)
    requires n <= img.ncmds && CommandsReadable(img, n)
    ensures LastOf(img, n, LinkEdit) == Some(c) <==> LastLinkEdit(img, n, c)
  {
    if n > 0 {
      FirstWalkLinkEdit(img, n - 1, c);
      assert IsCommand(img, n - 1);
    }
  }

  lemma {:induction false} FirstWalkSymtab(img: RawImage, n: nat, c: LoadCommand)
    requires n <= img.ncmds && CommandsReadable(img, n)
    ensures LastOf(img, n, SymbolTable) == Some(c) <==> LastSymtab(img, n, c)
  {
    if n > 0 {
      FirstWalkSymtab(img, n - 1, c);
      assert IsCommand(img, n - 1);
    }
  }

  lemma {:induction false} FirstWalkDysymtab(img: RawImage, n: nat, c: LoadCommand)
    requires n <= img.ncmds && CommandsReadable(img, n)
    ensures LastOf(img, n, DynamicSymbolTable) == Some(c) <==> LastDysymtab(img, n, c)
  {
    if n > 0 {
      FirstWalkDysymtab(img, n - 1, c);
      assert IsCommand(img, n - 1);
    }
  }

  /** The engine goes on to the second walk, with these three commands. */
  ghost predicate Selected(img: RawImage, l: LoadCommand, s: LoadCommand, d: LoadCommand)
  {
    && img.known && LastLinkEdit(img, img.ncmds, l) && LastSymtab(img, img.ncmds, s) && LastDysymtab(img, img.ncmds, d)
    && d.Dysymtab? && d.nindirectsyms != 0
  }

  /** Each table starts at its own file offset from the link-edit base; without the three commands there are no
      tables and no slots. */
  lemma TablesExactly(img: Image, l: LoadCommand, s: LoadCommand, d: LoadCommand)
    ensures Selected(img, l, s, d) ==>
      var base := img.slide + l.vmaddr - l.fileoff;
      FindTables(img) == Some(Tables((base + s.symoff) % 0x1_0000_0000_0000_0000,
                                     (base + s.stroff) % 0x1_0000_0000_0000_0000,
                                     (base + d.indirectsymoff) % 0x1_0000_0000_0000_0000))
    ensures FindTables(img).Some? ==> exists l, s, d :: Selected(img, l, s, d)
    ensures FindTables(img).None? ==> ImageSlots(img) == []
  {
    FirstWalk(img, img.ncmds, l);
    FirstWalk(img, img.ncmds, s);
    FirstWalk(img, img.ncmds, d);
    if FindTables(img).Some? {
      var l', s' := LastOf(img, img.ncmds, LinkEdit).value, LastOf(img, img.ncmds, SymbolTable).value;
      var d' := LastOf(img, img.ncmds, DynamicSymbolTable).value;
      FirstWalk(img, img.ncmds, l');
      FirstWalk(img, img.ncmds, s');
      FirstWalk(img, img.ncmds, d');
      assert Selected(img, l', s', d');
    }
  }

  /* ----- the second walk ----- */

  /** Pointer `index` of section `section` of command `command`. */
  datatype Place = Place(command: nat, section: nat, index: nat)

  /** It is in a lazy (7) or non-lazy (6) symbol-pointer section of a segment named "__DATA" or "__DATA_CONST",
      and fits in the section. */
  ghost predicate IsPlace(img: RawImage, p: Place)
  {
    && IsCommand(img, p.command)
    && var cmd := CommandAt(img, p.command);
    && cmd.Segment? && (cmd.segname == "__DATA" || cmd.segname == "__DATA_CONST") && p.section < |cmd.sections|
    && var sect := cmd.sections[p.section];
    && (sect.flags & 0xFF == 6 || sect.flags & 0xFF == 7) && 8 * (p.index + 1) <= sect.size
  }

  predicate Precedes(a: Place, b: Place)
  {
    || a.command < b.command
    || (a.command == b.command && a.section < b.section)
    || (a.command == b.command && a.section == b.section && a.index < b.index)
  }

  ghost function SectionOf(img: RawImage, p: Place): Section
    requires IsPlace(img, p)
  {
    CommandAt(img, p.command).sections[p.section]
  }

  /** `v` is the string at `at`, without its first byte; None if that leaves nothing. */
  ghost predicate IsSymbolName(strtab: seq<Byte>, at: nat, v: Option<seq<Byte>>)
  {
    exists end: nat :: EndsAt(strtab, at, end) && v == if end - at > 1 then Some(strtab[at + 1..end]) else None
  }

  /** `v` is the name that entry `n` of the indirect symbol table gives, for tables at these file offsets. */
  ghost predicate IsNameOfEntry(img: RawImage, base: int, s: LoadCommand, d: LoadCommand, n: nat, v: Option<seq<Byte>>)
    requires s.Symtab? && d.Dysymtab?
  {
    var symtab := (base + s.symoff) % 0x1_0000_0000_0000_0000;
    var strtab := (base + s.stroff) % 0x1_0000_0000_0000_0000;
    var indirect := (base + d.indirectsymoff) % 0x1_0000_0000_0000_0000;
    && indirect in img.indirectAt && n < |img.indirectAt[indirect]|
    && var index := img.indirectAt[indirect][n];
       if index == 0x4000_0000 || index == 0x8000_0000 || index == 0xC000_0000 then v == None
       else
         && symtab in img.symtabAt && index < |img.symtabAt[symtab]| && strtab in img.strtabAt
         && IsSymbolName(img.strtabAt[strtab], img.symtabAt[symtab][index], v)
  }

  /** Pointer `i` of the section, in words, where the slide puts it in an address space of 2^64 bytes. */
  predicate IsAddressOf(slide: int, sect: Section, i: nat, a: Address)
  {
    (slide + sect.addr) % 8 == 0 ==> 8 * a == (slide + sect.addr + 8 * i) % 0x1_0000_0000_0000_0000
  }

  /** The slot is where the image's slide puts the place, and has the name that the tables give it. */
  ghost predicate IsSlotAt(img: RawImage, l: LoadCommand, s: LoadCommand, d: LoadCommand, p: Place, slot: Slot)
    requires IsPlace(img, p) && l.Segment? && s.Symtab? && d.Dysymtab?
  {
    var sect := SectionOf(img, p);
    && IsAddressOf(img.slide, sect, p.index, slot.addr)
    && IsNameOfEntry(img, img.slide + l.vmaddr - l.fileoff, s, d, sect.reserved1 + p.index, slot.name)
  }

  ghost function PlacesOf(refs: seq<SectionRef>, img: RawImage): (places: seq<Place>)
    requires AllEligible(img, refs)
  {
    if refs == [] then []
    else
      var last := refs[|refs| - 1];
      assert EligibleRef(img, last);
      PlacesOf(refs[..|refs| - 1], img) +
        seq(SlotCount(RefSection(img, last)), i requires i >= 0 => Place(last.command, last.index, i))
  }

  /** Where the slots of an image are, in order. */
  ghost function Places(img: Image): seq<Place>
  {
    if FindTables(img).None? then [] else PlacesOf(Refs(img, img.ncmds), img)
  }

  lemma {:induction false} PlacesOfExact(refs: seq<SectionRef>, img: RawImage)
    requires AllEligible(img, refs)
    ensures forall p :: p in PlacesOf(refs, img) <==>
      && SectionRef(p.command, p.section) in refs && EligibleRef(img, SectionRef(p.command, p.section))
      && p.index < SlotCount(RefSection(img, SectionRef(p.command, p.section)))
  {
    if refs != [] {
      var n := |refs| - 1;
      var last := refs[n];
      assert EligibleRef(img, last);
      PlacesOfExact(refs[..n], img);
      assert refs == refs[..n] + [last];
      var count := SlotCount(RefSection(img, last));
      var added := seq(count, i requires i >= 0 => Place(last.command, last.index, i));
      assert PlacesOf(refs, img) == PlacesOf(refs[..n], img) + added;
      forall p ensures p in added <==> p.command == last.command && p.section == last.index && p.index < count {
        if p.command == last.command && p.section == last.index && p.index < count {
          assert added[p.index] == p;
        }
      }
    }
  }

  ghost predicate Ordered(places: seq<Place>)
  {
    forall a, b :: 0 <= a < b < |places| ==> Precedes(places[a], places[b])
  }

  lemma {:induction false} PlacesOfOrdered(refs: seq<SectionRef>, img: RawImage)
    requires AllEligible(img, refs)
    requires forall x, y :: 0 <= x < y < |refs| ==> Before(refs[x], refs[y])
    ensures Ordered(PlacesOf(refs, img))
  {
    if refs != [] {
      var n := |refs| - 1;
      var last := refs[n];
      assert EligibleRef(img, last);
      PlacesOfOrdered(refs[..n], img);
      PlacesOfExact(refs[..n], img);
      var before := PlacesOf(refs[..n], img);
      forall a | 0 <= a < |before| ensures Before(SectionRef(before[a].command, before[a].section), last) {
        assert before[a] in before;
        var x :| 0 <= x < n && refs[x] == SectionRef(before[a].command, before[a].section);
      }
    }
  }

  /** Places and slots run in parallel. */
  lemma {:induction false} SlotOfPlace(img: Image, t: Tables, refs: seq<SectionRef>, k: nat)
    requires FindTables(img) == Some(t) && AllEligible(img, refs)
    ensures |PlacesOf(refs, img)| == |SlotsOf(img, t, refs)|
    ensures k < |PlacesOf(refs, img)| ==>
      var p := PlacesOf(refs, img)[k];
      && EligibleRef(img, SectionRef(p.command, p.section))
      && var sect := RefSection(img, SectionRef(p.command, p.section));
         SlotReadable(img, t, sect, p.index) && SlotsOf(img, t, refs)[k] == SlotAt(img, t, sect, p.index)
  {
    if refs != [] {
      var n := |refs| - 1;
      var last := refs[n];
      assert EligibleRef(img, last);
      SlotOfPlace(img, t, refs[..n], k);
      var sect, start := RefSection(img, last), |PlacesOf(refs[..n], img)|;
      if start <= k < start + SlotCount(sect) {
        SectionSlotsIndex(img, t, sect, SlotCount(sect), k - start);
      }
    }
  }

  lemma NameIsName(strtab: seq<Byte>, at: nat)
    requires Terminated(strtab, at)
    ensures IsSymbolName(strtab, at, NameAt(strtab, at))
  {
    var end := FindEnd(strtab, at);
    CStringExact(strtab, at, end);
    if end - at > 1 {
      assert strtab[at..end][1..] == strtab[at + 1..end];
    }
  }

  lemma AddressIsAddress(img: RawImage, t: Tables, sect: Section, i: nat)
    requires SlotReadable(img, t, sect, i)
    ensures IsAddressOf(img.slide, sect, i, SlotAt(img, t, sect, i).addr)
  {
    var b := img.slide + sect.addr;
    if b % 8 == 0 {
      Eighth(b);
      EightTimes(b / 8 + i);
      SumOfRemainder(b / 8, i);
    }
  }

  lemma Eighth(b: int)
    requires b % 8 == 0
    ensures b % ADDRESS_SPACE / POINTER_SIZE == (b / 8) % MEMORY_WORDS && b == 8 * (b / 8)
  {
    EightTimes(b / 8);
  }

  lemma EightTimes(q: int)
    ensures (8 * q) % ADDRESS_SPACE == 8 * (q % MEMORY_WORDS)
  {
  }

  lemma SumOfRemainder(q: int, i: nat)
    ensures (q % MEMORY_WORDS + i) % MEMORY_WORDS == (q + i) % MEMORY_WORDS
  {
  }

  /** The engine's index into the indirect symbol table, and the name it finds through it. */
  lemma EntryIsNamed(img: RawImage, t: Tables, base: int, s: LoadCommand, d: LoadCommand, sect: Section, i: nat)
    requires s.Symtab? && d.Dysymtab? && SlotReadable(img, t, sect, i)
    requires t.symtab == (base + s.symoff) % 0x1_0000_0000_0000_0000
    requires t.strtab == (base + s.stroff) % 0x1_0000_0000_0000_0000
    requires t.indirect == (base + d.indirectsymoff) % 0x1_0000_0000_0000_0000
    ensures IsNameOfEntry(img, base, s, d, sect.reserved1 + i, SlotAt(img, t, sect, i).name)
  {
    var index := img.indirectAt[t.indirect][sect.reserved1 + i];
    if !IsSpecialIndex(index) {
      NameIsName(img.strtabAt[t.strtab], img.symtabAt[t.symtab][index]);
    }
  }

  lemma NameOfSlot(img: Image, t: Tables, l: LoadCommand, s: LoadCommand, d: LoadCommand, sect: Section, i: nat)
    requires Selected(img, l, s, d) && FindTables(img) == Some(t) && SlotReadable(img, t, sect, i)
    ensures IsNameOfEntry(img, img.slide + l.vmaddr - l.fileoff, s, d, sect.reserved1 + i, SlotAt(img, t, sect, i).name)
  {
    TablesExactly(img, l, s, d);
    EntryIsNamed(img, t, img.slide + l.vmaddr - l.fileoff, s, d, sect, i);
  }

  lemma SlotAtIsSlotAt(img: Image, t: Tables, l: LoadCommand, s: LoadCommand, d: LoadCommand, p: Place)
    requires Selected(img, l, s, d) && FindTables(img) == Some(t) && IsPlace(img, p)
    requires SlotReadable(img, t, SectionOf(img, p), p.index)
    ensures IsSlotAt(img, l, s, d, p, SlotAt(img, t, SectionOf(img, p), p.index))
  {
    NameOfSlot(img, t, l, s, d, SectionOf(img, p), p.index);
    AddressIsAddress(img, t, SectionOf(img, p), p.index);
  }

  lemma PlacesExact(img: Image)
    requires FindTables(img).Some?
    ensures forall p :: p in Places(img) <==> IsPlace(img, p)
    ensures Ordered(Places(img))
  {
    RefsExact(img, img.ncmds);
    PlacesOfExact(Refs(img, img.ncmds), img);
    PlacesOfOrdered(Refs(img, img.ncmds), img);
    forall p ensures p in Places(img) <==> IsPlace(img, p) {
      SameSection(img, p);
    }
  }

  lemma SameSection(img: RawImage, p: Place)
    ensures IsPlace(img, p) <==>
      && EligibleRef(img, SectionRef(p.command, p.section))
      && p.index < SlotCount(RefSection(img, SectionRef(p.command, p.section)))
  {
  }

  /** The slots of an image, exactly: one for each pointer in a symbol-pointer section of a data segment, in the order
      of commands, sections and pointers, each where the slide puts it and with the name that the tables give it. */
  lemma SlotsExactly(img: Image, l: LoadCommand, s: LoadCommand, d: LoadCommand)
    requires Selected(img, l, s, d)
    ensures var places, slots := Places(img), ImageSlots(img);
      && (forall p :: p in places <==> IsPlace(img, p)) && |places| == |slots|
      && (forall a, b :: 0 <= a < b < |places| ==> Precedes(places[a], places[b]))
      && (forall k :: 0 <= k < |slots| ==> IsPlace(img, places[k]) && IsSlotAt(img, l, s, d, places[k], slots[k]))
  {
    TablesExactly(img, l, s, d);
    PlacesExact(img);
    var t, refs := FindTables(img).value, Refs(img, img.ncmds);
    SlotOfPlace(img, t, refs, 0);
    forall k | 0 <= k < |ImageSlots(img)|
      ensures IsPlace(img, Places(img)[k]) && IsSlotAt(img, l, s, d, Places(img)[k], ImageSlots(img)[k])
    {
      SlotOfPlace(img, t, refs, k);
      assert Places(img)[k] in Places(img);
      SlotAtIsSlotAt(img, t, l, s, d, Places(img)[k]);
    }
  }

  /* ----- runs ----- */

  lemma SymbolNameIsUnique(strtab: seq<Byte>, at: nat, v: Option<seq<Byte>>, w: Option<seq<Byte>>)
    requires IsSymbolName(strtab, at, v) && IsSymbolName(strtab, at, w)
    ensures v == w
  {
    var a: nat :| EndsAt(strtab, at, a) && v == if a - at > 1 then Some(strtab[at + 1..a]) else None;
    var b: nat :| EndsAt(strtab, at, b) && w == if b - at > 1 then Some(strtab[at + 1..b]) else None;
    assert a == b;
  }

  lemma NameIsUnique(img: RawImage, base: int, s: LoadCommand, d: LoadCommand, n: nat, v: Option<seq<Byte>>,
                     w: Option<seq<Byte>>)
    requires s.Symtab? && d.Dysymtab? && IsNameOfEntry(img, base, s, d, n, v) && IsNameOfEntry(img, base, s, d, n, w)
    ensures v == w
  {
    var indirect := (base + d.indirectsymoff) % 0x1_0000_0000_0000_0000;
    var index := img.indirectAt[indirect][n];
    if index != 0x4000_0000 && index != 0x8000_0000 && index != 0xC000_0000 {
      var symtab := (base + s.symoff) % 0x1_0000_0000_0000_0000;
      var strtab := (base + s.stroff) % 0x1_0000_0000_0000_0000;
      SymbolNameIsUnique(img.strtabAt[strtab], img.symtabAt[symtab][index], v, w);
    }
  }

  /** What is at this address has this name. */
  ghost predicate IsPointerAt(img: RawImage, l: LoadCommand, s: LoadCommand, d: LoadCommand, p: Place, a: Address,
                              name: Option<seq<Byte>>)
  {
    && Selected(img, l, s, d) && IsPlace(img, p)
    && var sect := SectionOf(img, p);
    && (img.slide + sect.addr) % 8 == 0
    && 8 * a == (img.slide + sect.addr + 8 * p.index) % 0x1_0000_0000_0000_0000
    && IsNameOfEntry(img, img.slide + l.vmaddr - l.fileoff, s, d, sect.reserved1 + p.index, name)
  }

  lemma SlotIsPointer(img: RawImage, l: LoadCommand, s: LoadCommand, d: LoadCommand, p: Place, a: Address,
                      name: Option<seq<Byte>>, slot: Slot)
    requires IsPointerAt(img, l, s, d, p, a, name) && IsSlotAt(img, l, s, d, p, slot)
    ensures slot == Slot(a, name)
  {
    NameIsUnique(img, img.slide + l.vmaddr - l.fileoff, s, d, SectionOf(img, p).reserved1 + p.index, name, slot.name);
  }

  lemma PointerIsSlot(img: Image, l: LoadCommand, s: LoadCommand, d: LoadCommand, p: Place, a: Address,
                      name: Option<seq<Byte>>)
    requires IsPointerAt(img, l, s, d, p, a, name)
    ensures HasSlot(img, Slot(a, name))
  {
    SlotsExactly(img, l, s, d);
    assert p in Places(img);
    var k :| 0 <= k < |Places(img)| && Places(img)[k] == p;
    SlotIsPointer(img, l, s, d, p, a, name, ImageSlots(img)[k]);
  }

  /** After every run of global calls and loads, in terms of the image alone: the pointer at each place of each loaded
      image is that of the first match for its name, or what the image was loaded with. */
  lemma PlacesAreBound(mem: Memory, events: seq<Event>, images: set<Image>, cells: set<Address>, img: Image,
                       l: LoadCommand, s: LoadCommand, d: LoadCommand, p: Place, a: Address, name: Option<seq<Byte>>)
    requires Within(events, images, cells) && GlobalOnly(events) && img in images
    requires IsPointerAt(img, l, s, d, p, a, name)
    ensures Run(mem, events).mem[a] ==
      if img in Loaded(events) then Bound(Flatten(Registrations(events)), name, mem[a]) else mem[a]
  {
    PointerIsSlot(img, l, s, d, p, a, name);
    EverySlotIsBound(mem, events, images, cells);
    RunCallsAndImages(mem, events);
    assert Slot(a, name).addr == a;
  }

  lemma SlotIsAtPlace(img: Image, k: nat)
    requires k < |ImageSlots(img)|
    ensures exists p :: IsPlace(img, p) && IsAddressOf(img.slide, SectionOf(img, p), p.index, ImageSlots(img)[k].addr)
  {
    var any := OtherCommand(0);
    TablesExactly(img, any, any, any);
    var l, s, d :| Selected(img, l, s, d);
    SlotsExactly(img, l, s, d);
    assert IsSlotAt(img, l, s, d, Places(img)[k], ImageSlots(img)[k]);
  }

  /** The address is that of no pointer that the engine looks at in this image. */
  ghost predicate AtNoPlace(img: RawImage, a: Address)
  {
    forall p :: IsPlace(img, p) ==>
      && (img.slide + SectionOf(img, p).addr) % 8 == 0
      && 8 * a != (img.slide + SectionOf(img, p).addr + 8 * p.index) % 0x1_0000_0000_0000_0000
  }

  lemma NotASlot(img: Image, k: nat, a: Address)
    requires AtNoPlace(img, a) && k < |ImageSlots(img)|
    ensures ImageSlots(img)[k].addr != a
  {
    SlotIsAtPlace(img, k);
    var p :| IsPlace(img, p) && IsAddressOf(img.slide, SectionOf(img, p), p.index, ImageSlots(img)[k].addr);
  }

  /** And no run writes anything else but cells. */
  lemma OnlyPlacesAreWritten(mem: Memory, events: seq<Event>, images: set<Image>, cells: set<Address>, a: Address)
    requires Within(events, images, cells) && a !in cells && forall img <- images :: AtNoPlace(img, a)
    ensures Run(mem, events).mem[a] == mem[a]
  {
    forall img, k | img in images && 0 <= k < |ImageSlots(img)| ensures ImageSlots(img)[k].addr != a {
      NotASlot(img, k, a);
    }
    NothingElseIsWritten(mem, events, images, cells, a);
  }
}
