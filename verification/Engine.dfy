/** The engine itself: a linked list of copied rebinding arrays, load-command walks with a byte
    cursor, and loops that write pointer slots and `replaced` cells in place. Every entry point is
    proved to take the step that module Protocol gives it. */
module Engine {
  import opened CStrings
  import opened MachO
  import opened Binding
  import opened Protocol
  import opened Walk
  import opened Wrappers

  /** What malloc has handed out and free has not taken back. */
  class Heap {
    ghost var live: set<object>

    constructor ()
      ensures live == {}
    {
      live := {};
    }

    method Free(o: object)
      modifies this
      ensures live == old(live) - {o}
    {
      live := live - {o};
    }
  }

  lemma FreeOneOfTwo(live: set<object>, a: object, b: object)
    requires a !in live && a != b
    ensures live + {a, b} - {a} == live + {b}
  {
  }

  /** A list node. `calls` is what the list that starts here holds, `repr` the nodes and arrays
      it is made of. */
  class Entry {
    var rebindings: array?<Rebinding>
    var nel: nat
    var next: Entry?
    ghost var calls: Calls
    ghost var repr: set<object>

    ghost predicate Valid()
      reads this, repr
      ensures Valid() ==> this in repr
    {
      && this in repr && rebindings != null && rebindings in repr && nel == rebindings.Length
      && (next != null ==>
            next in repr && next.repr <= repr && this !in next.repr && rebindings !in next.repr && next.Valid())
      && calls == [rebindings[..]] + CallsFrom(next)
    }

    method Fill(copy: array<Rebinding>, next: Entry?)
      requires next != null ==> next.Valid() && this !in next.repr && copy !in next.repr
      modifies this
      ensures Valid() && calls == [copy[..]] + CallsFrom(next)
      ensures rebindings == copy && this.next == next && repr == {this, copy} + ReprFrom(next)
    {
      rebindings := copy;
      nel := copy.Length;
      this.next := next;
      calls := [copy[..]] + CallsFrom(next);
      repr := {this, copy} + ReprFrom(next);
    }
  }

  ghost function ReprFrom(entry: Entry?): set<object>
    reads if entry == null then {} else {entry}
  {
    if entry == null then {} else entry.repr
  }

  ghost function CallsFrom(entry: Entry?): Calls
    reads if entry == null then {} else {entry}
  {
    if entry == null then [] else entry.calls
  }

  method Memcpy(dst: array<Rebinding>, src: array<Rebinding>, nel: nat)
    requires dst != src && nel == dst.Length <= src.Length
    modifies dst
    ensures dst[..] == src[..nel]
  {
    forall i | 0 <= i < nel {
      dst[i] := src[i];
    }
  }

  /** A list head: `_rebindings_head`, or the local head of a single-image call. */
  class RebindingList {
    var head: Entry?

    ghost predicate Valid()
      reads this, head, ReprFrom(head)
    {
      head != null ==> head.Valid() && this !in head.repr
    }

    ghost function Calls(): Calls
      reads this, head
    {
      CallsFrom(head)
    }

    constructor ()
      ensures Valid() && Calls() == [] && head == null
    {
      head := null;
    }

    /** Puts a copy of the first `nel` elements of the caller's array in front. Older entries and
        their arrays are not in the frame. */
    method Prepend(rebindings: array<Rebinding>, nel: nat, heap: Heap, nodeAllocated: bool, copyAllocated: bool)
      returns (retval: int)
      requires Valid() && nel <= rebindings.Length && heap !in ReprFrom(head)
      modifies this, heap
      ensures Valid()
      ensures retval == if nodeAllocated && copyAllocated then 0 else -1
      ensures retval < 0 ==> head == old(head) && Calls() == old(Calls()) && heap.live == old(heap.live)
      ensures retval == 0 ==>
        && Calls() == [rebindings[..nel]] + old(Calls())
        && head != null && fresh(head) && head.rebindings != null && fresh(head.rebindings)
        && head.next == old(head)
        && ReprFrom(head) == {head, head.rebindings} + old(ReprFrom(head))
        && heap.live == old(heap.live) + {head, head.rebindings}
    {
      if !nodeAllocated {
        return -1;
      }
      var entry := new Entry;
      heap.live := heap.live + {entry};
      if !copyAllocated {
        heap.Free(entry);
        return -1;
      }
      var copy := new Rebinding[nel];
      heap.live := heap.live + {copy};
      Memcpy(copy, rebindings, nel);
      entry.Fill(copy, head);
      head := entry;
      return 0;
    }
  }

  /** Arrays that an `uint` counter can run over. */
  predicate Countable(calls: Calls)
  {
    forall call <- calls :: |call| <= UINT_MAX
  }

  lemma TestsAgreeWithName(strtab: seq<Byte>, symbol: nat)
    requires Terminated(strtab, symbol)
    ensures forall r: Rebinding :: SymbolTest(strtab, symbol, r.name) <==> NameAt(strtab, symbol) == Some(r.Name())
  {
    forall r: Rebinding ensures SymbolTest(strtab, symbol, r.name) <==> NameAt(strtab, symbol) == Some(r.Name()) {
      TestAgreesWithName(strtab, symbol, r);
    }
  }

  /** The two inner loops: list nodes, and the array of each. Where the C code rebinds the slot and
      leaves both by `goto`, this returns the rebinding it does it with. */
  method FindRebinding(list: RebindingList, strtab: seq<Byte>, symbol: nat) returns (found: Option<Rebinding>)
    requires Terminated(strtab, symbol) && list.Valid() && Countable(list.Calls())
    ensures found == Binder(Flatten(list.Calls()), NameAt(strtab, symbol))
  {
    ghost var name := NameAt(strtab, symbol);
    SearchIsBinder(list.Calls(), name);
    TestsAgreeWithName(strtab, symbol);
    var cur := list.head;
    while cur != null
      invariant cur != null ==> cur.Valid() && Countable(cur.calls)
      invariant SearchCalls(list.Calls(), name) == SearchCalls(CallsFrom(cur), name)
      decreases |CallsFrom(cur)|
    {
      ghost var call := cur.rebindings[..];
      assert cur.calls[0] == call && cur.calls[1..] == CallsFrom(cur.next);
      for j: uint32 := 0 to cur.nel
        invariant SearchFrom(call, 0, name) == SearchFrom(call, j, name)
      {
        var r := cur.rebindings[j];
        if Strlen(strtab, symbol) > 1 && Strcmp(strtab, symbol + 1, r.name, 0) == 0 {
          assert SymbolTest(strtab, symbol, r.name);
          return Some(r);
        }
        assert !SymbolTest(strtab, symbol, r.name);
      }
      cur := cur.next;
    }
    return None;
  }

  /** The list can be searched while slots in this memory are written. */
  ghost predicate Searchable(list: RebindingList, mem: array<Pointer>)
    reads list, list.head, ReprFrom(list.head)
  {
    list.Valid() && mem !in ReprFrom(list.head) && Countable(list.Calls())
  }

  method RebindSlot(mem: array<Pointer>, list: RebindingList, strtab: seq<Byte>, symbol: nat, binding: Address)
    requires mem.Length == MEMORY_WORDS && Terminated(strtab, symbol)
    requires Searchable(list, mem)
    modifies mem
    ensures Searchable(list, mem) && list.Calls() == old(list.Calls())
    ensures mem[..] == BindSlot(old(mem[..]), Flatten(list.Calls()), Slot(binding, NameAt(strtab, symbol)))
  {
    var found := FindRebinding(list, strtab, symbol);
    if found.Some? {
      var r := found.value;
      if r.replaced.Some? && mem[binding] != r.replacement {
        mem[r.replaced.value] := mem[binding];
      }
      mem[binding] := r.replacement;
    }
  }

  /** The body of the slot loop, for slot `i`. */
  method RebindEntry(mem: array<Pointer>, list: RebindingList, img: RawImage, t: Tables, sect: Section, i: uint32)
    requires mem.Length == MEMORY_WORDS && SlotReadable(img, t, sect, i)
    requires Searchable(list, mem)
    modifies mem
    ensures Searchable(list, mem) && list.Calls() == old(list.Calls())
    ensures mem[..] == BindSlot(old(mem[..]), Flatten(list.Calls()), SlotAt(img, t, sect, i))
  {
    var symtabIndex := img.indirectAt[t.indirect][sect.reserved1 + i];
    if symtabIndex == INDIRECT_SYMBOL_ABS || symtabIndex == INDIRECT_SYMBOL_LOCAL ||
       symtabIndex == INDIRECT_SYMBOL_LOCAL_ABS {
      return;
    }
    var binding := SlotAddress(img.slide, sect, i);
    RebindSlot(mem, list, img.strtabAt[t.strtab], img.symtabAt[t.symtab][symtabIndex], binding);
  }

  method PerformRebindingWithSection(mem: array<Pointer>, list: RebindingList, img: RawImage, t: Tables, sect: Section)
    requires mem.Length == MEMORY_WORDS && SectionReadable(img, t, sect)
    requires Searchable(list, mem)
    modifies mem
    ensures Searchable(list, mem) && list.Calls() == old(list.Calls())
    ensures mem[..] == WalkSection(old(mem[..]), Flatten(list.Calls()), img, t, sect, SlotCount(sect))
  {
    ghost var before, calls := mem[..], list.Calls();
    for i: uint32 := 0 to SlotCount(sect)
      invariant Searchable(list, mem) && list.Calls() == calls
      invariant mem[..] == WalkSection(before, Flatten(calls), img, t, sect, i)
    {
      RebindEntry(mem, list, img, t, sect, i);
    }
  }

  /** The first walk: the last link-edit segment, symbol table and dynamic symbol table command. */
  method SelectCommands(img: Image)
    returns (linkedit: Option<LoadCommand>, symtab: Option<LoadCommand>, dysymtab: Option<LoadCommand>)
    ensures linkedit == LastOf(img, img.ncmds, LinkEdit)
    ensures symtab == LastOf(img, img.ncmds, SymbolTable)
    ensures dysymtab == LastOf(img, img.ncmds, DynamicSymbolTable)
  {
    linkedit, symtab, dysymtab := None, None, None;
    var cur := img.header + HEADER_SIZE;
    for i: uint32 := 0 to img.ncmds
      invariant CommandsReadable(img, i) && cur == Cursor(img, i)
      invariant linkedit == LastOf(img, i, LinkEdit)
      invariant symtab == LastOf(img, i, SymbolTable)
      invariant dysymtab == LastOf(img, i, DynamicSymbolTable)
    {
      AllCommands(img, img.ncmds, i + 1);
      var cmd := img.commandAt[cur];
      if cmd.Segment? {
        if cmd.segname == "__LINKEDIT" {
          linkedit := Some(cmd);
        }
      } else if cmd.Symtab? {
        symtab := Some(cmd);
      } else if cmd.Dysymtab? {
        dysymtab := Some(cmd);
      }
      cur := cur + cmd.cmdsize;
    }
  }

  /** The section types are told apart by two tests in a row; at most one of them holds. */
  method RebindSection(mem: array<Pointer>, list: RebindingList, img: RawImage, t: Tables, sect: Section)
    requires mem.Length == MEMORY_WORDS && (IsPointerSection(sect) ==> SectionReadable(img, t, sect))
    requires Searchable(list, mem)
    modifies mem
    ensures Searchable(list, mem) && list.Calls() == old(list.Calls())
    ensures mem[..] ==
      if IsPointerSection(sect) then WalkSection(old(mem[..]), Flatten(list.Calls()), img, t, sect, SlotCount(sect))
      else old(mem[..])
  {
    if sect.flags & SECTION_TYPE == S_LAZY_SYMBOL_POINTERS {
      PerformRebindingWithSection(mem, list, img, t, sect);
    }
    if sect.flags & SECTION_TYPE == S_NON_LAZY_SYMBOL_POINTERS {
      PerformRebindingWithSection(mem, list, img, t, sect);
    }
  }

  /** The body of the second walk, for command `i`. */
  method RebindCommand(mem: array<Pointer>, list: RebindingList, img: Image, t: Tables, cmd: LoadCommand, ghost i: nat)
    requires mem.Length == MEMORY_WORDS && FindTables(img) == Some(t)
    requires IsCommand(img, i) && cmd == CommandAt(img, i)
    requires Searchable(list, mem)
    modifies mem
    ensures Searchable(list, mem) && list.Calls() == old(list.Calls())
    ensures mem[..] == WalkCommand(old(mem[..]), Flatten(list.Calls()), img, t, i, SectionCount(cmd))
  {
    if cmd.Segment? {
      if cmd.segname != "__DATA" && cmd.segname != "__DATA_CONST" {
        return;
      }
      for j: uint32 := 0 to |cmd.sections|
        invariant Searchable(list, mem) && list.Calls() == old(list.Calls())
        invariant mem[..] == WalkCommand(old(mem[..]), Flatten(list.Calls()), img, t, i, j)
      {
        assert Eligible(cmd, j) <==> IsPointerSection(cmd.sections[j]);
        RebindSection(mem, list, img, t, cmd.sections[j]);
      }
    }
  }

  /** Up to the second walk: where the tables are, unless the engine gives up. */
  method LocateTables(img: Image) returns (tables: Option<Tables>)
    ensures tables == FindTables(img)
  {
    if !img.known {
      return None;
    }
    var linkedit, symtab, dysymtab := SelectCommands(img);
    if symtab == None || dysymtab == None || linkedit == None || dysymtab.value.nindirectsyms == 0 {
      return None;
    }
    return Some(Tables(TableAddress(img.slide, linkedit.value, symtab.value.symoff),
                       TableAddress(img.slide, linkedit.value, symtab.value.stroff),
                       TableAddress(img.slide, linkedit.value, dysymtab.value.indirectsymoff)));
  }

  /** One step of the second walk: command `i`, where the cursor stands, and on to the next. */
  method RebindAtCursor(mem: array<Pointer>, list: RebindingList, img: Image, t: Tables, cur: nat, ghost i: nat)
    returns (next: nat)
    requires mem.Length == MEMORY_WORDS && FindTables(img) == Some(t)
    requires i < img.ncmds && CommandsReadable(img, i) && cur == Cursor(img, i)
    requires Searchable(list, mem)
    modifies mem
    ensures CommandsReadable(img, i + 1) && next == Cursor(img, i + 1)
    ensures Searchable(list, mem) && list.Calls() == old(list.Calls())
    ensures mem[..] ==
      WalkCommand(old(mem[..]), Flatten(list.Calls()), img, t, i, SectionCount(CommandAt(img, i)))
  {
    AllCommands(img, img.ncmds, i + 1);
    var cmd := img.commandAt[cur];
    RebindCommand(mem, list, img, t, cmd, i);
    next := cur + cmd.cmdsize;
  }

  /** The second walk. */
  method RebindCommands(mem: array<Pointer>, list: RebindingList, img: Image, t: Tables)
    requires mem.Length == MEMORY_WORDS && FindTables(img) == Some(t)
    requires Searchable(list, mem)
    modifies mem
    ensures Searchable(list, mem) && list.Calls() == old(list.Calls())
    ensures mem[..] == WalkCommands(old(mem[..]), Flatten(list.Calls()), img, t, img.ncmds)
  {
    ghost var before, calls := mem[..], list.Calls();
    var cur := img.header + HEADER_SIZE;
    for i: uint32 := 0 to img.ncmds
      invariant CommandsReadable(img, i) && cur == Cursor(img, i)
      invariant Searchable(list, mem) && list.Calls() == calls
      invariant mem[..] == WalkCommands(before, Flatten(calls), img, t, i)
    {
      cur := RebindAtCursor(mem, list, img, t, cur, i);
    }
  }

  method RebindSymbolsForImage(mem: array<Pointer>, list: RebindingList, img: Image)
    requires mem.Length == MEMORY_WORDS
    requires Searchable(list, mem)
    modifies mem
    ensures Searchable(list, mem) && list.Calls() == old(list.Calls())
    ensures mem[..] == WalkImage(old(mem[..]), Flatten(list.Calls()), img)
  {
    var tables := LocateTables(img);
    if tables != None {
      RebindCommands(mem, list, img, tables.value);
    }
  }

  /** A process: memory, the engine's global list, and what dyld knows. */
  class Process {
    const mem: array<Pointer>
    const rebindings: RebindingList
    const heap: Heap
    var images: seq<Image>
    var callbacks: nat

    ghost predicate Valid()
      reads this, mem, rebindings, rebindings.head, ReprFrom(rebindings.head)
    {
      && mem.Length == MEMORY_WORDS
      && rebindings.Valid() && Countable(rebindings.Calls())
      && {this, mem, heap} !! ReprFrom(rebindings.head)
    }

    ghost function View(): State
      requires Valid()
      reads this, mem, rebindings, rebindings.head, ReprFrom(rebindings.head)
    {
      State(mem[..], rebindings.Calls(), images, callbacks)
    }

    constructor (mem: array<Pointer>)
      requires mem.Length == MEMORY_WORDS
      ensures Valid() && View() == Run(mem[..], []) && this.mem == mem && fresh(rebindings) && fresh(heap)
    {
      this.mem := mem;
      this.rebindings := new RebindingList();
      this.heap := new Heap();
      this.images := [];
      this.callbacks := 0;
    }

    /** The callback that the engine registers with dyld. */
    method RebindWithGlobalList(img: Image)
      requires Valid()
      modifies mem
      ensures Valid()
      ensures View() == old(View()).(mem := BindSlots(old(View()).mem, Flatten(old(View()).calls), ImageSlots(img)))
    {
      RebindWithList(rebindings, img);
    }

    method RebindImages()
      requires Valid()
      modifies mem
      ensures Valid()
      ensures View() == old(View()).(mem := BindImages(old(View()).mem, Flatten(old(View()).calls), images))
    {
      ghost var before := View();
      ghost var list := Flatten(before.calls);
      for i := 0 to |images|
        invariant Valid() && View() == before.(mem := BindImages(before.mem, list, images[..i]))
      {
        BindImagesStep(before.mem, list, images, i);
        RebindWithGlobalList(images[i]);
      }
      assert images[..|images|] == images;
    }

    /** dyld calls a callback for every image it already has as soon as it is registered. */
    method RegisterFuncForAddImage()
      requires Valid()
      modifies this`callbacks, mem
      ensures Valid()
      ensures View() == old(View()).(mem := BindImages(old(View()).mem, Flatten(old(View()).calls), images),
                                     callbacks := old(callbacks) + 1)
    {
      callbacks := callbacks + 1;
      RebindImages();
    }

    /** Adds a call to the global list; `first` is whether it is now the only one. */
    method PrependGlobal(given: array<Rebinding>, nel: nat, nodeAllocated: bool, copyAllocated: bool)
      returns (retval: int, first: bool)
      requires Valid() && nel <= given.Length && nel <= UINT_MAX
      modifies rebindings, heap
      ensures Valid()
      ensures retval == if nodeAllocated && copyAllocated then 0 else -1
      ensures retval < 0 ==> View() == old(View()) && heap.live == old(heap.live)
      ensures fresh(ReprFrom(rebindings.head) - old(ReprFrom(rebindings.head)))
      ensures retval == 0 ==> View() == old(View()).(calls := [given[..nel]] + old(View()).calls)
      ensures retval == 0 ==> (first <==> old(View()).calls == [])
    {
      retval := rebindings.Prepend(given, nel, heap, nodeAllocated, copyAllocated);
      first := retval == 0 && rebindings.head.next == null;
    }

    method RebindSymbols(given: array<Rebinding>, nel: nat, nodeAllocated: bool,
                         copyAllocated: bool) returns (retval: int)
      requires Valid() && nel <= given.Length && nel <= UINT_MAX
      modifies this`callbacks, mem, rebindings, heap
      ensures Valid() && fresh(ReprFrom(rebindings.head) - old(ReprFrom(rebindings.head)))
      ensures View() == Step(old(View()), Register(given[..nel], nodeAllocated, copyAllocated))
      ensures retval == if nodeAllocated && copyAllocated then 0 else -1
      ensures retval < 0 ==> heap.live == old(heap.live)
    {
      var first;
      retval, first := PrependGlobal(given, nel, nodeAllocated, copyAllocated);
      if retval < 0 {
        return;
      }
      if first {
        RegisterFuncForAddImage();
      } else {
        RebindImages();
      }
    }

    /** A list of its own for a single-image call. */
    method LocalList(given: array<Rebinding>, nel: nat, nodeAllocated: bool, copyAllocated: bool)
      returns (retval: int, list: RebindingList)
      requires Valid() && nel <= given.Length
      modifies heap
      ensures Valid() && View() == old(View())
      ensures fresh(list) && list.Valid() && fresh(ReprFrom(list.head))
      ensures retval == if nodeAllocated && copyAllocated then 0 else -1
      ensures retval < 0 ==> list.head == null && list.Calls() == [] && heap.live == old(heap.live)
      ensures retval == 0 ==>
        && list.Calls() == [given[..nel]] && list.head != null && list.head.rebindings != null
        && fresh(list.head) && fresh(list.head.rebindings)
        && heap.live == old(heap.live) + {list.head, list.head.rebindings}
    {
      list := new RebindingList();
      retval := list.Prepend(given, nel, heap, nodeAllocated, copyAllocated);
    }

    method RebindWithList(list: RebindingList, img: Image)
      requires Valid() && Searchable(list, mem)
      modifies mem
      ensures Valid()
      ensures View() == old(View()).(mem := BindSlots(old(View()).mem, Flatten(old(list.Calls())), ImageSlots(img)))
    {
      WalkIsPass(mem[..], Flatten(list.Calls()), img);
      RebindSymbolsForImage(mem, list, img);
    }

    /** The single-image call up to the release of its list head. */
    method RebindWithLocalList(img: Image, given: array<Rebinding>, nel: nat, nodeAllocated: bool, copyAllocated: bool)
      returns (retval: int, list: RebindingList)
      requires Valid() && nel <= given.Length && nel <= UINT_MAX
      modifies mem, heap
      ensures Valid()
      ensures View() == Step(old(View()), RebindImage(img, given[..nel], nodeAllocated, copyAllocated))
      ensures retval == if nodeAllocated && copyAllocated then 0 else -1
      ensures retval < 0 ==> list.head == null && heap.live == old(heap.live)
      ensures retval == 0 ==>
        && list.head != null && list.head.rebindings != null
        && fresh(list.head) && fresh(list.head.rebindings)
        && heap.live == old(heap.live) + {list.head, list.head.rebindings}
    {
      retval, list := LocalList(given, nel, nodeAllocated, copyAllocated);
      ghost var call := given[..nel];
      assert Flatten([call]) == call;
      EmptyListPass(mem[..], ImageSlots(img));
      RebindWithList(list, img);
    }

    /** Rebinds in one image only. The local list head is freed, but not the copied array it
        points to: `leaked` is what stays allocated. */
    method RebindSymbolsImage(img: Image, given: array<Rebinding>, nel: nat, nodeAllocated: bool, copyAllocated: bool)
      returns (retval: int, ghost leaked: set<object>)
      requires Valid() && nel <= given.Length && nel <= UINT_MAX
      modifies mem, heap
      ensures Valid()
      ensures View() == Step(old(View()), RebindImage(img, given[..nel], nodeAllocated, copyAllocated))
      ensures retval == if nodeAllocated && copyAllocated then 0 else -1
      ensures heap.live == old(heap.live) + leaked && fresh(leaked)
      ensures |leaked| == if retval == 0 then 1 else 0
    {
      var list;
      retval, list := RebindWithLocalList(img, given, nel, nodeAllocated, copyAllocated);
      leaked := {};
      if retval == 0 {
        leaked := {list.head.rebindings};
        FreeOneOfTwo(old(heap.live), list.head, list.head.rebindings);
      }
      FreeHead(list);
    }

    /** Freeing NULL does nothing. */
    method FreeHead(list: RebindingList)
      requires Valid()
      modifies heap
      ensures Valid() && View() == old(View())
      ensures heap.live == old(heap.live) - if list.head == null then {} else {list.head}
    {
      if list.head != null {
        heap.Free(list.head);
      }
    }

    /** dyld loads an image and calls the registered callbacks on it. */
    method LoadImage(img: Image)
      requires Valid()
      modifies this`images, mem
      ensures Valid()
      ensures View() == Step(old(View()), Event.LoadImage(img))
    {
      images := images + [img];
      for k := 0 to callbacks
        invariant Valid()
        invariant View() == old(View()).(mem := Notify(old(View()).mem, Flatten(old(View()).calls), img, k),
                                         images := old(images) + [img])
      {
        RebindWithGlobalList(img);
      }
    }
  }

  /** A caller may change its array once the call has returned: the engine works on its copy. */
  method ReuseArray(p: Process, given: array<Rebinding>, nel: nat, i: nat, r: Rebinding)
    requires p.Valid() && nel <= given.Length && nel <= UINT_MAX && i < given.Length
    requires given !in ReprFrom(p.rebindings.head)
    modifies p`callbacks, p.mem, p.rebindings, p.heap, given
    ensures p.Valid() && p.View() == Step(old(p.View()), Register(old(given[..nel]), true, true))
  {
    var retval := p.RebindSymbols(given, nel, true, true);
    Overwrite(p, given, i, r);
  }

  /** What the engine does not own can be written without its noticing. */
  method Overwrite(p: Process, given: array<Rebinding>, i: nat, r: Rebinding)
    requires p.Valid() && i < given.Length && given !in ReprFrom(p.rebindings.head)
    modifies given
    ensures p.Valid() && p.View() == old(p.View())
  {
    given[i] := r;
  }
}
