/** What one pass of the engine does to memory, as functions: which rebinding a name gets, what
    one slot's turn changes, and what a sequence of turns changes. */
module Binding {
  import opened CStrings
  import opened MachO
  import opened Wrappers

  /** `replaced` is the out-pointer through which the overwritten pointer is saved; it may be NULL. */
  datatype Rebinding = Rebinding(name: CBuffer, replacement: Pointer, replaced: Option<Address>)
  {
    function Name(): seq<Byte>
    {
      CStringAt(name, 0)
    }
  }

  type Memory = m: seq<Pointer> | |m| == MEMORY_WORDS ghost witness seq(MEMORY_WORDS, _ => 0)

  /** One array of rebindings per successful call, newest call first. */
  type Calls = seq<seq<Rebinding>>

  function Flatten(calls: Calls): seq<Rebinding>
  {
    if calls == [] then [] else calls[0] + Flatten(calls[1..])
  }

  function FirstMatch(list: seq<Rebinding>, name: seq<Byte>): Option<Rebinding>
  {
    if list == [] then None
    else if list[0].Name() == name then Some(list[0])
    else FirstMatch(list[1..], name)
  }

  /** The rebinding a slot is bound with, if any. */
  function Binder(list: seq<Rebinding>, name: Option<seq<Byte>>): Option<Rebinding>
  {
    if name.Some? then FirstMatch(list, name.value) else None
  }

  /** One slot's turn: the first matching rebinding saves the slot's pointer, unless it is already
      the replacement, and puts the replacement in the slot. */
  function BindSlot(mem: Memory, list: seq<Rebinding>, slot: Slot): Memory
  {
    match Binder(list, slot.name)
    case None => mem
    case Some(r) =>
      var saved := if r.replaced.Some? && mem[slot.addr] != r.replacement
                   then mem[r.replaced.value := mem[slot.addr]] else mem;
      saved[slot.addr := r.replacement]
  }

  function BindSlots(mem: Memory, list: seq<Rebinding>, slots: seq<Slot>): Memory
  {
    if slots == [] then mem
    else BindSlot(BindSlots(mem, list, slots[..|slots| - 1]), list, slots[|slots| - 1])
  }

  /** A pass over several images, in order. */
  ghost function BindImages(mem: Memory, list: seq<Rebinding>, images: seq<Image>): Memory
  {
    if images == [] then mem
    else BindSlots(BindImages(mem, list, images[..|images| - 1]), list, ImageSlots(images[|images| - 1]))
  }

  /* ----- names ----- */

  /** The C test of the inner loop, on the bytes it reads. */
  predicate SymbolTest(strtab: seq<Byte>, at: nat, name: CBuffer)
    requires Terminated(strtab, at)
  {
    Strlen(strtab, at) > 1 && Strcmp(strtab, at + 1, name, 0) == 0
  }

  /** The test succeeds exactly if the symbol is one arbitrary byte followed by the rebinding's
      name, and that name is not empty. */
  lemma SymbolTestExact(strtab: seq<Byte>, at: nat, name: CBuffer)
    requires Terminated(strtab, at)
    ensures SymbolTest(strtab, at, name) <==>
      CStringAt(name, 0) != [] && exists c: Byte :: CStringAt(strtab, at) == [c] + CStringAt(name, 0)
  {
    StrlenIsLength(strtab, at);
    var symbol := CStringAt(strtab, at);
    if strtab[at] != 0 {
      StrcmpIsEquality(strtab, at + 1, name, 0);
      assert symbol == [strtab[at]] + CStringAt(strtab, at + 1);
      if c: Byte :| symbol == [c] + CStringAt(name, 0) {
        assert symbol[1..] == CStringAt(name, 0);
        assert symbol[1..] == CStringAt(strtab, at + 1);
      }
    }
  }

  /** Hence it succeeds exactly if the slot can be rebound by that name. */
  lemma TestAgreesWithName(strtab: seq<Byte>, at: nat, r: Rebinding)
    requires Terminated(strtab, at)
    ensures SymbolTest(strtab, at, r.name) <==> NameAt(strtab, at) == Some(r.Name())
  {
    SymbolTestExact(strtab, at, r.name);
    var symbol := CStringAt(strtab, at);
    if |symbol| > 1 {
      assert symbol == [symbol[0]] + symbol[1..];
      if c: Byte :| symbol == [c] + r.Name() {
        assert symbol[1..] == r.Name();
      }
    }
  }

  /** Slot names are never empty. */
  lemma SlotNamesNonempty(img: Image, k: nat)
    requires k < |ImageSlots(img)|
    ensures ImageSlots(img)[k].name != Some([])
  {
    var r, i := SlotOrigin(img, FindTables(img).value, Refs(img, img.ncmds), k);
  }

  /* ----- first match ----- */

  /** The first match is the entry with the lowest index that has the name. */
  lemma {:induction false} FirstMatchIsLeast(list: seq<Rebinding>, name: seq<Byte>)
    ensures FirstMatch(list, name) == None <==> forall r <- list :: r.Name() != name
    ensures FirstMatch(list, name).Some? ==>
      exists i :: 0 <= i < |list| && FirstMatch(list, name).value == list[i] && list[i].Name() == name &&
        forall j :: 0 <= j < i ==> list[j].Name() != name
  {
    if list != [] && list[0].Name() != name {
      FirstMatchIsLeast(list[1..], name);
      assert list == [list[0]] + list[1..];
      if FirstMatch(list[1..], name).Some? {
        var i :| 0 <= i < |list[1..]| && FirstMatch(list[1..], name).value == list[1..][i] &&
          list[1..][i].Name() == name &&
          forall j :: 0 <= j < i ==> list[1..][j].Name() != name;
        forall j | 0 <= j < i + 1 ensures list[j].Name() != name {
          if j > 0 { assert list[j] == list[1..][j - 1]; }
        }
        assert list[i + 1].Name() == name;
      }
    } else if list != [] {
      assert list[0].Name() == name;
    }
  }

  lemma FirstMatchMember(list: seq<Rebinding>, name: seq<Byte>)
    ensures FirstMatch(list, name).Some? ==>
      FirstMatch(list, name).value in list && FirstMatch(list, name).value.Name() == name
  {
    FirstMatchIsLeast(list, name);
  }

  /** Entries in front take precedence. */
  lemma {:induction false} FirstMatchConcat(a: seq<Rebinding>, b: seq<Rebinding>, name: seq<Byte>)
    ensures FirstMatch(a + b, name) == if FirstMatch(a, name).Some? then FirstMatch(a, name) else FirstMatch(b, name)
  {
    if a == [] {
      assert a + b == b;
    } else {
      assert (a + b)[1..] == a[1..] + b;
      FirstMatchConcat(a[1..], b, name);
    }
  }

  /* ----- composing passes ----- */

  lemma {:induction false} BindSlotsConcat(mem: Memory, list: seq<Rebinding>, a: seq<Slot>, b: seq<Slot>)
    ensures BindSlots(mem, list, a + b) == BindSlots(BindSlots(mem, list, a), list, b)
  {
    if b == [] {
      assert a + b == a;
    } else {
      var n := |b| - 1;
      assert (a + b)[..|a + b| - 1] == a + b[..n];
      BindSlotsConcat(mem, list, a, b[..n]);
    }
  }

  lemma BindImagesStep(mem: Memory, list: seq<Rebinding>, images: seq<Image>, i: nat)
    requires i < |images|
    ensures BindImages(mem, list, images[..i + 1]) ==
      BindSlots(BindImages(mem, list, images[..i]), list, ImageSlots(images[i]))
  {
    assert images[..i + 1][..i] == images[..i];
  }

  /** The slots of several images, in the order of a pass over them. */
  ghost function AllSlots(images: seq<Image>): seq<Slot>
  {
    if images == [] then [] else AllSlots(images[..|images| - 1]) + ImageSlots(images[|images| - 1])
  }

  /** A pass over several images is one pass over all their slots. */
  lemma {:induction false} ImagesPassIsPass(mem: Memory, list: seq<Rebinding>, images: seq<Image>)
    ensures BindImages(mem, list, images) == BindSlots(mem, list, AllSlots(images))
  {
    if images != [] {
      var n := |images| - 1;
      ImagesPassIsPass(mem, list, images[..n]);
      BindSlotsConcat(mem, list, AllSlots(images[..n]), ImageSlots(images[n]));
    }
  }

  lemma {:induction false} EmptyListPass(mem: Memory, slots: seq<Slot>)
    ensures BindSlots(mem, [], slots) == mem
  {
    if slots != [] {
      EmptyListPass(mem, slots[..|slots| - 1]);
    }
  }

  /** A pass depends on the list only through the first matches of the names it meets. */
  lemma {:induction false} PassDependsOnFirstMatch(mem: Memory, a: seq<Rebinding>, b: seq<Rebinding>, slots: seq<Slot>)
    requires forall k :: 0 <= k < |slots| ==> Binder(a, slots[k].name) == Binder(b, slots[k].name)
    ensures BindSlots(mem, a, slots) == BindSlots(mem, b, slots)
  {
    if slots != [] {
      PassDependsOnFirstMatch(mem, a, b, slots[..|slots| - 1]);
    }
  }

  /* ----- slots after a pass ----- */

  /** What a slot should hold after a pass, if it held `v` before. */
  function Bound(list: seq<Rebinding>, name: Option<seq<Byte>>, v: Pointer): Pointer
  {
    match Binder(list, name)
    case None => v
    case Some(r) => r.replacement
  }

  function Cells(list: seq<Rebinding>): set<Address>
  {
    set r | r in list && r.replaced.Some? :: r.replaced.value
  }

  ghost predicate DistinctSlots(slots: seq<Slot>)
  {
    forall i, j :: 0 <= i < j < |slots| ==> slots[i].addr != slots[j].addr
  }

  ghost predicate ApartFrom(slots: seq<Slot>, cells: set<Address>)
  {
    forall i :: 0 <= i < |slots| ==> slots[i].addr !in cells
  }

  /** The pass as a map on slots: each holds the replacement of its name's first match, or what it
      held before; and everything else but the cells of the list is untouched. */
  lemma {:induction false} SlotsAfterPass(mem: Memory, list: seq<Rebinding>, slots: seq<Slot>)
    requires DistinctSlots(slots) && ApartFrom(slots, Cells(list))
    ensures forall k :: 0 <= k < |slots| ==>
      BindSlots(mem, list, slots)[slots[k].addr] == Bound(list, slots[k].name, mem[slots[k].addr])
    ensures forall a: Address :: a !in Cells(list) && (forall k :: 0 <= k < |slots| ==> slots[k].addr != a) ==>
      BindSlots(mem, list, slots)[a] == mem[a]
  {
    if slots != [] {
      var n := |slots| - 1;
      SlotsAfterPass(mem, list, slots[..n]);
      if slots[n].name.Some? {
        FirstMatchMember(list, slots[n].name.value);
      }
      assert forall k :: 0 <= k < n ==> slots[..n][k] == slots[k];
    }
  }

  /** Slot `slot`, as it is in `mem`, makes the engine save a pointer through `cell`. */
  predicate Saves(mem: Memory, list: seq<Rebinding>, slot: Slot, cell: Address)
  {
    var m := Binder(list, slot.name);
    m.Some? && m.value.replaced == Some(cell) && mem[slot.addr] != m.value.replacement
  }

  predicate IsLastSaver(mem: Memory, list: seq<Rebinding>, slots: seq<Slot>, cell: Address, k: nat)
  {
    && k < |slots| && Saves(mem, list, slots[k], cell)
    && forall j :: k < j < |slots| ==> !Saves(mem, list, slots[j], cell)
  }

  /** What the last slot that saves through the cell holds, if there is such a slot. */
  function LastSave(mem: Memory, list: seq<Rebinding>, slots: seq<Slot>, cell: Address): Option<Pointer>
  {
    if slots == [] then None
    else
      var last := slots[|slots| - 1];
      if Saves(mem, list, last, cell) then Some(mem[last.addr])
      else LastSave(mem, list, slots[..|slots| - 1], cell)
  }

  function ValueOr(saved: Option<Pointer>, v: Pointer): Pointer
  {
    if saved.Some? then saved.value else v
  }

  lemma {:induction false} LastSaveExact(mem: Memory, list: seq<Rebinding>, slots: seq<Slot>, cell: Address)
    ensures LastSave(mem, list, slots, cell) == None <==>
      forall k :: 0 <= k < |slots| ==> !Saves(mem, list, slots[k], cell)
    ensures forall k: nat :: IsLastSaver(mem, list, slots, cell, k) ==>
      LastSave(mem, list, slots, cell) == Some(mem[slots[k].addr])
  {
    if slots != [] {
      var n := |slots| - 1;
      LastSaveExact(mem, list, slots[..n], cell);
      assert forall k :: 0 <= k < n ==> slots[..n][k] == slots[k];
      forall k: nat | IsLastSaver(mem, list, slots, cell, k) && k < n
        ensures IsLastSaver(mem, list, slots[..n], cell, k)
      {
      }
    }
  }

  /** A cell is what the last save makes it. */
  lemma {:induction false} CellIsLastSave(mem: Memory, list: seq<Rebinding>, slots: seq<Slot>, cell: Address)
    requires DistinctSlots(slots) && ApartFrom(slots, Cells(list)) && ApartFrom(slots, {cell})
    ensures BindSlots(mem, list, slots)[cell] == ValueOr(LastSave(mem, list, slots, cell), mem[cell])
  {
    if slots != [] {
      var n := |slots| - 1;
      assert forall k :: 0 <= k < n ==> slots[..n][k] == slots[k];
      CellIsLastSave(mem, list, slots[..n], cell);
      SlotsAfterPass(mem, list, slots[..n]);
      LastTurn(BindSlots(mem, list, slots[..n]), mem, list, slots[n], cell);
    }
  }

  lemma LastTurn(before: Memory, mem: Memory, list: seq<Rebinding>, slot: Slot, cell: Address)
    requires before[slot.addr] == mem[slot.addr] && slot.addr != cell
    ensures BindSlot(before, list, slot)[cell] == if Saves(mem, list, slot, cell) then mem[slot.addr] else before[cell]
  {
  }

  /** Saved pointers: a cell ends with the pre-pass pointer of the last slot that saves through it,
      and keeps its value if there is none. */
  lemma CellAfterPass(mem: Memory, list: seq<Rebinding>, slots: seq<Slot>, cell: Address)
    requires DistinctSlots(slots) && ApartFrom(slots, Cells(list)) && cell in Cells(list)
    ensures (forall k :: 0 <= k < |slots| ==> !Saves(mem, list, slots[k], cell)) ==>
      BindSlots(mem, list, slots)[cell] == mem[cell]
    ensures forall k: nat :: IsLastSaver(mem, list, slots, cell, k) ==>
      BindSlots(mem, list, slots)[cell] == mem[slots[k].addr]
  {
    assert ApartFrom(slots, {cell});
    CellIsLastSave(mem, list, slots, cell);
    LastSaveExact(mem, list, slots, cell);
  }

  /** The slots already hold what a pass with `list` would give them. */
  ghost predicate Settled(mem: Memory, list: seq<Rebinding>, slots: seq<Slot>)
  {
    forall k :: 0 <= k < |slots| ==> mem[slots[k].addr] == Bound(list, slots[k].name, mem[slots[k].addr])
  }

  lemma {:induction false} SettledPassChangesNothing(mem: Memory, list: seq<Rebinding>, slots: seq<Slot>)
    requires Settled(mem, list, slots)
    ensures BindSlots(mem, list, slots) == mem
  {
    if slots != [] {
      var n := |slots| - 1;
      assert forall k :: 0 <= k < n ==> slots[..n][k] == slots[k];
      SettledPassChangesNothing(mem, list, slots[..n]);
    }
  }

  /** A second pass with the same list changes no slot and no saved pointer. */
  lemma PassIdempotent(mem: Memory, list: seq<Rebinding>, slots: seq<Slot>)
    requires DistinctSlots(slots) && ApartFrom(slots, Cells(list))
    ensures BindSlots(BindSlots(mem, list, slots), list, slots) == BindSlots(mem, list, slots)
  {
    var once := BindSlots(mem, list, slots);
    SlotsAfterPass(mem, list, slots);
    assert Settled(once, list, slots);
    SettledPassChangesNothing(once, list, slots);
  }

  /* ----- passes over several images ----- */

  /** No two slots of these images share an address, and no slot is one of the cells. */
  ghost predicate NoAliasing(images: set<Image>, cells: set<Address>)
  {
    && (forall img <- images :: DistinctSlots(ImageSlots(img)) && ApartFrom(ImageSlots(img), cells))
    && (forall a, b :: a in images && b in images && a != b ==> Disjoint(ImageSlots(a), ImageSlots(b)))
  }

  ghost predicate Disjoint(a: seq<Slot>, b: seq<Slot>)
  {
    forall i, j :: 0 <= i < |a| && 0 <= j < |b| ==> a[i].addr != b[j].addr
  }

  /** `slot` is a slot of `img`. */
  ghost predicate HasSlot(img: Image, slot: Slot)
  {
    slot in ImageSlots(img)
  }

  ghost predicate SavesIn(mem: Memory, list: seq<Rebinding>, images: seq<Image>, cell: Address, v: Pointer)
  {
    exists img, slot :: img in images && HasSlot(img, slot) && Saves(mem, list, slot, cell) && v == mem[slot.addr]
  }

  /** The effect of one image's turn on a slot of any image. */
  lemma SlotAfterImage(mem: Memory, list: seq<Rebinding>, img: Image, images: set<Image>, cells: set<Address>,
                       other: Image, slot: Slot)
    requires NoAliasing(images, cells) && img in images && Cells(list) <= cells
    requires other in images && HasSlot(other, slot)
    ensures BindSlots(mem, list, ImageSlots(img))[slot.addr] ==
      if other == img then Bound(list, slot.name, mem[slot.addr]) else mem[slot.addr]
  {
    SlotsAfterPass(mem, list, ImageSlots(img));
    var j :| 0 <= j < |ImageSlots(other)| && ImageSlots(other)[j] == slot;
    if other != img {
      assert Disjoint(ImageSlots(img), ImageSlots(other));
    }
  }

  lemma SlotsAfterImage(mem: Memory, list: seq<Rebinding>, img: Image, images: set<Image>, cells: set<Address>)
    requires NoAliasing(images, cells) && img in images && Cells(list) <= cells
    ensures forall other, slot :: other in images && HasSlot(other, slot) ==>
      BindSlots(mem, list, ImageSlots(img))[slot.addr] ==
        if other == img then Bound(list, slot.name, mem[slot.addr]) else mem[slot.addr]
  {
    forall other, slot | other in images && HasSlot(other, slot)
      ensures BindSlots(mem, list, ImageSlots(img))[slot.addr] ==
        if other == img then Bound(list, slot.name, mem[slot.addr]) else mem[slot.addr]
    {
      SlotAfterImage(mem, list, img, images, cells, other, slot);
    }
  }

  ghost predicate AllIn(visited: seq<Image>, images: set<Image>)
  {
    forall img <- visited :: img in images
  }

  lemma {:induction false} SlotAfterImages(mem: Memory, list: seq<Rebinding>, visited: seq<Image>, images: set<Image>,
                                           cells: set<Address>,
                                           other: Image, slot: Slot)
    requires NoAliasing(images, cells) && Cells(list) <= cells && AllIn(visited, images)
    requires other in images && HasSlot(other, slot)
    ensures BindImages(mem, list, visited)[slot.addr] ==
      if other in visited then Bound(list, slot.name, mem[slot.addr]) else mem[slot.addr]
  {
    if visited != [] {
      var n := |visited| - 1;
      LastOrBefore(visited, other);
      SlotAfterImages(mem, list, visited[..n], images, cells, other, slot);
      SlotAfterImage(BindImages(mem, list, visited[..n]), list, visited[n], images, cells, other, slot);
      BoundTwice(list, slot.name, mem[slot.addr]);
    }
  }

  lemma LastOrBefore(visited: seq<Image>, img: Image)
    requires visited != []
    ensures img in visited <==> img in visited[..|visited| - 1] || img == visited[|visited| - 1]
  {
    var n := |visited| - 1;
    assert visited == visited[..n] + [visited[n]];
  }

  lemma BoundTwice(list: seq<Rebinding>, name: Option<seq<Byte>>, v: Pointer)
    ensures Bound(list, name, Bound(list, name, v)) == Bound(list, name, v)
  {
  }

  /** A pass over several images binds their slots and leaves those of other images alone. */
  lemma SlotsAfterImages(mem: Memory, list: seq<Rebinding>, visited: seq<Image>, images: set<Image>,
                         cells: set<Address>)
    requires NoAliasing(images, cells) && Cells(list) <= cells
    requires AllIn(visited, images)
    ensures forall other, slot :: other in images && HasSlot(other, slot) ==>
      BindImages(mem, list, visited)[slot.addr] ==
        if other in visited then Bound(list, slot.name, mem[slot.addr]) else mem[slot.addr]
  {
    forall other, slot | other in images && HasSlot(other, slot)
      ensures BindImages(mem, list, visited)[slot.addr] ==
        if other in visited then Bound(list, slot.name, mem[slot.addr]) else mem[slot.addr]
    {
      SlotAfterImages(mem, list, visited, images, cells, other, slot);
    }
  }

  ghost predicate NoneSaves(mem: Memory, list: seq<Rebinding>, images: seq<Image>, cell: Address)
  {
    forall img, slot :: img in images && HasSlot(img, slot) ==> !Saves(mem, list, slot, cell)
  }

  /* ----- the last saver of a pass over several images ----- */

  /** The images without those that have been visited before. */
  ghost function FirstVisits(visited: seq<Image>): seq<Image>
  {
    if visited == [] then []
    else
      var before, last := FirstVisits(visited[..|visited| - 1]), visited[|visited| - 1];
      if last in visited[..|visited| - 1] then before else before + [last]
  }

  lemma {:induction false} FirstVisitsOnce(visited: seq<Image>)
    ensures forall img :: img in FirstVisits(visited) <==> img in visited
    ensures DistinctImages(FirstVisits(visited))
  {
    if visited != [] {
      var n := |visited| - 1;
      FirstVisitsOnce(visited[..n]);
      assert visited == visited[..n] + [visited[n]];
    }
  }

  ghost predicate DistinctImages(visited: seq<Image>)
  {
    forall i, j :: 0 <= i < j < |visited| ==> visited[i] != visited[j]
  }

  /** Visiting an image again changes nothing. */
  lemma {:induction false} FirstVisitsSuffice(mem: Memory, list: seq<Rebinding>, visited: seq<Image>,
                                              images: set<Image>, cells: set<Address>)
    requires NoAliasing(images, cells) && Cells(list) <= cells && AllIn(visited, images)
    ensures BindImages(mem, list, visited) == BindImages(mem, list, FirstVisits(visited))
  {
    if visited != [] {
      var n := |visited| - 1;
      var img, before := visited[n], BindImages(mem, list, visited[..n]);
      FirstVisitsSuffice(mem, list, visited[..n], images, cells);
      if img in visited[..n] {
        forall k | 0 <= k < |ImageSlots(img)|
          ensures before[ImageSlots(img)[k].addr] ==
            Bound(list, ImageSlots(img)[k].name, before[ImageSlots(img)[k].addr])
        {
          SlotAfterImages(mem, list, visited[..n], images, cells, img, ImageSlots(img)[k]);
        }
        SettledPassChangesNothing(before, list, ImageSlots(img));
      } else {
        var first := FirstVisits(visited[..n]);
        assert (first + [img])[..|first|] == first;
      }
    }
  }

  lemma {:induction false} AllSlotsOrigin(images: seq<Image>, slot: Slot)
    requires slot in AllSlots(images)
    ensures exists img :: img in images && HasSlot(img, slot)
  {
    var n := |images| - 1;
    if slot in AllSlots(images[..n]) {
      AllSlotsOrigin(images[..n], slot);
    } else {
      assert HasSlot(images[n], slot);
    }
  }

  lemma {:induction false} AllSlotsComplete(images: seq<Image>, img: Image, slot: Slot)
    requires img in images && HasSlot(img, slot)
    ensures slot in AllSlots(images)
  {
    var n := |images| - 1;
    LastOrBefore(images, img);
    if img != images[n] {
      AllSlotsComplete(images[..n], img, slot);
    }
  }

  lemma DistinctConcat(a: seq<Slot>, b: seq<Slot>)
    requires DistinctSlots(a) && DistinctSlots(b) && Disjoint(a, b)
    ensures DistinctSlots(a + b)
  {
  }

  /** The slots of distinct images are distinct, and apart from the cells. */
  lemma {:induction false} AllSlotsDistinct(visited: seq<Image>, images: set<Image>, cells: set<Address>)
    requires NoAliasing(images, cells) && AllIn(visited, images) && DistinctImages(visited)
    ensures DistinctSlots(AllSlots(visited)) && ApartFrom(AllSlots(visited), cells)
  {
    if visited != [] {
      var n := |visited| - 1;
      var before, img := AllSlots(visited[..n]), visited[n];
      AllSlotsDistinct(visited[..n], images, cells);
      forall i, j | 0 <= i < |before| && 0 <= j < |ImageSlots(img)| ensures before[i].addr != ImageSlots(img)[j].addr {
        AllSlotsOrigin(visited[..n], before[i]);
        var other :| other in visited[..n] && HasSlot(other, before[i]);
        assert Disjoint(ImageSlots(other), ImageSlots(img));
      }
      DistinctConcat(before, ImageSlots(img));
    }
  }

  /** After a pass over any images a cell holds the pre-pass pointer of the last slot, in the order of the
      images' first visits, that saves through it; and its old value if there is none. */
  lemma CellAfterImagesExactly(mem: Memory, list: seq<Rebinding>, visited: seq<Image>, images: set<Image>,
                               cells: set<Address>, cell: Address)
    requires NoAliasing(images, cells) && Cells(list) <= cells && AllIn(visited, images) && cell in Cells(list)
    ensures var slots := AllSlots(FirstVisits(visited));
      && ((forall k :: 0 <= k < |slots| ==> !Saves(mem, list, slots[k], cell)) ==>
            BindImages(mem, list, visited)[cell] == mem[cell])
      && (forall k: nat :: IsLastSaver(mem, list, slots, cell, k) ==>
            BindImages(mem, list, visited)[cell] == mem[slots[k].addr])
  {
    var first := FirstVisits(visited);
    FirstVisitsOnce(visited);
    FirstVisitsSuffice(mem, list, visited, images, cells);
    ImagesPassIsPass(mem, list, first);
    AllSlotsDistinct(first, images, cells);
    CellAfterPass(mem, list, AllSlots(first), cell);
  }

  /** What a pass over these images saves through the cell, if anything. */
  ghost function LastSaveIn(mem: Memory, list: seq<Rebinding>, visited: seq<Image>, cell: Address): Option<Pointer>
  {
    LastSave(mem, list, AllSlots(FirstVisits(visited)), cell)
  }

  lemma CellIsLastSaveIn(mem: Memory, list: seq<Rebinding>, visited: seq<Image>, images: set<Image>,
                         cells: set<Address>, cell: Address)
    requires NoAliasing(images, cells) && Cells(list) <= cells && AllIn(visited, images) && cell in cells
    ensures BindImages(mem, list, visited)[cell] == ValueOr(LastSaveIn(mem, list, visited, cell), mem[cell])
  {
    var first := FirstVisits(visited);
    FirstVisitsOnce(visited);
    FirstVisitsSuffice(mem, list, visited, images, cells);
    ImagesPassIsPass(mem, list, first);
    AllSlotsDistinct(first, images, cells);
    CellIsLastSave(mem, list, AllSlots(first), cell);
  }

  lemma {:induction false} LastSaveOrigin(mem: Memory, list: seq<Rebinding>, slots: seq<Slot>, cell: Address)
    requires LastSave(mem, list, slots, cell).Some?
    ensures exists slot ::
      slot in slots && Saves(mem, list, slot, cell) && LastSave(mem, list, slots, cell).value == mem[slot.addr]
  {
    var n := |slots| - 1;
    if !Saves(mem, list, slots[n], cell) {
      LastSaveOrigin(mem, list, slots[..n], cell);
    }
  }

  lemma LastSaveInOrigin(mem: Memory, list: seq<Rebinding>, visited: seq<Image>, cell: Address)
    ensures var saved := LastSaveIn(mem, list, visited, cell);
      if saved.Some? then SavesIn(mem, list, visited, cell, saved.value) else NoneSaves(mem, list, visited, cell)
  {
    var first := FirstVisits(visited);
    FirstVisitsOnce(visited);
    if LastSaveIn(mem, list, visited, cell).Some? {
      LastSaveOrigin(mem, list, AllSlots(first), cell);
      var slot :| slot in AllSlots(first) && Saves(mem, list, slot, cell) &&
        LastSaveIn(mem, list, visited, cell).value == mem[slot.addr];
      AllSlotsOrigin(first, slot);
    } else {
      LastSaveExact(mem, list, AllSlots(first), cell);
      forall img, slot | img in visited && HasSlot(img, slot) ensures !Saves(mem, list, slot, cell) {
        AllSlotsComplete(first, img, slot);
      }
    }
  }

  /** A pass over several images writes a cell exactly if some slot they have saves through it, and
      then with the pre-pass pointer of such a slot. */
  lemma CellsAfterImages(mem: Memory, list: seq<Rebinding>, visited: seq<Image>, images: set<Image>,
                         cells: set<Address>, cell: Address)
    requires NoAliasing(images, cells) && Cells(list) <= cells && AllIn(visited, images) && cell in cells
    ensures SavesIn(mem, list, visited, cell, BindImages(mem, list, visited)[cell]) ||
      (NoneSaves(mem, list, visited, cell) && BindImages(mem, list, visited)[cell] == mem[cell])
  {
    CellIsLastSaveIn(mem, list, visited, images, cells, cell);
    LastSaveInOrigin(mem, list, visited, cell);
  }

  /** A second pass over the same images changes nothing at all. */
  lemma ImagesPassIdempotent(mem: Memory, list: seq<Rebinding>, visited: seq<Image>, images: set<Image>,
                             cells: set<Address>)
    requires NoAliasing(images, cells) && Cells(list) <= cells
    requires AllIn(visited, images)
    ensures BindImages(BindImages(mem, list, visited), list, visited) == BindImages(mem, list, visited)
  {
    var once := BindImages(mem, list, visited);
    SlotsAfterImages(mem, list, visited, images, cells);
    forall img | img in visited ensures Settled(once, list, ImageSlots(img)) {
      forall k | 0 <= k < |ImageSlots(img)|
        ensures once[ImageSlots(img)[k].addr] == Bound(list, ImageSlots(img)[k].name, once[ImageSlots(img)[k].addr])
      {
        assert HasSlot(img, ImageSlots(img)[k]);
      }
    }
    SettledImagesUnchanged(once, list, visited);
  }

  lemma {:induction false} SettledImagesUnchanged(mem: Memory, list: seq<Rebinding>, visited: seq<Image>)
    requires forall img <- visited :: Settled(mem, list, ImageSlots(img))
    ensures BindImages(mem, list, visited) == mem
  {
    if visited != [] {
      var n := |visited| - 1;
      SettledImagesUnchanged(mem, list, visited[..n]);
      SettledPassChangesNothing(mem, list, ImageSlots(visited[n]));
    }
  }
}
