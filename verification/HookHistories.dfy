/** What hooking and unhooking leaves in slots and variables, after every history. */
module HookHistories {
  import opened CStrings
  import opened MachO
  import opened Binding
  import opened Protocol
  import opened Runs
  import opened SavedPointers
  import opened ExactChains
  import opened AssociationHooks
  import opened Wrappers

  /* ----- the last slot for a name ----- */

  /** The pointer in the last of these slots that is one for the name. */
  function LastPointer(mem: Memory, slots: seq<Slot>, name: seq<Byte>): Option<Pointer>
  {
    if slots == [] then None
    else
      var last := slots[|slots| - 1];
      if last.name == Some(name) then Some(mem[last.addr]) else LastPointer(mem, slots[..|slots| - 1], name)
  }

  predicate IsLastNamed(slots: seq<Slot>, name: seq<Byte>, k: nat)
  {
    k < |slots| && slots[k].name == Some(name) && forall j :: k < j < |slots| ==> slots[j].name != Some(name)
  }

  lemma {:induction false} LastPointerExact(mem: Memory, slots: seq<Slot>, name: seq<Byte>)
    ensures LastPointer(mem, slots, name) == None ==> forall k :: 0 <= k < |slots| ==> slots[k].name != Some(name)
    ensures LastPointer(mem, slots, name).Some? ==>
      exists k: nat :: IsLastNamed(slots, name, k) && LastPointer(mem, slots, name).value == mem[slots[k].addr]
  {
    if slots != [] {
      var n := |slots| - 1;
      LastPointerExact(mem, slots[..n], name);
      assert forall j :: 0 <= j < n ==> slots[..n][j] == slots[j];
      if slots[n].name == Some(name) {
        assert IsLastNamed(slots, name, n);
      } else if LastPointer(mem, slots[..n], name).Some? {
        var k: nat :| IsLastNamed(slots[..n], name, k) &&
          LastPointer(mem, slots[..n], name).value == mem[slots[..n][k].addr];
        assert IsLastNamed(slots, name, k);
      }
    }
  }

  lemma {:induction false} LastPointerSame(a: Memory, b: Memory, slots: seq<Slot>, name: seq<Byte>)
    requires forall slot :: slot in slots && slot.name == Some(name) ==> a[slot.addr] == b[slot.addr]
    ensures LastPointer(a, slots, name) == LastPointer(b, slots, name)
  {
    if slots != [] {
      LastPointerSame(a, b, slots[..|slots| - 1], name);
    }
  }

  /** If all these slots hold the same, it is that, if there is such a slot at all. */
  lemma LastPointerConstant(mem: Memory, slots: seq<Slot>, name: seq<Byte>, v: Pointer)
    requires forall slot :: slot in slots && slot.name == Some(name) ==> mem[slot.addr] == v
    ensures LastPointer(mem, slots, name) ==
      if exists slot :: slot in slots && slot.name == Some(name) then Some(v) else None
  {
    LastPointerExact(mem, slots, name);
  }

  ghost function SlotsOfAll(images: seq<Image>): seq<Slot>
  {
    AllSlots(FirstVisits(images))
  }

  lemma SlotsOfAllExact(images: seq<Image>, slot: Slot)
    ensures slot in SlotsOfAll(images) <==> exists img :: img in images && HasSlot(img, slot)
  {
    FirstVisitsOnce(images);
    if slot in SlotsOfAll(images) {
      AllSlotsOrigin(FirstVisits(images), slot);
    }
    if img :| img in images && HasSlot(img, slot) {
      AllSlotsComplete(FirstVisits(images), img, slot);
    }
  }

  lemma SlotsOfOne(img: Image)
    ensures SlotsOfAll([img]) == ImageSlots(img)
  {
    var one := [img];
    assert one[..0] == [] && one[0] == img;
    assert FirstVisits(one[..0]) == [] && img !in one[..0];
    assert FirstVisits(one) == [] + [img] == one;
    assert AllSlots(one[..0]) == [] && AllSlots(one) == [] + ImageSlots(img);
  }

  /* ----- what slots and variables depend on ----- */

  predicate Allocated(a: Action)
  {
    (a.Hook? || a.Unhook?) && a.nodeAllocated && a.copyAllocated
  }

  predicate NextInForce(inForce: bool, taken: bool, a: Action)
  {
    if a.Hook? && Allocated(a) then true
    else if a.Unhook? && Allocated(a) && taken then false
    else inForce
  }

  /** The last call that took effect installed the hooks. */
  predicate InForce(actions: seq<Action>)
  {
    actions != [] &&
    NextInForce(InForce(actions[..|actions| - 1]), Taken(actions[..|actions| - 1]), actions[|actions| - 1])
  }

  /** What hooking saves: what the last of the slots held, which is what an unhook put there if there was one. */
  function Caught(last: Option<Pointer>, restored: Option<Pointer>, variable: Pointer): Pointer
  {
    if last.None? then variable else if restored.Some? then restored.value else last.value
  }

  /** What the variable for the original holds. Hooking catches it from the loaded slots, if they are not
      hooked already; so does loading a new image while hooks are in force. */
  ghost function Variable(mem: Memory, h: Interposer, actions: seq<Action>): Pointer
    decreases |actions|
  {
    if actions == [] then mem[h.original]
    else
      var past, last := actions[..|actions| - 1], actions[|actions| - 1];
      var before := Variable(mem, h, past);
      if last.Hook? && Allocated(last) && !InForce(past) then
        Caught(LastPointer(mem, SlotsOfAll(ImagesOf(past)), h.Name()), Restored(mem, h, past), before)
      else if last.Load? && InForce(past) && last.image !in ImagesOf(past) then
        Caught(LastPointer(mem, ImageSlots(last.image), h.Name()), None, before)
      else before
  }

  /** What the last unhook that took effect put in the slots: what the variable held. */
  ghost function Restored(mem: Memory, h: Interposer, actions: seq<Action>): Option<Pointer>
    decreases |actions|
  {
    if actions == [] then None
    else
      var past, last := actions[..|actions| - 1], actions[|actions| - 1];
      if last.Unhook? && Allocated(last) && Taken(past) then Some(Variable(mem, h, past)) else Restored(mem, h, past)
  }

  /** What a slot for the name holds. */
  function Held(mem: Memory, h: Interposer, slot: Slot, loaded: bool, inForce: bool, restored: Option<Pointer>): Pointer
  {
    if !loaded then mem[slot.addr]
    else if inForce then h.replacement
    else if restored.Some? then restored.value
    else mem[slot.addr]
  }

  /** `h` is one of the two hooks, and its function is neither the load-time pointer of a slot for its name
      nor the initial value of its variable. */
  ghost predicate Setting(mem: Memory, hs: Hooks, h: Interposer, images: set<Image>)
  {
    && (h == hs.setter || h == hs.remover)
    && hs.setter.Name() != hs.remover.Name() && hs.setter.original != hs.remover.original
    && NoAliasing(images, hs.Originals()) && mem[h.original] != h.replacement
    && (forall img, slot :: img in images && HasSlot(img, slot) && slot.name == Some(h.Name()) ==>
          mem[slot.addr] != h.replacement)
  }

  /* ----- one step ----- */

  /** What the global list may say about the hooked name. */
  ghost predicate ListOk(list: seq<Rebinding>, h: Interposer, inForce: bool, restored: Option<Pointer>)
  {
    && (forall r :: r in list && r.replaced == Some(h.original) ==> r == h.Install())
    && var m := FirstMatch(list, h.Name());
       if inForce then m == Some(h.Install())
       else if restored.None? then m.None?
       else m.Some? && m.value.replaced.None? && m.value.replacement == restored.value
  }

  ghost predicate NamedSlots(mem: Memory, st: State, h: Interposer, images: set<Image>, inForce: bool,
                             restored: Option<Pointer>)
  {
    forall img, slot :: img in images && HasSlot(img, slot) && slot.name == Some(h.Name()) ==>
      st.mem[slot.addr] == Held(mem, h, slot, img in st.images, inForce, restored)
  }

  lemma SlotsFollowList(mem: Memory, st: State, h: Interposer, images: set<Image>, inForce: bool,
                        restored: Option<Pointer>)
    requires BoundWithList(mem, st, images) && ListOk(Flatten(st.calls), h, inForce, restored)
    ensures NamedSlots(mem, st, h, images, inForce, restored)
  {
  }

  /** The slot is one for the name that the step visits. */
  ghost predicate VisitsNamed(st: State, e: Event, h: Interposer, img: Image, slot: Slot)
  {
    img in Visited(st, e) && HasSlot(img, slot) && slot.name == Some(h.Name())
  }

  ghost predicate NoneHooked(st: State, e: Event, h: Interposer)
  {
    forall img, slot :: VisitsNamed(st, e, h, img, slot) ==> st.mem[slot.addr] != h.replacement
  }

  ghost predicate AllHooked(st: State, e: Event, h: Interposer)
  {
    forall img, slot :: VisitsNamed(st, e, h, img, slot) ==> st.mem[slot.addr] == h.replacement
  }

  lemma SaverIsNamed(list: seq<Rebinding>, h: Interposer, inForce: bool, restored: Option<Pointer>, now: Memory,
                     slot: Slot)
    requires ListOk(list, h, inForce, restored) && Saves(now, list, slot, h.original)
    ensures inForce && slot.name == Some(h.Name()) && now[slot.addr] != h.replacement
  {
    FirstMatchMember(list, slot.name.value);
    assert Binder(list, slot.name) == Some(h.Install());
  }

  /** A step writes the variable only if it hooks a slot. */
  lemma VariableKept(mem: Memory, st: State, e: Event, hs: Hooks, h: Interposer, images: set<Image>,
                     inForce: bool, restored: Option<Pointer>)
    requires Setting(mem, hs, h, images) && GlobalStep(mem, st, e, images, hs.Originals())
    requires ListOk(Flatten(Step(st, e).calls), h, inForce, restored) && (!inForce || AllHooked(st, e, h))
    ensures Step(st, e).mem[h.original] == st.mem[h.original]
  {
    var list, now := Flatten(Step(st, e).calls), Step(st, e).mem[h.original];
    StepIsPass(mem, st, e, images, hs.Originals());
    CellsAfterImages(st.mem, list, Visited(st, e), images, hs.Originals(), h.original);
    if SavesIn(st.mem, list, Visited(st, e), h.original, now) {
      var img, slot :| img in Visited(st, e) && HasSlot(img, slot) && Saves(st.mem, list, slot, h.original)
        && now == st.mem[slot.addr];
      SaverIsNamed(list, h, inForce, restored, st.mem, slot);
      assert VisitsNamed(st, e, h, img, slot);
    }
  }

  /** A step that hooks slots that were not hooked saves what the last of them held. */
  lemma VariableCaught(mem: Memory, st: State, e: Event, hs: Hooks, h: Interposer, images: set<Image>,
                       restored: Option<Pointer>)
    requires Setting(mem, hs, h, images) && GlobalStep(mem, st, e, images, hs.Originals())
    requires ListOk(Flatten(Step(st, e).calls), h, true, restored) && NoneHooked(st, e, h)
    ensures Step(st, e).mem[h.original] ==
      ValueOr(LastPointer(st.mem, SlotsOfAll(Visited(st, e)), h.Name()), st.mem[h.original])
  {
    var list := Flatten(Step(st, e).calls);
    StepIsPass(mem, st, e, images, hs.Originals());
    SaversExactly(st, e, list, h, restored);
    PassWithinCells(mem, st, e, images, hs.Originals());
    CellOfLastNamed(st.mem, list, Visited(st, e), images, hs.Originals(), h.original, h.Name());
  }

  lemma PassWithinCells(mem: Memory, st: State, e: Event, images: set<Image>, cells: set<Address>)
    requires GlobalStep(mem, st, e, images, cells)
    ensures Cells(Flatten(Step(st, e).calls)) <= cells && AllIn(Visited(st, e), images)
  {
    StepIsPass(mem, st, e, images, cells);
  }

  lemma CellOfLastNamed(now: Memory, list: seq<Rebinding>, visited: seq<Image>, images: set<Image>, cells: set<Address>,
                        cell: Address, name: seq<Byte>)
    requires NoAliasing(images, cells) && Cells(list) <= cells && AllIn(visited, images) && cell in cells
    requires NamedSave(now, list, SlotsOfAll(visited), cell, name)
    ensures BindImages(now, list, visited)[cell] == ValueOr(LastPointer(now, SlotsOfAll(visited), name), now[cell])
  {
    CellIsLastSaveIn(now, list, visited, images, cells, cell);
    LastNamedIsLastSave(now, list, SlotsOfAll(visited), cell, name);
  }

  ghost predicate NamedSave(mem: Memory, list: seq<Rebinding>, slots: seq<Slot>, cell: Address, name: seq<Byte>)
  {
    forall k :: 0 <= k < |slots| ==> (Saves(mem, list, slots[k], cell) <==> slots[k].name == Some(name))
  }

  lemma {:induction false} LastNamedIsLastSave(mem: Memory, list: seq<Rebinding>, slots: seq<Slot>, cell: Address,
                                               name: seq<Byte>)
    requires NamedSave(mem, list, slots, cell, name)
    ensures LastSave(mem, list, slots, cell) == LastPointer(mem, slots, name)
  {
    if slots != [] {
      var n := |slots| - 1;
      assert Saves(mem, list, slots[n], cell) <==> slots[n].name == Some(name);
      LastNamedIsLastSave(mem, list, slots[..n], cell, name);
    }
  }

  lemma SaversExactly(st: State, e: Event, list: seq<Rebinding>, h: Interposer, restored: Option<Pointer>)
    requires ListOk(list, h, true, restored) && NoneHooked(st, e, h)
    ensures NamedSave(st.mem, list, SlotsOfAll(Visited(st, e)), h.original, h.Name())
  {
    var slots := SlotsOfAll(Visited(st, e));
    forall k | 0 <= k < |slots| ensures Saves(st.mem, list, slots[k], h.original) <==> slots[k].name == Some(h.Name()) {
      SaverExactly(st, e, list, h, restored, slots[k]);
    }
  }

  lemma SaverExactly(st: State, e: Event, list: seq<Rebinding>, h: Interposer, restored: Option<Pointer>, slot: Slot)
    requires ListOk(list, h, true, restored) && NoneHooked(st, e, h) && slot in SlotsOfAll(Visited(st, e))
    ensures Saves(st.mem, list, slot, h.original) <==> slot.name == Some(h.Name())
  {
    if Saves(st.mem, list, slot, h.original) {
      SaverIsNamed(list, h, true, restored, st.mem, slot);
    }
    SlotsOfAllExact(Visited(st, e), slot);
    var img :| img in Visited(st, e) && HasSlot(img, slot);
    assert slot.name == Some(h.Name()) ==> VisitsNamed(st, e, h, img, slot);
  }

  /** What the state has to do with the history. */
  ghost predicate Follows(mem: Memory, st: State, hs: Hooks, h: Interposer, images: set<Image>,
                          inForce: bool, variable: Pointer, restored: Option<Pointer>)
  {
    && Proper(mem, st, images, hs.Originals()) && ListOk(Flatten(st.calls), h, inForce, restored)
    && st.mem[h.original] == variable && variable != h.replacement && restored != Some(h.replacement)
  }

  lemma HookedList(list: seq<Rebinding>, hs: Hooks, h: Interposer, inForce: bool, restored: Option<Pointer>)
    requires h == hs.setter || h == hs.remover
    requires hs.setter.Name() != hs.remover.Name() && hs.setter.original != hs.remover.original
    requires ListOk(list, h, inForce, restored)
    ensures ListOk(hs.Install() + list, h, true, restored)
  {
    FirstMatchConcat(hs.Install(), list, h.Name());
    assert hs.Install()[1..] == [hs.remover.Install()];
  }

  lemma FirstRestored(list: seq<Rebinding>, hs: Hooks, h: Interposer, mem: Memory)
    requires (h == hs.setter || h == hs.remover) && hs.setter.Name() != hs.remover.Name()
    ensures FirstMatch(hs.Restore(mem), h.Name()) == Some(h.Restore(mem))
    ensures FirstMatch(hs.Restore(mem) + list, h.Name()) == Some(h.Restore(mem))
  {
    FirstMatchConcat(hs.Restore(mem), list, h.Name());
    assert hs.Restore(mem)[1..] == [hs.remover.Restore(mem)];
  }

  lemma UnhookedList(list: seq<Rebinding>, hs: Hooks, h: Interposer, inForce: bool, restored: Option<Pointer>,
                     mem: Memory)
    requires (h == hs.setter || h == hs.remover) && hs.setter.Name() != hs.remover.Name()
    requires ListOk(list, h, inForce, restored)
    ensures ListOk(hs.Restore(mem) + list, h, false, Some(mem[h.original]))
  {
    FirstRestored(list, hs, h, mem);
  }

  /** Slots that an unhook has filled all hold the same. */
  lemma LastPointerOfLoaded(mem: Memory, st: State, h: Interposer, images: set<Image>, restored: Option<Pointer>)
    requires NamedSlots(mem, st, h, images, false, restored) && AllIn(st.images, images)
    ensures ValueOr(LastPointer(st.mem, SlotsOfAll(st.images), h.Name()), st.mem[h.original]) ==
      Caught(LastPointer(mem, SlotsOfAll(st.images), h.Name()), restored, st.mem[h.original])
  {
    var slots := SlotsOfAll(st.images);
    forall slot | slot in slots && slot.name == Some(h.Name())
      ensures st.mem[slot.addr] == if restored.Some? then restored.value else mem[slot.addr]
    {
      SlotsOfAllExact(st.images, slot);
    }
    if restored.Some? {
      LastPointerConstant(st.mem, slots, h.Name(), restored.value);
      LastPointerExact(mem, slots, h.Name());
    } else {
      LastPointerSame(mem, st.mem, slots, h.Name());
    }
  }

  lemma HookStep(mem: Memory, st: State, e: Event, hs: Hooks, h: Interposer, images: set<Image>,
                 inForce: bool, variable: Pointer, restored: Option<Pointer>)
    requires Setting(mem, hs, h, images) && GlobalStep(mem, st, e, images, hs.Originals())
    requires e == Register(hs.Install(), true, true) && Follows(mem, st, hs, h, images, inForce, variable, restored)
    ensures Follows(mem, Step(st, e), hs, h, images, true,
                    if inForce then variable
                    else Caught(LastPointer(mem, SlotsOfAll(st.images), h.Name()), restored, variable), restored)
  {
    assert Flatten(Step(st, e).calls) == hs.Install() + Flatten(st.calls);
    HookedList(Flatten(st.calls), hs, h, inForce, restored);
    SlotsFollowList(mem, st, h, images, inForce, restored);
    if inForce {
      VariableKept(mem, st, e, hs, h, images, true, restored);
    } else {
      VariableCaught(mem, st, e, hs, h, images, restored);
      LastPointerOfLoaded(mem, st, h, images, restored);
      CaughtIsNotHook(mem, h, images, st.images, restored, variable);
    }
  }

  lemma CaughtIsNotHook(mem: Memory, h: Interposer, images: set<Image>, loaded: seq<Image>, restored: Option<Pointer>,
                        variable: Pointer)
    requires AllIn(loaded, images) && variable != h.replacement && restored != Some(h.replacement)
    requires forall img, slot :: img in images && HasSlot(img, slot) && slot.name == Some(h.Name()) ==>
      mem[slot.addr] != h.replacement
    ensures Caught(LastPointer(mem, SlotsOfAll(loaded), h.Name()), restored, variable) != h.replacement
  {
    var slots := SlotsOfAll(loaded);
    LastPointerExact(mem, slots, h.Name());
    if LastPointer(mem, slots, h.Name()).Some? {
      var k: nat :| IsLastNamed(slots, h.Name(), k) && LastPointer(mem, slots, h.Name()).value == mem[slots[k].addr];
      SlotsOfAllExact(loaded, slots[k]);
    }
  }

  lemma UnhookStep(mem: Memory, st: State, e: Event, hs: Hooks, h: Interposer, images: set<Image>,
                   inForce: bool, variable: Pointer, restored: Option<Pointer>)
    requires Setting(mem, hs, h, images) && GlobalStep(mem, st, e, images, hs.Originals())
    requires e == Register(hs.Restore(st.mem), true, true)
    requires Follows(mem, st, hs, h, images, inForce, variable, restored)
    ensures Follows(mem, Step(st, e), hs, h, images, false, variable, Some(variable))
  {
    assert Flatten(Step(st, e).calls) == hs.Restore(st.mem) + Flatten(st.calls);
    UnhookedList(Flatten(st.calls), hs, h, inForce, restored, st.mem);
    VariableKept(mem, st, e, hs, h, images, false, Some(variable));
  }

  lemma NewImageCaught(mem: Memory, st: State, e: Event, hs: Hooks, h: Interposer, images: set<Image>,
                       restored: Option<Pointer>)
    requires Setting(mem, hs, h, images) && GlobalStep(mem, st, e, images, hs.Originals())
    requires e.LoadImage? && e.image in images && e.image !in st.images
    requires ListOk(Flatten(st.calls), h, true, restored) && NamedSlots(mem, st, h, images, true, restored)
    ensures Step(st, e).mem[h.original] ==
      ValueOr(LastPointer(mem, ImageSlots(e.image), h.Name()), st.mem[h.original])
  {
    assert st.calls != [] && Visited(st, e) == [e.image];
    SlotsOfOne(e.image);
    VariableCaught(mem, st, e, hs, h, images, restored);
    forall slot | slot in ImageSlots(e.image) && slot.name == Some(h.Name())
      ensures mem[slot.addr] == st.mem[slot.addr]
    {
      assert HasSlot(e.image, slot);
    }
    LastPointerSame(mem, st.mem, ImageSlots(e.image), h.Name());
  }

  lemma NewCaughtIsNotHook(mem: Memory, h: Interposer, images: set<Image>, img: Image, variable: Pointer)
    requires img in images && variable != h.replacement
    requires forall i, slot :: i in images && HasSlot(i, slot) && slot.name == Some(h.Name()) ==>
      mem[slot.addr] != h.replacement
    ensures Caught(LastPointer(mem, ImageSlots(img), h.Name()), None, variable) != h.replacement
  {
    SlotsOfOne(img);
    CaughtIsNotHook(mem, h, images, [img], None, variable);
  }

  lemma OldImageKept(mem: Memory, st: State, e: Event, hs: Hooks, h: Interposer, images: set<Image>,
                     inForce: bool, restored: Option<Pointer>)
    requires Setting(mem, hs, h, images) && GlobalStep(mem, st, e, images, hs.Originals())
    requires e.LoadImage? && e.image in images && (inForce ==> e.image in st.images)
    requires ListOk(Flatten(st.calls), h, inForce, restored) && NamedSlots(mem, st, h, images, inForce, restored)
    ensures Step(st, e).mem[h.original] == st.mem[h.original]
  {
    assert inForce ==> AllHooked(st, e, h) by {
      assert forall img :: img in Visited(st, e) ==> img == e.image;
    }
    VariableKept(mem, st, e, hs, h, images, inForce, restored);
  }

  lemma LoadStep(mem: Memory, st: State, e: Event, hs: Hooks, h: Interposer, images: set<Image>,
                 inForce: bool, variable: Pointer, restored: Option<Pointer>)
    requires Setting(mem, hs, h, images) && GlobalStep(mem, st, e, images, hs.Originals())
    requires e.LoadImage? && e.image in images && Follows(mem, st, hs, h, images, inForce, variable, restored)
    ensures Follows(mem, Step(st, e), hs, h, images, inForce,
                    if inForce && e.image !in st.images
                    then Caught(LastPointer(mem, ImageSlots(e.image), h.Name()), None, variable)
                    else variable, restored)
  {
    SlotsFollowList(mem, st, h, images, inForce, restored);
    if inForce && e.image !in st.images {
      NewImageCaught(mem, st, e, hs, h, images, restored);
      NewCaughtIsNotHook(mem, h, images, e.image, variable);
    } else {
      OldImageKept(mem, st, e, hs, h, images, inForce, restored);
    }
  }

  /** All actions, those without effect included. */
  lemma ActionStep(mem: Memory, hs: Hooks, h: Interposer, images: set<Image>, actions: seq<Action>, st: State)
    requires Setting(mem, hs, h, images) && actions != []
    requires var past, last := actions[..|actions| - 1], actions[|actions| - 1];
      && (last.Load? ==> last.image in images) && st.images == ImagesOf(past)
      && Proper(mem, After(st, EventOf(hs, st.mem, Taken(past), last)), images, hs.Originals())
      && Follows(mem, st, hs, h, images, InForce(past), Variable(mem, h, past), Restored(mem, h, past))
    ensures var past, last := actions[..|actions| - 1], actions[|actions| - 1];
      Follows(mem, After(st, EventOf(hs, st.mem, Taken(past), last)), hs, h, images,
              InForce(actions), Variable(mem, h, actions), Restored(mem, h, actions))
  {
    var past, last := actions[..|actions| - 1], actions[|actions| - 1];
    var e := EventOf(hs, st.mem, Taken(past), last);
    var inForce, variable, restored := InForce(past), Variable(mem, h, past), Restored(mem, h, past);
    if e.Some? {
      if last.Load? {
        LoadStep(mem, st, e.value, hs, h, images, inForce, variable, restored);
      } else if Allocated(last) {
        if last.Hook? {
          HookStep(mem, st, e.value, hs, h, images, inForce, variable, restored);
        } else {
          UnhookStep(mem, st, e.value, hs, h, images, inForce, variable, restored);
        }
      }
    }
  }

  /* ----- every run ----- */

  /** The state follows the history. */
  lemma {:induction false} RunFollows(mem: Memory, hs: Hooks, h: Interposer, images: set<Image>, actions: seq<Action>)
    requires Setting(mem, hs, h, images) && ActionsWithin(actions, images)
    ensures Follows(mem, Run(mem, Events(hs, mem, actions)), hs, h, images,
                    InForce(actions), Variable(mem, h, actions), Restored(mem, h, actions))
  {
    RunOfActionsIsProper(mem, hs, actions, images);
    if actions != [] {
      var past := actions[..|actions| - 1];
      RunFollows(mem, hs, h, images, past);
      ImagesOfRun(mem, hs, past);
      RunAction(hs, mem, actions);
      ActionStep(mem, hs, h, images, actions, Run(mem, Events(hs, mem, past)));
    }
  }

  /** In every run of hooks, unhooks and image loads, in any order, whatever allocations fail and whatever
      pointers images load with, what slots and variable hold is a function of the history. */
  lemma HooksInForce(mem: Memory, hs: Hooks, h: Interposer, images: set<Image>, actions: seq<Action>)
    requires Setting(mem, hs, h, images) && ActionsWithin(actions, images)
    ensures var st := ClientRun(hs, mem, actions).st;
      && (forall img, slot :: img in images && HasSlot(img, slot) && slot.name == Some(h.Name()) ==>
            st.mem[slot.addr] ==
              Held(mem, h, slot, img in ImagesOf(actions), InForce(actions), Restored(mem, h, actions)))
      && st.mem[h.original] == Variable(mem, h, actions)
  {
    ClientRunIsRun(hs, mem, actions);
    RunFollows(mem, hs, h, images, actions);
    ImagesOfRun(mem, hs, actions);
    SlotsFollowList(mem, Run(mem, Events(hs, mem, actions)), h, images, InForce(actions), Restored(mem, h, actions));
  }

  lemma OneMoreAction(past: seq<Action>, a: Action)
    ensures (past + [a])[..|past + [a]| - 1] == past && (past + [a])[|past + [a]| - 1] == a
  {
  }

  lemma UnhookEvent(mem: Memory, hs: Hooks, past: seq<Action>)
    requires Taken(past)
    ensures Events(hs, mem, past + [Unhook(true, true)]) ==
      Events(hs, mem, past) + [Register(hs.Restore(Run(mem, Events(hs, mem, past)).mem), true, true)]
  {
    OneMoreAction(past, Unhook(true, true));
  }

  /** `h` is one of the two hooks; nothing is assumed about what its function, its variable and the slots hold. */
  ghost predicate OneOf(hs: Hooks, h: Interposer, images: set<Image>)
  {
    (h == hs.setter || h == hs.remover) && hs.setter.Name() != hs.remover.Name() && NoAliasing(images, hs.Originals())
  }

  /** "Stop tracking" puts what the variable for the original holds in every loaded slot for the name. So a
      slot gets back its load-time pointer if and only if that is what the variable holds when unhooking. */
  lemma UnhookRestoresExactly(mem: Memory, hs: Hooks, h: Interposer, images: set<Image>,
                              past: seq<Action>, img: Image, slot: Slot)
    requires OneOf(hs, h, images) && ActionsWithin(past, images) && Taken(past)
    requires img in ImagesOf(past) && HasSlot(img, slot) && slot.name == Some(h.Name())
    ensures var before, after := ClientRun(hs, mem, past).st, ClientRun(hs, mem, past + [Unhook(true, true)]).st;
      && after.mem[slot.addr] == before.mem[h.original]
      && (after.mem[slot.addr] == mem[slot.addr] <==> before.mem[h.original] == mem[slot.addr])
  {
    var actions := past + [Unhook(true, true)];
    var now := Run(mem, Events(hs, mem, past)).mem;
    UnhookEvent(mem, hs, past);
    UnhookActionsWithin(past, images);
    EventsWithin(mem, hs, actions, images);
    ClientRunIsRun(hs, mem, past);
    ClientRunIsRun(hs, mem, actions);
    ImagesOfRun(mem, hs, actions);
    RunCallsAndImages(mem, Events(hs, mem, actions));
    FirstRestored([], hs, h, now);
    LaterCallWins(mem, Events(hs, mem, actions), images, hs.Originals(), img, slot, h.Restore(now));
  }

  lemma UnhookActionsWithin(past: seq<Action>, images: set<Image>)
    requires ActionsWithin(past, images)
    ensures ActionsWithin(past + [Unhook(true, true)], images)
    ensures ImagesOf(past + [Unhook(true, true)]) == ImagesOf(past)
  {
    OneMoreAction(past, Unhook(true, true));
  }

  /** Hooking again after that saves the same pointer again, whatever it is: the slots lead to the hook, and
      the hook has what the variable held before both. */
  lemma HookAgainExactly(mem: Memory, hs: Hooks, h: Interposer, images: set<Image>,
                         past: seq<Action>, img: Image, slot: Slot)
    requires Setting(mem, hs, h, images) && ActionsWithin(past, images) && Taken(past)
    requires img in ImagesOf(past) && img in images && HasSlot(img, slot) && slot.name == Some(h.Name())
    ensures var actions := past + [Unhook(true, true)] + [Hook(true, true)];
      var before, after := ClientRun(hs, mem, past).st, ClientRun(hs, mem, actions).st;
      && after.mem[slot.addr] == h.replacement
      && after.mem[h.original] == before.mem[h.original]
      && (after.mem[h.original] == mem[slot.addr] <==> before.mem[h.original] == mem[slot.addr])
  {
    var actions := past + [Unhook(true, true)] + [Hook(true, true)];
    HookAgainHistory(mem, h, past, images);
    HooksInForce(mem, hs, h, images, past);
    HookedSlot(mem, hs, h, images, actions, img, slot);
  }

  lemma HookedSlot(mem: Memory, hs: Hooks, h: Interposer, images: set<Image>, actions: seq<Action>, img: Image,
                   slot: Slot)
    requires Setting(mem, hs, h, images) && ActionsWithin(actions, images) && InForce(actions)
    requires img in ImagesOf(actions) && img in images && HasSlot(img, slot) && slot.name == Some(h.Name())
    ensures var st := ClientRun(hs, mem, actions).st;
      st.mem[slot.addr] == h.replacement && st.mem[h.original] == Variable(mem, h, actions)
  {
    HooksInForce(mem, hs, h, images, actions);
  }

  lemma HookAgainHistory(mem: Memory, h: Interposer, past: seq<Action>, images: set<Image>)
    requires Taken(past) && ActionsWithin(past, images)
    ensures var actions := past + [Unhook(true, true)] + [Hook(true, true)];
      && ActionsWithin(actions, images) && InForce(actions) && ImagesOf(actions) == ImagesOf(past)
      && Variable(mem, h, actions) == Variable(mem, h, past)
  {
    UnhookHistory(mem, h, past, images);
    HookHistory(mem, h, past + [Unhook(true, true)], images);
  }

  lemma UnhookHistory(mem: Memory, h: Interposer, past: seq<Action>, images: set<Image>)
    requires Taken(past) && ActionsWithin(past, images)
    ensures var actions := past + [Unhook(true, true)];
      && ActionsWithin(actions, images) && !InForce(actions) && ImagesOf(actions) == ImagesOf(past)
      && Variable(mem, h, actions) == Variable(mem, h, past)
      && Restored(mem, h, actions) == Some(Variable(mem, h, past))
  {
    OneMoreAction(past, Unhook(true, true));
  }

  lemma HookHistory(mem: Memory, h: Interposer, past: seq<Action>, images: set<Image>)
    requires !InForce(past) && ActionsWithin(past, images) && Restored(mem, h, past) == Some(Variable(mem, h, past))
    ensures var actions := past + [Hook(true, true)];
      && ActionsWithin(actions, images) && InForce(actions) && ImagesOf(actions) == ImagesOf(past)
      && Variable(mem, h, actions) == Variable(mem, h, past)
  {
    OneMoreAction(past, Hook(true, true));
  }

  /* ----- histories in which no original is lost ----- */

  /** At some time hooks were in force while a loaded image had a slot for the name. */
  ghost predicate Captured(actions: seq<Action>, name: seq<Byte>)
  {
    actions != [] &&
    (Captured(actions[..|actions| - 1], name) || (InForce(actions) && SomeSlot(ImagesOf(actions), name)))
  }

  /** Action `k` is an unhook that takes effect. */
  predicate Unhooks(actions: seq<Action>, k: nat)
    requires k < |actions|
  {
    actions[k].Unhook? && Allocated(actions[k]) && Taken(actions[..k])
  }

  /** No unhook takes effect before there is an original to go back to. */
  ghost predicate UnhooksAfterCapture(actions: seq<Action>, name: seq<Byte>)
  {
    forall k :: 0 <= k < |actions| && Unhooks(actions, k) ==> Captured(actions[..k], name)
  }

  lemma PastUnhooksAfterCapture(actions: seq<Action>, name: seq<Byte>)
    requires actions != [] && UnhooksAfterCapture(actions, name)
    ensures UnhooksAfterCapture(actions[..|actions| - 1], name)
  {
    var past := actions[..|actions| - 1];
    forall k | 0 <= k < |past| && Unhooks(past, k) ensures Captured(past[..k], name) {
      assert past[..k] == actions[..k] && Unhooks(actions, k);
    }
  }

  lemma MoreLoaded(mem: Memory, a: seq<Image>, b: seq<Image>, name: seq<Byte>, v: Pointer)
    requires IsOriginal(mem, a, name, v) && forall img :: img in a ==> img in b
    ensures IsOriginal(mem, b, name, v)
  {
    var img, slot :| img in a && HasSlot(img, slot) && slot.name == Some(name) && v == mem[slot.addr];
    assert img in b;
  }

  lemma LastPointerIsOriginal(mem: Memory, loaded: seq<Image>, name: seq<Byte>)
    ensures LastPointer(mem, SlotsOfAll(loaded), name).Some? <==> SomeSlot(loaded, name)
    ensures LastPointer(mem, SlotsOfAll(loaded), name).Some? ==>
      IsOriginal(mem, loaded, name, LastPointer(mem, SlotsOfAll(loaded), name).value)
  {
    var slots := SlotsOfAll(loaded);
    LastPointerExact(mem, slots, name);
    if LastPointer(mem, slots, name).Some? {
      var k: nat :| IsLastNamed(slots, name, k) && LastPointer(mem, slots, name).value == mem[slots[k].addr];
      SlotsOfAllExact(loaded, slots[k]);
      var img :| img in loaded && HasSlot(img, slots[k]);
      assert HasName(img, name);
    }
    if img :| img in loaded && HasName(img, name) {
      var slot :| HasSlot(img, slot) && slot.name == Some(name);
      SlotsOfAllExact(loaded, slot);
    }
  }

  ghost predicate Pointers(mem: Memory, h: Interposer, loaded: seq<Image>, v: Pointer)
  {
    v == mem[h.original] || IsOriginal(mem, loaded, h.Name(), v)
  }

  lemma CaughtOk(mem: Memory, h: Interposer, loaded: seq<Image>, restored: Option<Pointer>, variable: Pointer)
    requires Pointers(mem, h, loaded, variable) && (restored.Some? ==> Pointers(mem, h, loaded, restored.value))
    ensures var v := Caught(LastPointer(mem, SlotsOfAll(loaded), h.Name()), restored, variable);
      && Pointers(mem, h, loaded, v)
      && (SomeSlot(loaded, h.Name()) ==>
            if restored.Some? then v == restored.value else IsOriginal(mem, loaded, h.Name(), v))
      && (!SomeSlot(loaded, h.Name()) ==> v == variable)
  {
    LastPointerIsOriginal(mem, loaded, h.Name());
  }

  lemma ImagesStep(actions: seq<Action>, name: seq<Byte>)
    requires actions != []
    ensures var past, last := actions[..|actions| - 1], actions[|actions| - 1];
      && (forall img :: img in ImagesOf(past) ==> img in ImagesOf(actions))
      && (SomeSlot(ImagesOf(actions), name) <==>
            SomeSlot(ImagesOf(past), name) || (last.Load? && HasName(last.image, name)))
  {
    var past, last := actions[..|actions| - 1], actions[|actions| - 1];
    if last.Load? && HasName(last.image, name) {
      assert last.image in ImagesOf(actions);
    }
    if img :| img in ImagesOf(past) && HasName(img, name) {
      assert img in ImagesOf(actions);
    }
  }

  /** One more action, from values that are such pointers. */
  lemma OneMorePointers(mem: Memory, h: Interposer, actions: seq<Action>)
    requires actions != []
    requires var past := actions[..|actions| - 1];
      && Pointers(mem, h, ImagesOf(actions), Variable(mem, h, past))
      && (Restored(mem, h, past).Some? ==> Pointers(mem, h, ImagesOf(actions), Restored(mem, h, past).value))
    requires var past, last := actions[..|actions| - 1], actions[|actions| - 1];
      var caught := Caught(LastPointer(mem, SlotsOfAll(ImagesOf(past)), h.Name()), Restored(mem, h, past),
                           Variable(mem, h, past));
      last.Hook? ==> Pointers(mem, h, ImagesOf(actions), caught)
    requires var past, last := actions[..|actions| - 1], actions[|actions| - 1];
      last.Load? ==>
        Pointers(mem, h, ImagesOf(actions),
                 Caught(LastPointer(mem, ImageSlots(last.image), h.Name()), None, Variable(mem, h, past)))
    ensures Pointers(mem, h, ImagesOf(actions), Variable(mem, h, actions))
    ensures Restored(mem, h, actions).Some? ==> Pointers(mem, h, ImagesOf(actions), Restored(mem, h, actions).value)
  {
  }

  /** What the variable holds, and what an unhook restores, is the variable's initial value or a pointer that a
      slot for the name was loaded with. */
  lemma {:induction false} OnlyPointersOfTheName(mem: Memory, h: Interposer, actions: seq<Action>)
    ensures Pointers(mem, h, ImagesOf(actions), Variable(mem, h, actions))
    ensures Restored(mem, h, actions).Some? ==> Pointers(mem, h, ImagesOf(actions), Restored(mem, h, actions).value)
  {
    if actions != [] {
      var past, last := actions[..|actions| - 1], actions[|actions| - 1];
      OnlyPointersOfTheName(mem, h, past);
      ImagesStep(actions, h.Name());
      PointersMore(mem, h, ImagesOf(past), ImagesOf(actions), Variable(mem, h, past));
      if Restored(mem, h, past).Some? {
        PointersMore(mem, h, ImagesOf(past), ImagesOf(actions), Restored(mem, h, past).value);
      }
      if last.Hook? {
        CaughtOk(mem, h, ImagesOf(past), Restored(mem, h, past), Variable(mem, h, past));
      } else if last.Load? {
        NewImagePointers(mem, h, ImagesOf(actions), last.image, Variable(mem, h, past));
      }
      OneMorePointers(mem, h, actions);
    }
  }

  lemma PointersMore(mem: Memory, h: Interposer, a: seq<Image>, b: seq<Image>, v: Pointer)
    requires Pointers(mem, h, a, v) && forall img :: img in a ==> img in b
    ensures Pointers(mem, h, b, v)
    ensures IsOriginal(mem, a, h.Name(), v) ==> IsOriginal(mem, b, h.Name(), v)
  {
    if IsOriginal(mem, a, h.Name(), v) {
      MoreLoaded(mem, a, b, h.Name(), v);
    }
  }

  lemma NewImagePointers(mem: Memory, h: Interposer, loaded: seq<Image>, img: Image, variable: Pointer)
    requires img in loaded && Pointers(mem, h, loaded, variable)
    ensures var v := Caught(LastPointer(mem, ImageSlots(img), h.Name()), None, variable);
      && Pointers(mem, h, loaded, v)
      && (if HasName(img, h.Name()) then IsOriginal(mem, loaded, h.Name(), v) else v == variable)
  {
    SlotsOfOne(img);
    LastPointerIsOriginal(mem, [img], h.Name());
    assert SomeSlot([img], h.Name()) <==> HasName(img, h.Name()) by {
      assert img in [img];
    }
    if LastPointer(mem, ImageSlots(img), h.Name()).Some? {
      MoreLoaded(mem, [img], loaded, h.Name(), LastPointer(mem, ImageSlots(img), h.Name()).value);
    }
  }

  /** If no unhook takes effect before an original is captured, the variable holds a load-time pointer for the
      name as soon as one is, and no unhook puts anything else in slots. */
  lemma {:induction false} CapturedIsKept(mem: Memory, h: Interposer, actions: seq<Action>)
    requires UnhooksAfterCapture(actions, h.Name())
    ensures if Captured(actions, h.Name()) then IsOriginal(mem, ImagesOf(actions), h.Name(), Variable(mem, h, actions))
            else Variable(mem, h, actions) == mem[h.original]
    ensures Restored(mem, h, actions).Some? ==>
      IsOriginal(mem, ImagesOf(actions), h.Name(), Restored(mem, h, actions).value)
  {
    if actions != [] {
      var n := |actions| - 1;
      var past, last := actions[..n], actions[n];
      var v, r := Variable(mem, h, past), Restored(mem, h, past);
      PastUnhooksAfterCapture(actions, h.Name());
      CapturedIsKept(mem, h, past);
      assert Unhooks(actions, n) ==> Captured(past, h.Name());
      ImagesStep(actions, h.Name());
      OnlyPointersOfTheName(mem, h, past);
      PointersMore(mem, h, ImagesOf(past), ImagesOf(actions), v);
      if r.Some? {
        PointersMore(mem, h, ImagesOf(past), ImagesOf(actions), r.value);
      }
      if last.Hook? {
        CaughtOk(mem, h, ImagesOf(past), r, v);
      } else if last.Load? {
        NewImagePointers(mem, h, ImagesOf(actions), last.image, v);
      }
    }
  }

  /** So then a loaded slot for the name holds the hook while hooks are in force; otherwise it holds its own
      load-time pointer, or that of another such slot once there has been an unhook. And whenever a slot leads
      to the hook, there is a load-time pointer for the name for it to call. */
  lemma HooksAfterCapture(mem: Memory, hs: Hooks, h: Interposer, images: set<Image>, actions: seq<Action>,
                          img: Image, slot: Slot)
    requires Setting(mem, hs, h, images) && ActionsWithin(actions, images) && UnhooksAfterCapture(actions, h.Name())
    requires img in images && HasSlot(img, slot) && slot.name == Some(h.Name())
    ensures var st := ClientRun(hs, mem, actions).st;
      && (if img in ImagesOf(actions) && InForce(actions)
          then st.mem[slot.addr] == h.replacement && IsOriginal(mem, ImagesOf(actions), h.Name(), st.mem[h.original])
          else st.mem[slot.addr] == mem[slot.addr] || IsOriginal(mem, ImagesOf(actions), h.Name(), st.mem[slot.addr]))
      && (if Captured(actions, h.Name()) then IsOriginal(mem, ImagesOf(actions), h.Name(), st.mem[h.original])
          else st.mem[h.original] == mem[h.original])
  {
    HooksInForce(mem, hs, h, images, actions);
    CapturedIsKept(mem, h, actions);
    if img in ImagesOf(actions) && InForce(actions) {
      assert HasName(img, h.Name()) && SomeSlot(ImagesOf(actions), h.Name());
    }
  }

  /* ----- names that stand for one function ----- */

  /** Every slot for the name holds `o` when loaded. */
  ghost predicate OneFunction(mem: Memory, h: Interposer, images: set<Image>, o: Pointer)
  {
    forall img, slot :: img in images && HasSlot(img, slot) && slot.name == Some(h.Name()) ==> mem[slot.addr] == o
  }

  lemma OriginalIsOne(mem: Memory, h: Interposer, images: set<Image>, o: Pointer, actions: seq<Action>, v: Pointer)
    requires OneFunction(mem, h, images, o) && ActionsWithin(actions, images)
    requires IsOriginal(mem, ImagesOf(actions), h.Name(), v)
    ensures v == o
  {
    LoadedWithin(actions, images);
  }

  lemma {:induction false} LoadedWithin(actions: seq<Action>, images: set<Image>)
    requires ActionsWithin(actions, images)
    ensures AllIn(ImagesOf(actions), images)
  {
    if actions != [] {
      LoadedWithin(actions[..|actions| - 1], images);
    }
  }

  /** For such names, after any history: slots and variable hold the hook, `o`, or the variable's initial value,
      and an unhook restores the original if and only if the variable does not hold its initial value. */
  lemma OneFunctionUnhook(mem: Memory, hs: Hooks, h: Interposer, images: set<Image>, o: Pointer,
                          past: seq<Action>, img: Image, slot: Slot)
    requires Setting(mem, hs, h, images) && OneFunction(mem, h, images, o) && o != mem[h.original]
    requires ActionsWithin(past, images) && Taken(past)
    requires img in ImagesOf(past) && img in images && HasSlot(img, slot) && slot.name == Some(h.Name())
    ensures var before, after := ClientRun(hs, mem, past).st, ClientRun(hs, mem, past + [Unhook(true, true)]).st;
      && (after.mem[slot.addr] == o <==> before.mem[h.original] != mem[h.original])
      && (after.mem[slot.addr] == o || after.mem[slot.addr] == mem[h.original])
  {
    UnhookRestoresExactly(mem, hs, h, images, past, img, slot);
    HooksInForce(mem, hs, h, images, past);
    OnlyPointersOfTheName(mem, h, past);
    if IsOriginal(mem, ImagesOf(past), h.Name(), Variable(mem, h, past)) {
      OriginalIsOne(mem, h, images, o, past, Variable(mem, h, past));
    }
  }

  /** And while no unhook takes effect before capture, all is well: hooks in force call the original, and
      without them slots hold it. */
  lemma OneFunctionAfterCapture(mem: Memory, hs: Hooks, h: Interposer, images: set<Image>, o: Pointer,
                                actions: seq<Action>, img: Image, slot: Slot)
    requires Setting(mem, hs, h, images) && OneFunction(mem, h, images, o)
    requires ActionsWithin(actions, images) && UnhooksAfterCapture(actions, h.Name())
    requires img in images && HasSlot(img, slot) && slot.name == Some(h.Name())
    ensures var st := ClientRun(hs, mem, actions).st;
      if img in ImagesOf(actions) && InForce(actions)
      then st.mem[slot.addr] == h.replacement && st.mem[h.original] == o
      else st.mem[slot.addr] == o
  {
    var st := ClientRun(hs, mem, actions).st;
    HooksAfterCapture(mem, hs, h, images, actions, img, slot);
    if IsOriginal(mem, ImagesOf(actions), h.Name(), st.mem[h.original]) {
      OriginalIsOne(mem, h, images, o, actions, st.mem[h.original]);
    }
    if IsOriginal(mem, ImagesOf(actions), h.Name(), st.mem[slot.addr]) {
      OriginalIsOne(mem, h, images, o, actions, st.mem[slot.addr]);
    }
  }

  /* ----- histories in which hooking has failed ----- */

  /** Every hook failed to allocate, and no unhook took effect. */
  predicate OnlyFailedHooks(actions: seq<Action>)
  {
    forall k :: 0 <= k < |actions| ==> (actions[k].Hook? ==> !Allocated(actions[k])) && !Unhooks(actions, k)
  }

  lemma {:induction false} NothingCaught(mem: Memory, h: Interposer, actions: seq<Action>)
    requires OnlyFailedHooks(actions)
    ensures !InForce(actions) && Variable(mem, h, actions) == mem[h.original]
  {
    if actions != [] {
      var past := actions[..|actions| - 1];
      forall k | 0 <= k < |past| ensures (past[k].Hook? ==> !Allocated(past[k])) && !Unhooks(past, k) {
        assert past[..k] == actions[..k] && !Unhooks(actions, k);
      }
      NothingCaught(mem, h, past);
      assert !Unhooks(actions, |past|);
    }
  }

  /** Hooking that fails for want of memory still counts as taken: after it, the first unhook puts the
      variable's initial value, which is NULL for a C static, in every loaded slot for the name, and hooking
      again leaves the hook with nothing else to call. */
  lemma UnhookAfterFailedHooks(mem: Memory, hs: Hooks, h: Interposer, images: set<Image>,
                               past: seq<Action>, img: Image, slot: Slot)
    requires Setting(mem, hs, h, images) && ActionsWithin(past, images) && Taken(past) && OnlyFailedHooks(past)
    requires img in ImagesOf(past) && img in images && HasSlot(img, slot) && slot.name == Some(h.Name())
    ensures ClientRun(hs, mem, past + [Unhook(true, true)]).st.mem[slot.addr] == mem[h.original]
    ensures var again := ClientRun(hs, mem, past + [Unhook(true, true)] + [Hook(true, true)]).st;
      again.mem[slot.addr] == h.replacement && again.mem[h.original] == mem[h.original]
  {
    NothingCaught(mem, h, past);
    HooksInForce(mem, hs, h, images, past);
    UnhookRestoresExactly(mem, hs, h, images, past, img, slot);
    HookAgainExactly(mem, hs, h, images, past, img, slot);
  }

  /* ----- images that load different pointers ----- */

  lemma NextImages(past: seq<Action>, a: Action)
    ensures ImagesOf(past + [a]) == if a.Load? then ImagesOf(past) + [a.image] else ImagesOf(past)
    ensures Taken(past + [a]) <==> a.Hook? || Taken(past)
    ensures InForce(past + [a]) == NextInForce(InForce(past), Taken(past), a)
  {
    OneMoreAction(past, a);
    TakenStep(past + [a]);
  }

  lemma NextVariable(mem: Memory, h: Interposer, past: seq<Action>, a: Action)
    ensures a.Load? && !InForce(past) ==> Variable(mem, h, past + [a]) == Variable(mem, h, past)
    ensures a.Hook? && Allocated(a) && !InForce(past) ==>
      Variable(mem, h, past + [a]) ==
        Caught(LastPointer(mem, SlotsOfAll(ImagesOf(past)), h.Name()), Restored(mem, h, past), Variable(mem, h, past))
    ensures !a.Unhook? ==> Restored(mem, h, past + [a]) == Restored(mem, h, past)
  {
    OneMoreAction(past, a);
  }

  /** The first time that hooking and unhooking take effect, the last of the loaded slots for the name decides:
      every one of them is left with its load-time pointer, and so gets back its own if and only if they agree. */
  lemma FirstUnhookExactly(mem: Memory, hs: Hooks, h: Interposer, images: set<Image>, past: seq<Action>,
                           img: Image, slot: Slot)
    requires Setting(mem, hs, h, images) && ActionsWithin(past, images)
    requires !InForce(past) && Restored(mem, h, past) == None
    requires img in ImagesOf(past) && img in images && HasSlot(img, slot) && slot.name == Some(h.Name())
    ensures var last := LastPointer(mem, SlotsOfAll(ImagesOf(past)), h.Name());
      var st := ClientRun(hs, mem, past + [Hook(true, true)] + [Unhook(true, true)]).st;
      && last == Some(st.mem[slot.addr])
      && (st.mem[slot.addr] == mem[slot.addr] <==> last == Some(mem[slot.addr]))
  {
    var hooked := past + [Hook(true, true)];
    NextImages(past, Hook(true, true));
    NextVariable(mem, h, past, Hook(true, true));
    LastPointerIsOriginal(mem, ImagesOf(past), h.Name());
    assert HasName(img, h.Name()) && SomeSlot(ImagesOf(past), h.Name());
    HookActionsWithin(past, images);
    HooksInForce(mem, hs, h, images, hooked);
    UnhookRestoresExactly(mem, hs, h, images, hooked, img, slot);
  }

  lemma HookActionsWithin(past: seq<Action>, images: set<Image>)
    requires ActionsWithin(past, images)
    ensures ActionsWithin(past + [Hook(true, true)], images)
  {
    OneMoreAction(past, Hook(true, true));
  }

  /** So with two images whose slots load different pointers, unhooking gives the first image that of the second,
      although the variable is not NULL and the original was captured before. */
  lemma UnhookMixesImages(mem: Memory, hs: Hooks, h: Interposer, images: set<Image>, a: Image, b: Image,
                          first: Slot, second: Slot)
    requires Setting(mem, hs, h, images) && a in images && b in images && a != b
    requires ImageSlots(a) == [first] && ImageSlots(b) == [second]
    requires first.name == Some(h.Name()) && second.name == Some(h.Name())
    ensures var hooked := [] + [Load(a)] + [Load(b)] + [Hook(true, true)];
      var st := ClientRun(hs, mem, hooked + [Unhook(true, true)]).st;
      && st.mem[first.addr] == mem[second.addr]
      && ClientRun(hs, mem, hooked).st.mem[h.original] == mem[second.addr] && Captured(hooked, h.Name())
  {
    var past := [] + [Load(a)] + [Load(b)];
    TwoLoads(mem, h, a, b, first, second);
    TwoLoadsWithin(a, b, images);
    assert HasSlot(a, first) && a in ImagesOf(past);
    FirstUnhookExactly(mem, hs, h, images, past, a, first);
    NextImages(past, Hook(true, true));
    NextVariable(mem, h, past, Hook(true, true));
    OneMoreAction(past, Hook(true, true));
    assert HasName(a, h.Name()) && SomeSlot(ImagesOf(past), h.Name());
    HookActionsWithin(past, images);
    HooksInForce(mem, hs, h, images, past + [Hook(true, true)]);
  }

  lemma TwoLoadsWithin(a: Image, b: Image, images: set<Image>)
    requires a in images && b in images
    ensures ActionsWithin([] + [Load(a)] + [Load(b)], images)
  {
  }

  lemma TwoLoads(mem: Memory, h: Interposer, a: Image, b: Image, first: Slot, second: Slot)
    requires a != b && ImageSlots(a) == [first] && ImageSlots(b) == [second] && second.name == Some(h.Name())
    ensures var past := [] + [Load(a)] + [Load(b)];
      && ImagesOf(past) == [a, b] && !InForce(past) && Restored(mem, h, past) == None
      && LastPointer(mem, SlotsOfAll(ImagesOf(past)), h.Name()) == Some(mem[second.addr])
  {
    var one := [] + [Load(a)];
    NextImages([], Load(a));
    NextVariable(mem, h, [], Load(a));
    NextImages(one, Load(b));
    NextVariable(mem, h, one, Load(b));
    SlotsOfTwo(a, b);
    assert [] + [a] + [b] == [a, b];
    assert ([first] + [second])[1] == second;
  }

  lemma SlotsOfTwo(a: Image, b: Image)
    requires a != b
    ensures SlotsOfAll([a, b]) == ImageSlots(a) + ImageSlots(b)
  {
    assert [a, b][..1] == [a] && [a][..0] == [];
    assert FirstVisits([a]) == [] + [a] == [a];
    assert FirstVisits([a, b]) == [a] + [b] == [a, b];
    assert AllSlots([]) == [] && AllSlots([a]) == [] + ImageSlots(a) == ImageSlots(a);
  }
}
