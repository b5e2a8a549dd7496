/** Runs that also rebind single images. */
module SingleImage {
  import opened CStrings
  import opened MachO
  import opened Binding
  import opened Protocol
  import opened Runs
  import opened Wrappers

  /** A single-image call applies its own array to its image, and changes nothing else that the engine
      keeps: not the global list, not the callback, not another image's slots. If an allocation fails
      it changes nothing. */
  lemma SingleImageIsolation(st: State, e: Event, images: set<Image>, cells: set<Address>)
    requires e.RebindImage? && EventWithin(e, images, cells) && NoAliasing(images, cells)
    ensures Step(st, e).(mem := st.mem) == st
    ensures !Succeeds(e) ==> Step(st, e) == st
    ensures Succeeds(e) ==> forall img, slot :: img in images && HasSlot(img, slot) ==>
      Step(st, e).mem[slot.addr] ==
        if img == e.image then Bound(e.rebindings, slot.name, st.mem[slot.addr]) else st.mem[slot.addr]
  {
    SlotsAfterImage(st.mem, e.rebindings, e.image, images, cells);
  }

  /** The list with which an event makes a pass over an image, after the events `before`. */
  ghost function PassOf(before: seq<Event>, e: Event, img: Image): seq<Rebinding>
  {
    if !Succeeds(e) then []
    else match e
      case Register(call, _, _) => if img in Loaded(before) then call + Flatten(Registrations(before)) else []
      case LoadImage(loaded) => if loaded == img then Flatten(Registrations(before)) else []
      case RebindImage(target, call, _, _) => if target == img then call else []
  }

  /** The lists of all passes made over an image, newest pass first. */
  ghost function Passes(events: seq<Event>, img: Image): seq<Rebinding>
  {
    if events == [] then []
    else
      var before := events[..|events| - 1];
      PassOf(before, events[|events| - 1], img) + Passes(before, img)
  }

  lemma StepBindsWithPass(mem: Memory, before: seq<Event>, e: Event, images: set<Image>, cells: set<Address>)
    requires Within(before, images, cells) && EventWithin(e, images, cells)
    ensures forall img, slot :: img in images && HasSlot(img, slot) ==>
      Step(Run(mem, before), e).mem[slot.addr] ==
        Bound(PassOf(before, e, img), slot.name, Run(mem, before).mem[slot.addr])
  {
    var st := Run(mem, before);
    RunWithin(mem, before, images, cells);
    RunCallsAndImages(mem, before);
    match e
    case Register(call, _, _) =>
      if Succeeds(e) {
        assert Flatten([call] + st.calls) == call + Flatten(st.calls);
        CellsConcat(call, Flatten(st.calls));
        SlotsAfterImages(st.mem, call + Flatten(st.calls), st.images, images, cells);
      }
    case LoadImage(img) =>
      CallbackRegisteredOnce(mem, before);
      assert Notify(st.mem, Flatten(st.calls), img, 0) == st.mem;
      SlotsAfterImage(st.mem, Flatten(st.calls), img, images, cells);
    case RebindImage(img, call, _, _) =>
      SlotsAfterImage(st.mem, call, img, images, cells);
  }

  /** In every run, each slot holds the replacement that the latest matching pass over its image gave
      its name, or its load-time pointer if no pass had a match. */
  lemma {:induction false} EverySlotHoldsItsLatestMatch(mem: Memory, events: seq<Event>, images: set<Image>,
                                                        cells: set<Address>)
    requires Within(events, images, cells)
    ensures forall img, slot :: img in images && HasSlot(img, slot) ==>
      Run(mem, events).mem[slot.addr] == Bound(Passes(events, img), slot.name, mem[slot.addr])
  {
    if events != [] {
      var n := |events| - 1;
      EverySlotHoldsItsLatestMatch(mem, events[..n], images, cells);
      StepBindsWithPass(mem, events[..n], events[n], images, cells);
      forall img, slot | img in images && HasSlot(img, slot)
        ensures Run(mem, events).mem[slot.addr] == Bound(Passes(events, img), slot.name, mem[slot.addr])
      {
        BoundConcat(PassOf(events[..n], events[n], img), Passes(events[..n], img), slot.name, mem[slot.addr]);
      }
    }
  }

  /** Every loaded slot for which the list has a match got that match's replacement from its latest matching
      pass. */
  ghost predicate BoundByList(mem: Memory, events: seq<Event>, list: seq<Rebinding>, loaded: seq<Image>)
  {
    forall img, slot :: img in loaded && HasSlot(img, slot) && Binder(list, slot.name).Some? ==>
      Bound(Passes(events, img), slot.name, mem[slot.addr]) == Binder(list, slot.name).value.replacement
  }

  ghost predicate SlotsSettled(mem: Memory, list: seq<Rebinding>, visited: seq<Image>)
  {
    forall img, slot :: img in visited && HasSlot(img, slot) ==>
      mem[slot.addr] == Bound(list, slot.name, mem[slot.addr])
  }

  lemma UnchangedIsSettled(mem: Memory, list: seq<Rebinding>, visited: seq<Image>, images: set<Image>,
                           cells: set<Address>)
    requires NoAliasing(images, cells) && Cells(list) <= cells && AllIn(visited, images)
    ensures BindImages(mem, list, visited) == mem <==> SlotsSettled(mem, list, visited)
  {
    SlotsAfterImages(mem, list, visited, images, cells);
    if SlotsSettled(mem, list, visited) {
      forall img | img in visited ensures Settled(mem, list, ImageSlots(img)) {
        assert forall k :: 0 <= k < |ImageSlots(img)| ==> HasSlot(img, ImageSlots(img)[k]);
      }
      SettledImagesUnchanged(mem, list, visited);
    }
  }

  lemma SettledIsBoundByList(mem: Memory, events: seq<Event>, images: set<Image>, cells: set<Address>,
                             list: seq<Rebinding>, loaded: seq<Image>)
    requires Within(events, images, cells) && AllIn(loaded, images)
    ensures SlotsSettled(Run(mem, events).mem, list, loaded) <==> BoundByList(mem, events, list, loaded)
  {
    EverySlotHoldsItsLatestMatch(mem, events, images, cells);
  }

  /** In any run, another pass with the global list changes nothing if and only if all loaded slots are
      bound by the list. */
  lemma AnotherPassChangesNothingExactly(mem: Memory, events: seq<Event>, images: set<Image>, cells: set<Address>)
    requires Within(events, images, cells)
    ensures var st := Run(mem, events);
      BindImages(st.mem, Flatten(st.calls), st.images) == st.mem <==>
        BoundByList(mem, events, Flatten(st.calls), st.images)
  {
    var st := Run(mem, events);
    RunWithin(mem, events, images, cells);
    SettledIsBoundByList(mem, events, images, cells, Flatten(st.calls), st.images);
    UnchangedIsSettled(st.mem, Flatten(st.calls), st.images, images, cells);
  }

  /* ----- saved pointers in any run ----- */

  /** The entries of all successful calls, global or not, newest call first. */
  function Entries(events: seq<Event>): seq<Rebinding>
  {
    if events == [] then []
    else
      var before, last := Entries(events[..|events| - 1]), events[|events| - 1];
      if Succeeds(last) && !last.LoadImage? then last.rebindings + before else before
  }

  lemma {:induction false} RegisteredAreEntries(events: seq<Event>, x: Rebinding)
    requires x in Flatten(Registrations(events))
    ensures x in Entries(events)
  {
    var before, last := events[..|events| - 1], events[|events| - 1];
    if last.Register? && Succeeds(last) {
      assert Flatten([last.rebindings] + Registrations(before)) == last.rebindings + Flatten(Registrations(before));
    }
    if x in Flatten(Registrations(before)) {
      RegisteredAreEntries(before, x);
    }
  }

  lemma {:induction false} PassesAreOfEntries(events: seq<Event>, img: Image, x: Rebinding)
    requires x in Passes(events, img)
    ensures x in Entries(events)
  {
    var before, last := events[..|events| - 1], events[|events| - 1];
    if x in Passes(before, img) {
      PassesAreOfEntries(before, img, x);
    } else if x in Flatten(Registrations(before)) {
      RegisteredAreEntries(before, x);
    }
  }

  /** `v` is a load-time pointer of a slot for the name, or the replacement of an entry for it. */
  ghost predicate ForName(mem: Memory, images: set<Image>, entries: seq<Rebinding>, name: seq<Byte>, v: Pointer)
  {
    || (exists img, slot :: img in images && HasSlot(img, slot) && slot.name == Some(name) && v == mem[slot.addr])
    || (exists x :: x in entries && x.Name() == name && v == x.replacement)
  }

  lemma SlotIsForName(mem: Memory, events: seq<Event>, images: set<Image>, cells: set<Address>, img: Image, slot: Slot)
    requires Within(events, images, cells) && img in images && HasSlot(img, slot) && slot.name.Some?
    ensures ForName(mem, images, Entries(events), slot.name.value, Run(mem, events).mem[slot.addr])
  {
    EverySlotHoldsItsLatestMatch(mem, events, images, cells);
    FirstMatchMember(Passes(events, img), slot.name.value);
    if Binder(Passes(events, img), slot.name).Some? {
      PassesAreOfEntries(events, img, Binder(Passes(events, img), slot.name).value);
    }
  }

  /** A cell is used for one name. */
  ghost predicate UsedFor(entries: seq<Rebinding>, cell: Address, name: seq<Byte>)
  {
    forall x :: x in entries && x.replaced == Some(cell) ==> x.Name() == name
  }

  lemma PassSavesForName(mem: Memory, before: seq<Event>, list: seq<Rebinding>, visited: seq<Image>,
                         images: set<Image>, cells: set<Address>, cell: Address, name: seq<Byte>, v: Pointer)
    requires Within(before, images, cells) && AllIn(visited, images) && UsedFor(list, cell, name)
    requires SavesIn(Run(mem, before).mem, list, visited, cell, v)
    ensures ForName(mem, images, Entries(before), name, v)
  {
    var now := Run(mem, before).mem;
    var img, slot :| img in visited && HasSlot(img, slot) && Saves(now, list, slot, cell) && v == now[slot.addr];
    FirstMatchMember(list, slot.name.value);
    SlotIsForName(mem, before, images, cells, img, slot);
  }

  /** The list and the images of the pass that an event makes, if any. */
  ghost function PassList(st: State, e: Event): seq<Rebinding>
  {
    match e
    case Register(call, _, _) => call + Flatten(st.calls)
    case LoadImage(_) => Flatten(st.calls)
    case RebindImage(_, call, _, _) => call
  }

  ghost function PassImages(st: State, e: Event): seq<Image>
  {
    match e
    case Register(_, _, _) => if Succeeds(e) then st.images else []
    case LoadImage(img) => if st.calls != [] then [img] else []
    case RebindImage(img, _, _, _) => if Succeeds(e) then [img] else []
  }

  lemma EveryStepIsPass(mem: Memory, before: seq<Event>, e: Event)
    ensures var st := Run(mem, before);
      Step(st, e).mem == BindImages(st.mem, PassList(st, e), PassImages(st, e))
  {
    var st := Run(mem, before);
    CallbackRegisteredOnce(mem, before);
    match e
    case Register(call, _, _) => assert Flatten([call] + st.calls) == call + Flatten(st.calls);
    case LoadImage(img) =>
      assert Notify(st.mem, Flatten(st.calls), img, 0) == st.mem;
      assert [img][..0] == [];
    case RebindImage(img, _, _, _) => assert [img][..0] == [];
  }

  lemma EntriesOfOneMore(before: seq<Event>, e: Event)
    ensures Entries(before + [e]) ==
      if Succeeds(e) && !e.LoadImage? then e.rebindings + Entries(before) else Entries(before)
  {
    assert (before + [e])[..|before|] == before;
  }

  lemma PassListIsOfEntries(mem: Memory, before: seq<Event>, e: Event, events: seq<Event>, x: Rebinding)
    requires events == before + [e] && PassImages(Run(mem, before), e) != []
    requires x in PassList(Run(mem, before), e)
    ensures x in Entries(events)
  {
    EntriesOfOneMore(before, e);
    RunCalls(mem, before);
    if x in Flatten(Registrations(before)) {
      RegisteredAreEntries(before, x);
    }
  }

  lemma PassUsedFor(mem: Memory, before: seq<Event>, e: Event, events: seq<Event>, cell: Address, name: seq<Byte>)
    requires events == before + [e] && PassImages(Run(mem, before), e) != []
    requires UsedFor(Entries(events), cell, name)
    ensures UsedFor(PassList(Run(mem, before), e), cell, name)
  {
    forall x | x in PassList(Run(mem, before), e) && x.replaced == Some(cell) ensures x.Name() == name {
      PassListIsOfEntries(mem, before, e, events, x);
    }
  }

  lemma MoreEntries(mem: Memory, images: set<Image>, before: seq<Event>, events: seq<Event>, name: seq<Byte>,
                    v: Pointer)
    requires events != [] && before == events[..|events| - 1] && ForName(mem, images, Entries(before), name, v)
    ensures ForName(mem, images, Entries(events), name, v)
  {
    assert forall x :: x in Entries(before) ==> x in Entries(events);
  }

  /** An event that changes a cell saves through it. */
  lemma ChangedCellIsSaved(mem: Memory, before: seq<Event>, e: Event, images: set<Image>, cells: set<Address>,
                           cell: Address)
    requires Within(before, images, cells) && EventWithin(e, images, cells) && cell in cells
    ensures var st := Run(mem, before);
      var now := Step(st, e).mem[cell];
      now == st.mem[cell] || SavesIn(st.mem, PassList(st, e), PassImages(st, e), cell, now)
  {
    var st := Run(mem, before);
    EveryStepIsPass(mem, before, e);
    PassWithin(mem, before, e, images, cells);
    CellsAfterImages(st.mem, PassList(st, e), PassImages(st, e), images, cells, cell);
  }

  lemma SavedForName(mem: Memory, before: seq<Event>, e: Event, events: seq<Event>, images: set<Image>,
                     cells: set<Address>, cell: Address, name: seq<Byte>)
    requires Within(before, images, cells) && EventWithin(e, images, cells) && events == before + [e]
    requires UsedFor(Entries(events), cell, name)
    requires var st := Run(mem, before);
      SavesIn(st.mem, PassList(st, e), PassImages(st, e), cell, Step(st, e).mem[cell])
    ensures ForName(mem, images, Entries(before), name, Step(Run(mem, before), e).mem[cell])
  {
    var st := Run(mem, before);
    PassUsedFor(mem, before, e, events, cell, name);
    PassWithin(mem, before, e, images, cells);
    PassSavesForName(mem, before, PassList(st, e), PassImages(st, e), images, cells, cell, name,
                     Step(st, e).mem[cell]);
  }

  /** One more event. */
  lemma CellStaysWithItsName(mem: Memory, events: seq<Event>, images: set<Image>, cells: set<Address>, cell: Address,
                             name: seq<Byte>)
    requires events != [] && Within(events, images, cells) && cell in cells && UsedFor(Entries(events), cell, name)
    ensures var before := events[..|events| - 1];
      var now := Run(mem, events).mem[cell];
      now == Run(mem, before).mem[cell] || ForName(mem, images, Entries(before), name, now)
  {
    var n := |events| - 1;
    var before, e := events[..n], events[n];
    assert events == before + [e];
    ChangedCellIsSaved(mem, before, e, images, cells, cell);
    if Run(mem, events).mem[cell] != Run(mem, before).mem[cell] {
      SavedForName(mem, before, e, events, images, cells, cell, name);
    }
  }

  /** In every run, single-image calls included: a cell that is used for one name holds its initial value or
      a pointer for that name, so following hooks never leaves the name even where it never ends. */
  lemma {:induction false} CellsStayWithTheirName(mem: Memory, events: seq<Event>, images: set<Image>,
                                                  cells: set<Address>,
                                                  cell: Address, name: seq<Byte>)
    requires Within(events, images, cells) && cell in cells && UsedFor(Entries(events), cell, name)
    ensures var v := Run(mem, events).mem[cell];
      v == mem[cell] || ForName(mem, images, Entries(events), name, v)
  {
    if events != [] {
      var before := events[..|events| - 1];
      FewerEntries(events);
      CellsStayWithTheirName(mem, before, images, cells, cell, name);
      CellStaysWithItsName(mem, events, images, cells, cell, name);
      if ForName(mem, images, Entries(before), name, Run(mem, events).mem[cell]) {
        MoreEntries(mem, images, before, events, name, Run(mem, events).mem[cell]);
      }
    }
  }

  lemma FewerEntries(events: seq<Event>)
    requires events != []
    ensures forall x :: x in Entries(events[..|events| - 1]) ==> x in Entries(events)
  {
  }

  /** In every run, cells that no successful call has passed keep their initial values. */
  lemma {:induction false} UnusedCellsKeepInitialValue(mem: Memory, events: seq<Event>, images: set<Image>,
                                                       cells: set<Address>, cell: Address)
    requires Within(events, images, cells) && cell in cells && cell !in Cells(Entries(events))
    ensures Run(mem, events).mem[cell] == mem[cell]
  {
    if events != [] {
      var n := |events| - 1;
      var before, e := events[..n], events[n];
      assert events == before + [e];
      FewerCells(before, e);
      UnusedCellsKeepInitialValue(mem, before, images, cells, cell);
      ChangedCellIsSaved(mem, before, e, images, cells, cell);
      UnusedNotSaved(mem, before, e, cell, Step(Run(mem, before), e).mem[cell]);
    }
  }

  lemma FewerCells(before: seq<Event>, e: Event)
    ensures Cells(Entries(before)) <= Cells(Entries(before + [e]))
  {
    assert (before + [e])[..|before|] == before;
  }

  lemma UnusedNotSaved(mem: Memory, before: seq<Event>, e: Event, cell: Address, v: Pointer)
    requires cell !in Cells(Entries(before + [e]))
    ensures !SavesIn(Run(mem, before).mem, PassList(Run(mem, before), e), PassImages(Run(mem, before), e), cell, v)
  {
    var st := Run(mem, before);
    if PassImages(st, e) != [] {
      forall x | x in PassList(st, e) ensures x in Entries(before + [e]) {
        PassListIsOfEntries(mem, before, e, before + [e], x);
      }
      NotSaved(st.mem, PassList(st, e), PassImages(st, e), cell, v);
    }
  }

  lemma NotSaved(mem: Memory, list: seq<Rebinding>, visited: seq<Image>, cell: Address, v: Pointer)
    requires cell !in Cells(list)
    ensures !SavesIn(mem, list, visited, cell, v)
  {
    if img, slot :| img in visited && HasSlot(img, slot) && Saves(mem, list, slot, cell) {
      FirstMatchMember(list, slot.name.value);
    }
  }

  lemma {:induction false} EntriesOfGlobalRun(events: seq<Event>)
    requires GlobalOnly(events)
    ensures Entries(events) == Flatten(Registrations(events))
  {
    if events != [] {
      var before, last := events[..|events| - 1], events[|events| - 1];
      EntriesOfGlobalRun(before);
      if last.Register? && Succeeds(last) {
        assert Flatten([last.rebindings] + Registrations(before)) == last.rebindings + Flatten(Registrations(before));
      }
    }
  }

  lemma PassWithin(mem: Memory, before: seq<Event>, e: Event, images: set<Image>, cells: set<Address>)
    requires Within(before, images, cells) && EventWithin(e, images, cells)
    ensures Cells(PassList(Run(mem, before), e)) <= cells && AllIn(PassImages(Run(mem, before), e), images)
  {
    RunWithin(mem, before, images, cells);
    if e.Register? {
      CellsConcat(e.rebindings, Flatten(Run(mem, before).calls));
    }
  }

  /* ----- exactly what a cell holds ----- */

  /** What the event leaves in a cell: what the last slot saved through it, or what it held. */
  ghost function CellAfter(st: State, e: Event, cell: Address): Pointer
  {
    ValueOr(LastSaveIn(st.mem, PassList(st, e), PassImages(st, e), cell), st.mem[cell])
  }

  lemma StepCells(mem: Memory, before: seq<Event>, e: Event, images: set<Image>, cells: set<Address>, cell: Address)
    requires Within(before, images, cells) && EventWithin(e, images, cells) && cell in cells
    ensures Run(mem, before + [e]).mem[cell] == CellAfter(Run(mem, before), e, cell)
  {
    var st := Run(mem, before);
    AfterOneMore(mem, before, e);
    EveryStepIsPass(mem, before, e);
    PassWithin(mem, before, e, images, cells);
    CellIsLastSaveIn(st.mem, PassList(st, e), PassImages(st, e), images, cells, cell);
  }

  /** What event `k` saves through the cell: what the last of the slots it visits held that saves through it. */
  ghost function SavedBy(mem: Memory, events: seq<Event>, k: nat, cell: Address): Option<Pointer>
    requires k < |events|
  {
    var st := Run(mem, events[..k]);
    LastSaveIn(st.mem, PassList(st, events[k]), PassImages(st, events[k]), cell)
  }

  /** No event from the `k`th on saves through the cell. */
  ghost predicate NoneSavesFrom(mem: Memory, events: seq<Event>, k: nat, cell: Address)
  {
    forall j :: k <= j < |events| ==> SavedBy(mem, events, j, cell) == None
  }

  lemma StepCellAt(mem: Memory, events: seq<Event>, images: set<Image>, cells: set<Address>, cell: Address, k: nat)
    requires Within(events, images, cells) && cell in cells && k < |events|
    ensures Run(mem, events[..k + 1]).mem[cell] ==
      ValueOr(SavedBy(mem, events, k, cell), Run(mem, events[..k]).mem[cell])
  {
    assert events[..k + 1] == events[..k] + [events[k]];
    StepCells(mem, events[..k], events[k], images, cells, cell);
  }

  lemma {:induction false} CellKeptFrom(mem: Memory, events: seq<Event>, images: set<Image>, cells: set<Address>,
                                        cell: Address, k: nat)
    requires Within(events, images, cells) && cell in cells && k <= |events| && NoneSavesFrom(mem, events, k, cell)
    ensures Run(mem, events).mem[cell] == Run(mem, events[..k]).mem[cell]
    decreases |events| - k
  {
    if k < |events| {
      StepCellAt(mem, events, images, cells, cell, k);
      assert SavedBy(mem, events, k, cell) == None;
      CellKeptFrom(mem, events, images, cells, cell, k + 1);
    } else {
      assert events[..k] == events;
    }
  }

  /** In every run a cell holds what the latest event that saves through it saved: what the last of the slots that
      save through it held before that event. If there is no such event, it holds its initial value. */
  lemma CellHoldsLatestSave(mem: Memory, events: seq<Event>, images: set<Image>, cells: set<Address>, cell: Address)
    requires Within(events, images, cells) && cell in cells
    ensures NoneSavesFrom(mem, events, 0, cell) ==> Run(mem, events).mem[cell] == mem[cell]
    ensures forall k: nat ::
      k < |events| && SavedBy(mem, events, k, cell).Some? && NoneSavesFrom(mem, events, k + 1, cell) ==>
      Run(mem, events).mem[cell] == SavedBy(mem, events, k, cell).value
  {
    if NoneSavesFrom(mem, events, 0, cell) {
      CellKeptFrom(mem, events, images, cells, cell, 0);
    }
    forall k: nat | k < |events| && SavedBy(mem, events, k, cell).Some? && NoneSavesFrom(mem, events, k + 1, cell)
      ensures Run(mem, events).mem[cell] == SavedBy(mem, events, k, cell).value
    {
      StepCellAt(mem, events, images, cells, cell, k);
      CellKeptFrom(mem, events, images, cells, cell, k + 1);
    }
  }

  /* ----- what a single-image binding is good for ----- */

  /** A single-image binding of a name need not survive the next successful global call, even one that
      has nothing to do with the name: every such call makes a pass with the whole global list. It
      survives exactly if neither the new array nor the global list has another replacement as its
      first match for the name. */
  lemma SingleImageBindingSurvives(mem: Memory, before: seq<Event>, images: set<Image>, cells: set<Address>,
                                   img: Image, slot: Slot, own: seq<Rebinding>, r: Rebinding, call: seq<Rebinding>)
    requires Within(before, images, cells) && img in Loaded(before) && HasSlot(img, slot)
    requires img in images && Cells(own) <= cells && Cells(call) <= cells
    requires Binder(own, slot.name) == Some(r)
    ensures Run(mem, before + [RebindImage(img, own, true, true)]).mem[slot.addr] == r.replacement
    ensures var events := before + [RebindImage(img, own, true, true)] + [Register(call, true, true)];
      Run(mem, events).mem[slot.addr] == Bound(call + Flatten(Registrations(before)), slot.name, r.replacement)
    ensures var events := before + [RebindImage(img, own, true, true)] + [Register(call, true, true)];
      var m := Binder(call + Flatten(Registrations(before)), slot.name);
      Run(mem, events).mem[slot.addr] == r.replacement <==> m.None? || m.value.replacement == r.replacement
  {
    var single, global := RebindImage(img, own, true, true), Register(call, true, true);
    var mid := before + [single];
    AfterOneMore(mem, before, single);
    AfterOneMore(mem, mid, global);
    StepBindsWithPass(mem, before, single, images, cells);
    StepBindsWithPass(mem, mid, global, images, cells);
    assert PassOf(mid, global, img) == call + Flatten(Registrations(before));
  }

  lemma AfterOneMore(mem: Memory, before: seq<Event>, e: Event)
    ensures Run(mem, before + [e]) == Step(Run(mem, before), e)
    ensures !e.LoadImage? ==> Loaded(before + [e]) == Loaded(before)
    ensures !e.Register? ==> Registrations(before + [e]) == Registrations(before)
  {
    assert (before + [e])[..|before|] == before;
  }
}
