/** What holds after any sequence of calls and image loads. Throughout, `images` are all images that
    ever appear and `cells` all `replaced` cells that are ever passed: slots of these images neither
    overlap nor are used as cells. */
module Runs {
  import opened CStrings
  import opened MachO
  import opened Binding
  import opened Protocol
  import opened Wrappers

  predicate EventWithin(e: Event, images: set<Image>, cells: set<Address>)
  {
    match e
    case Register(rebindings, _, _) => Cells(rebindings) <= cells
    case LoadImage(img) => img in images
    case RebindImage(img, rebindings, _, _) => img in images && Cells(rebindings) <= cells
  }

  ghost predicate Within(events: seq<Event>, images: set<Image>, cells: set<Address>)
  {
    NoAliasing(images, cells) && forall k :: 0 <= k < |events| ==> EventWithin(events[k], images, cells)
  }

  ghost predicate StateWithin(st: State, images: set<Image>, cells: set<Address>)
  {
    Cells(Flatten(st.calls)) <= cells && forall img <- st.images :: img in images
  }

  lemma CellsConcat(a: seq<Rebinding>, b: seq<Rebinding>)
    ensures Cells(a + b) == Cells(a) + Cells(b)
  {
  }

  lemma {:induction false} RunWithin(mem: Memory, events: seq<Event>, images: set<Image>, cells: set<Address>)
    requires Within(events, images, cells)
    ensures StateWithin(Run(mem, events), images, cells)
  {
    if events != [] {
      var n := |events| - 1;
      RunWithin(mem, events[..n], images, cells);
      if events[n].Register? {
        var calls := Run(mem, events[..n]).calls;
        var rs := events[n].rebindings;
        assert Flatten([rs] + calls) == rs + Flatten(calls);
        CellsConcat(rs, Flatten(calls));
      }
    }
  }

  /** The callback is registered once: by the call that makes the list non-empty. */
  lemma {:induction false} CallbackRegisteredOnce(mem: Memory, events: seq<Event>)
    ensures Run(mem, events).callbacks == if Run(mem, events).calls == [] then 0 else 1
    ensures Run(mem, events).calls != [] <==>
      exists k :: 0 <= k < |events| && events[k].Register? && Succeeds(events[k])
  {
    if events != [] {
      var n := |events| - 1;
      CallbackRegisteredOnce(mem, events[..n]);
      assert forall k :: 0 <= k < n ==> events[..n][k] == events[k];
    }
  }

  /* ----- slots ----- */

  lemma BoundConcat(a: seq<Rebinding>, b: seq<Rebinding>, name: Option<seq<Byte>>, v: Pointer)
    ensures Bound(a + b, name, v) == Bound(a, name, Bound(b, name, v))
    ensures Bound(a + b, name, Bound(b, name, v)) == Bound(a + b, name, v)
  {
    if name.Some? {
      FirstMatchConcat(a, b, name.value);
    }
  }

  /** No successful single-image call. */
  ghost predicate GlobalOnly(events: seq<Event>)
  {
    forall k :: 0 <= k < |events| && events[k].RebindImage? ==> !Succeeds(events[k])
  }

  /** What slots hold if every loaded image is bound with the whole list, and no other is. */
  ghost predicate BoundWithList(mem: Memory, st: State, images: set<Image>)
  {
    forall img, slot :: img in images && HasSlot(img, slot) ==>
      st.mem[slot.addr] ==
        if img in st.images then Bound(Flatten(st.calls), slot.name, mem[slot.addr]) else mem[slot.addr]
  }

  lemma RegisterBinds(mem: Memory, st: State, e: Event, images: set<Image>, cells: set<Address>)
    requires e.Register? && EventWithin(e, images, cells)
    requires NoAliasing(images, cells) && StateWithin(st, images, cells) && StateWithin(Step(st, e), images, cells)
    requires BoundWithList(mem, st, images)
    ensures BoundWithList(mem, Step(st, e), images)
  {
    if Succeeds(e) {
      var list := Flatten([e.rebindings] + st.calls);
      assert list == e.rebindings + Flatten(st.calls);
      SlotsAfterImages(st.mem, list, st.images, images, cells);
      forall img, slot | img in images && HasSlot(img, slot)
        ensures Step(st, e).mem[slot.addr] ==
          if img in st.images then Bound(list, slot.name, mem[slot.addr]) else mem[slot.addr]
      {
        BoundConcat(e.rebindings, Flatten(st.calls), slot.name, mem[slot.addr]);
      }
    }
  }

  /** The effect of a load on a slot of any image. */
  lemma LoadBindsSlot(st: State, e: Event, images: set<Image>, cells: set<Address>, img: Image, slot: Slot)
    requires e.LoadImage? && EventWithin(e, images, cells)
    requires NoAliasing(images, cells) && StateWithin(st, images, cells)
    requires st.callbacks == if st.calls == [] then 0 else 1
    requires img in images && HasSlot(img, slot)
    ensures Step(st, e).mem[slot.addr] ==
      if img == e.image then Bound(Flatten(st.calls), slot.name, st.mem[slot.addr]) else st.mem[slot.addr]
  {
    var list := Flatten(st.calls);
    if st.callbacks == 1 {
      assert Notify(st.mem, list, e.image, 0) == st.mem;
      assert Step(st, e).mem == BindSlots(st.mem, list, ImageSlots(e.image));
      SlotAfterImage(st.mem, list, e.image, images, cells, img, slot);
    }
  }

  lemma LoadBinds(mem: Memory, st: State, e: Event, images: set<Image>, cells: set<Address>)
    requires e.LoadImage? && EventWithin(e, images, cells)
    requires NoAliasing(images, cells) && StateWithin(st, images, cells)
    requires st.callbacks == if st.calls == [] then 0 else 1
    requires BoundWithList(mem, st, images)
    ensures BoundWithList(mem, Step(st, e), images)
  {
    forall img, slot | img in images && HasSlot(img, slot)
      ensures Step(st, e).mem[slot.addr] ==
        if img in st.images + [e.image] then Bound(Flatten(st.calls), slot.name, mem[slot.addr]) else mem[slot.addr]
    {
      LoadBindsSlot(st, e, images, cells, img, slot);
      BoundTwice(Flatten(st.calls), slot.name, mem[slot.addr]);
    }
  }

  /** The contract, for every run without single-image calls: every slot of every loaded image holds
      the replacement of the first match in the newest-first list, or its load-time pointer if there
      is none; slots of images not loaded yet hold their load-time pointers. */
  lemma {:induction false} EverySlotIsBound(mem: Memory, events: seq<Event>, images: set<Image>, cells: set<Address>)
    requires Within(events, images, cells) && GlobalOnly(events)
    ensures BoundWithList(mem, Run(mem, events), images)
  {
    if events != [] {
      var n := |events| - 1;
      var e := events[n];
      var st := Run(mem, events[..n]);
      EverySlotIsBound(mem, events[..n], images, cells);
      RunWithin(mem, events[..n], images, cells);
      RunWithin(mem, events, images, cells);
      if e.Register? {
        RegisterBinds(mem, st, e, images, cells);
      } else if e.LoadImage? {
        CallbackRegisteredOnce(mem, events[..n]);
        LoadBinds(mem, st, e, images, cells);
      }
    }
  }

  /** Memory that is neither a slot nor a cell is never written. */
  lemma {:induction false} NothingElseIsWritten(mem: Memory, events: seq<Event>, images: set<Image>,
                                                cells: set<Address>, a: Address)
    requires Within(events, images, cells)
    requires a !in cells && forall img <- images :: forall k :: 0 <= k < |ImageSlots(img)| ==>
      ImageSlots(img)[k].addr != a
    ensures Run(mem, events).mem[a] == mem[a]
  {
    if events != [] {
      var n := |events| - 1;
      var e := events[n];
      var st := Run(mem, events[..n]);
      NothingElseIsWritten(mem, events[..n], images, cells, a);
      RunWithin(mem, events[..n], images, cells);
      RunWithin(mem, events, images, cells);
      match e
      case Register(rs, _, _) =>
        ImagesPassFrame(st.mem, Run(mem, events).calls, st.images, images, cells, a);
      case LoadImage(img) =>
        CallbackRegisteredOnce(mem, events[..n]);
        assert Notify(st.mem, Flatten(st.calls), img, 0) == st.mem;
        SlotsAfterPass(st.mem, Flatten(st.calls), ImageSlots(img));
      case RebindImage(img, rs, _, _) =>
        SlotsAfterPass(st.mem, rs, ImageSlots(img));
    }
  }

  lemma {:induction false} ImagesPassFrame(mem: Memory, calls: Calls, visited: seq<Image>, images: set<Image>,
                                           cells: set<Address>, a: Address)
    requires NoAliasing(images, cells) && Cells(Flatten(calls)) <= cells && forall img <- visited :: img in images
    requires a !in cells && forall img <- images :: forall k :: 0 <= k < |ImageSlots(img)| ==>
      ImageSlots(img)[k].addr != a
    ensures BindImages(mem, Flatten(calls), visited)[a] == mem[a]
  {
    if visited != [] {
      var n := |visited| - 1;
      ImagesPassFrame(mem, calls, visited[..n], images, cells, a);
      SlotsAfterPass(BindImages(mem, Flatten(calls), visited[..n]), Flatten(calls), ImageSlots(visited[n]));
    }
  }

  /** In every such state another pass with the global list changes nothing: no slot, and no saved
      pointer, so an original is never overwritten by its own replacement. */
  lemma AnotherPassChangesNothing(mem: Memory, events: seq<Event>, images: set<Image>, cells: set<Address>)
    requires Within(events, images, cells) && GlobalOnly(events)
    ensures var st := Run(mem, events);
      BindImages(st.mem, Flatten(st.calls), st.images) == st.mem
  {
    var st := Run(mem, events);
    EverySlotIsBound(mem, events, images, cells);
    RunWithin(mem, events, images, cells);
    forall img | img in st.images ensures Settled(st.mem, Flatten(st.calls), ImageSlots(img)) {
      forall k | 0 <= k < |ImageSlots(img)|
        ensures st.mem[ImageSlots(img)[k].addr] ==
          Bound(Flatten(st.calls), ImageSlots(img)[k].name, st.mem[ImageSlots(img)[k].addr])
      {
        assert HasSlot(img, ImageSlots(img)[k]);
      }
    }
    SettledImagesUnchanged(st.mem, Flatten(st.calls), st.images);
  }

  /* ----- order of loads and calls ----- */

  /** The arrays of the successful global calls, newest first. */
  function Registrations(events: seq<Event>): Calls
  {
    if events == [] then []
    else
      var last := events[|events| - 1];
      var before := Registrations(events[..|events| - 1]);
      if last.Register? && Succeeds(last) then [last.rebindings] + before else before
  }

  ghost function Loaded(events: seq<Event>): seq<Image>
  {
    if events == [] then []
    else
      var last := events[|events| - 1];
      var before := Loaded(events[..|events| - 1]);
      if last.LoadImage? then before + [last.image] else before
  }

  /** What a step does to the list and to the images, whatever it does to memory. */
  lemma StepCallsAndImages(st: State, e: Event)
    ensures Step(st, e).calls == if e.Register? && Succeeds(e) then [e.rebindings] + st.calls else st.calls
    ensures Step(st, e).images == if e.LoadImage? then st.images + [e.image] else st.images
  {
  }

  lemma {:induction false} RunCalls(mem: Memory, events: seq<Event>)
    ensures Run(mem, events).calls == Registrations(events)
  {
    if events != [] {
      RunCalls(mem, events[..|events| - 1]);
      StepCallsAndImages(Run(mem, events[..|events| - 1]), events[|events| - 1]);
    }
  }

  lemma {:induction false} RunImages(mem: Memory, events: seq<Event>)
    ensures Run(mem, events).images == Loaded(events)
  {
    if events != [] {
      RunImages(mem, events[..|events| - 1]);
      StepCallsAndImages(Run(mem, events[..|events| - 1]), events[|events| - 1]);
    }
  }

  lemma RunCallsAndImages(mem: Memory, events: seq<Event>)
    ensures Run(mem, events).calls == Registrations(events) && Run(mem, events).images == Loaded(events)
  {
    RunCalls(mem, events);
    RunImages(mem, events);
  }

  /** Runs with the same successful calls and the same images end with the same slots, however loads
      and calls are interleaved. */
  lemma OrderOfLoadsDoesNotMatter(mem: Memory, a: seq<Event>, b: seq<Event>, images: set<Image>, cells: set<Address>)
    requires Within(a, images, cells) && GlobalOnly(a) && Within(b, images, cells) && GlobalOnly(b)
    requires Registrations(a) == Registrations(b)
    requires forall img :: img in Loaded(a) <==> img in Loaded(b)
    ensures forall img, slot :: img in images && HasSlot(img, slot) ==>
      Run(mem, a).mem[slot.addr] == Run(mem, b).mem[slot.addr]
  {
    EverySlotIsBound(mem, a, images, cells);
    EverySlotIsBound(mem, b, images, cells);
    RunCallsAndImages(mem, a);
    RunCallsAndImages(mem, b);
  }

  /** Binding loaded images again with a longer list is binding them once with it. */
  lemma LongerListBindsAgain(mem: Memory, older: seq<Rebinding>, newer: seq<Rebinding>, visited: seq<Image>,
                             images: set<Image>, cells: set<Address>)
    requires NoAliasing(images, cells) && Cells(newer + older) <= cells && AllIn(visited, images)
    ensures forall img, slot :: img in images && HasSlot(img, slot) ==>
      BindImages(BindImages(mem, older, visited), newer + older, visited)[slot.addr] ==
      BindImages(mem, newer + older, visited)[slot.addr]
  {
    CellsConcat(newer, older);
    forall img, slot | img in images && HasSlot(img, slot)
      ensures BindImages(BindImages(mem, older, visited), newer + older, visited)[slot.addr] ==
        BindImages(mem, newer + older, visited)[slot.addr]
    {
      SlotAfterImages(mem, older, visited, images, cells, img, slot);
      SlotAfterImages(BindImages(mem, older, visited), newer + older, visited, images, cells, img, slot);
      SlotAfterImages(mem, newer + older, visited, images, cells, img, slot);
      BoundConcat(newer, older, slot.name, mem[slot.addr]);
    }
  }

  /** A successful global call leaves in each cell of the list the pointer of the last loaded slot that saves
      through it, as it was before the call; and its old value if there is none. */
  lemma CallSavesLastPointer(st: State, e: Event, images: set<Image>, cells: set<Address>, cell: Address)
    requires e.Register? && Succeeds(e) && EventWithin(e, images, cells)
    requires NoAliasing(images, cells) && StateWithin(st, images, cells)
    requires cell in Cells(e.rebindings + Flatten(st.calls))
    ensures var list, slots := e.rebindings + Flatten(st.calls), AllSlots(FirstVisits(st.images));
      && ((forall k :: 0 <= k < |slots| ==> !Saves(st.mem, list, slots[k], cell)) ==>
            Step(st, e).mem[cell] == st.mem[cell])
      && (forall k: nat :: IsLastSaver(st.mem, list, slots, cell, k) ==> Step(st, e).mem[cell] == st.mem[slots[k].addr])
  {
    CellsConcat(e.rebindings, Flatten(st.calls));
    assert Flatten([e.rebindings] + st.calls) == e.rebindings + Flatten(st.calls);
    CellAfterImagesExactly(st.mem, e.rebindings + Flatten(st.calls), st.images, images, cells, cell);
  }

  /* ----- precedence ----- */

  /** A successful call takes effect at once, in all loaded images, over whatever calls came before. */
  lemma LaterCallWins(mem: Memory, events: seq<Event>, images: set<Image>, cells: set<Address>, img: Image, slot: Slot,
                      r: Rebinding)
    requires Within(events, images, cells) && events != []
    requires var e := events[|events| - 1]; e.Register? && Succeeds(e) && Binder(e.rebindings, slot.name) == Some(r)
    requires img in Loaded(events) && HasSlot(img, slot)
    ensures Run(mem, events).mem[slot.addr] == r.replacement
  {
    var n := |events| - 1;
    var st := Run(mem, events[..n]);
    var rs := events[n].rebindings;
    RunWithin(mem, events, images, cells);
    RunWithin(mem, events[..n], images, cells);
    RunCallsAndImages(mem, events[..n]);
    assert Flatten([rs] + st.calls) == rs + Flatten(st.calls);
    SlotsAfterImages(st.mem, rs + Flatten(st.calls), st.images, images, cells);
    FirstMatchConcat(rs, Flatten(st.calls), slot.name.value);
  }

  /** Within one array it is the other way round: an entry later in the array takes effect exactly if
      no earlier entry has its name, or one with the same replacement comes first. */
  lemma EarlierEntryWins(call: seq<Rebinding>, i: nat, v: Pointer)
    requires i < |call|
    ensures Bound(call, Some(call[i].Name()), v) == call[i].replacement <==>
      exists j :: 0 <= j <= i && call[j].Name() == call[i].Name() && call[j].replacement == call[i].replacement &&
        forall k :: 0 <= k < j ==> call[k].Name() != call[i].Name()
  {
    FirstMatchIsLeast(call, call[i].Name());
    var m := FirstMatch(call, call[i].Name());
    assert m.Some?;
    var least :| 0 <= least < |call| && m.value == call[least] && call[least].Name() == call[i].Name() &&
      forall k :: 0 <= k < least ==> call[k].Name() != call[i].Name();
    if Bound(call, Some(call[i].Name()), v) == call[i].replacement {
      assert least <= i;
    }
  }

  /* ----- names ----- */

  function DropUnnamed(call: seq<Rebinding>): seq<Rebinding>
  {
    if call == [] then []
    else (if call[0].Name() == [] then [] else [call[0]]) + DropUnnamed(call[1..])
  }

  function DropUnnamedEvent(e: Event): Event
  {
    match e
    case Register(call, a, b) => Register(DropUnnamed(call), a, b)
    case LoadImage(img) => e
    case RebindImage(img, call, a, b) => RebindImage(img, DropUnnamed(call), a, b)
  }

  function DropUnnamedCalls(calls: Calls): Calls
  {
    if calls == [] then [] else [DropUnnamed(calls[0])] + DropUnnamedCalls(calls[1..])
  }

  lemma {:induction false} UnnamedNeverMatch(call: seq<Rebinding>, name: seq<Byte>)
    requires name != []
    ensures FirstMatch(DropUnnamed(call), name) == FirstMatch(call, name)
  {
    if call != [] {
      UnnamedNeverMatch(call[1..], name);
      FirstMatchConcat(if call[0].Name() == [] then [] else [call[0]], DropUnnamed(call[1..]), name);
    }
  }

  lemma {:induction false} UnnamedNeverMatchCalls(calls: Calls, name: seq<Byte>)
    requires name != []
    ensures FirstMatch(Flatten(DropUnnamedCalls(calls)), name) == FirstMatch(Flatten(calls), name)
  {
    if calls != [] {
      UnnamedNeverMatch(calls[0], name);
      UnnamedNeverMatchCalls(calls[1..], name);
      FirstMatchConcat(calls[0], Flatten(calls[1..]), name);
      FirstMatchConcat(DropUnnamed(calls[0]), Flatten(DropUnnamedCalls(calls[1..])), name);
    }
  }

  /** The two lists find the same rebinding for every non-empty name. */
  ghost predicate SameMatches(a: seq<Rebinding>, b: seq<Rebinding>)
  {
    forall name: seq<Byte> :: name != [] ==> FirstMatch(a, name) == FirstMatch(b, name)
  }

  lemma SameMatchesSamePass(mem: Memory, a: seq<Rebinding>, b: seq<Rebinding>, img: Image)
    requires SameMatches(a, b)
    ensures BindSlots(mem, a, ImageSlots(img)) == BindSlots(mem, b, ImageSlots(img))
  {
    var slots := ImageSlots(img);
    forall k | 0 <= k < |slots| ensures Binder(a, slots[k].name) == Binder(b, slots[k].name) {
      SlotNamesNonempty(img, k);
    }
    PassDependsOnFirstMatch(mem, a, b, slots);
  }

  lemma {:induction false} SameMatchesSamePasses(mem: Memory, a: seq<Rebinding>, b: seq<Rebinding>, visited: seq<Image>)
    requires SameMatches(a, b)
    ensures BindImages(mem, a, visited) == BindImages(mem, b, visited)
  {
    if visited != [] {
      var n := |visited| - 1;
      SameMatchesSamePasses(mem, a, b, visited[..n]);
      SameMatchesSamePass(BindImages(mem, a, visited[..n]), a, b, visited[n]);
    }
  }

  lemma {:induction false} SameMatchesSameNotify(mem: Memory, a: seq<Rebinding>, b: seq<Rebinding>, img: Image,
                                                 callbacks: nat)
    requires SameMatches(a, b)
    ensures Notify(mem, a, img, callbacks) == Notify(mem, b, img, callbacks)
  {
    if callbacks > 0 {
      SameMatchesSameNotify(mem, a, b, img, callbacks - 1);
      SameMatchesSamePass(Notify(mem, a, img, callbacks - 1), a, b, img);
    }
  }

  /** Rebindings with the empty name have no effect on memory in any run. */
  lemma {:induction false} EmptyNamesHaveNoEffect(mem: Memory, events: seq<Event>)
    ensures var dropped := seq(|events|, i requires 0 <= i < |events| => DropUnnamedEvent(events[i]));
      Run(mem, dropped) == Run(mem, events).(calls := DropUnnamedCalls(Run(mem, events).calls))
  {
    var dropped := seq(|events|, i requires 0 <= i < |events| => DropUnnamedEvent(events[i]));
    if events != [] {
      var n := |events| - 1;
      EmptyNamesHaveNoEffect(mem, events[..n]);
      assert dropped[..n] == seq(n, i requires 0 <= i < n => DropUnnamedEvent(events[..n][i]));
      StepIgnoresEmptyNames(Run(mem, events[..n]), events[n]);
    }
  }

  lemma StepIgnoresEmptyNames(st: State, e: Event)
    ensures Step(st.(calls := DropUnnamedCalls(st.calls)), DropUnnamedEvent(e)) ==
      Step(st, e).(calls := DropUnnamedCalls(Step(st, e).calls))
  {
    var calls := Step(st, e).calls;
    forall name: seq<Byte> | name != []
      ensures FirstMatch(Flatten(DropUnnamedCalls(calls)), name) == FirstMatch(Flatten(calls), name)
    {
      UnnamedNeverMatchCalls(calls, name);
    }
    match e
    case Register(call, _, _) =>
      if Succeeds(e) {
        assert calls[1..] == st.calls;
        SameMatchesSamePasses(st.mem, Flatten(DropUnnamedCalls(calls)), Flatten(calls), st.images);
      }
    case LoadImage(img) =>
      SameMatchesSameNotify(st.mem, Flatten(DropUnnamedCalls(calls)), Flatten(calls), img, st.callbacks);
    case RebindImage(img, call, _, _) =>
      forall name: seq<Byte> | name != [] ensures FirstMatch(DropUnnamed(call), name) == FirstMatch(call, name) {
        UnnamedNeverMatch(call, name);
      }
      SameMatchesSamePass(st.mem, DropUnnamed(call), call, img);
  }
}
