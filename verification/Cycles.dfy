/** What a single-image call may do to the chain of hooks: it puts a hook in front of hooks that the next
    global call may put in front of it. */
module Cycles {
  import opened MachO
  import opened Binding
  import opened Protocol
  import opened Runs
  import opened SavedPointers
  import opened Chains
  import opened SingleImage
  import opened Wrappers

  /** Following the cells from `v` ends. */
  ghost predicate Ends(list: seq<Rebinding>, mem: Memory, v: Pointer)
  {
    exists steps: nat :: Next(list, mem, Follow(list, mem, v, steps)) == None
  }

  lemma EndsFromNext(list: seq<Rebinding>, mem: Memory, v: Pointer)
    requires Next(list, mem, v).Some? && Ends(list, mem, Next(list, mem, v).value)
    ensures Ends(list, mem, v)
  {
    var w := Next(list, mem, v).value;
    var steps: nat :| Next(list, mem, Follow(list, mem, w, steps)) == None;
    assert Follow(list, mem, v, steps + 1) == Follow(list, mem, w, steps);
  }

  lemma EndsAtOnce(list: seq<Rebinding>, mem: Memory, v: Pointer)
    requires Next(list, mem, v) == None
    ensures Ends(list, mem, v)
  {
    assert Follow(list, mem, v, 0) == v;
  }

  lemma {:induction false} TwoHooksNeverEnd(list: seq<Rebinding>, mem: Memory, v: Pointer, w: Pointer, steps: nat)
    requires Next(list, mem, v) == Some(w) && Next(list, mem, w) == Some(v)
    ensures Next(list, mem, Follow(list, mem, v, steps)).Some?
    decreases steps
  {
    if steps > 0 {
      TwoHooksNeverEnd(list, mem, w, v, steps - 1);
    }
  }

  lemma NextOfHook(list: seq<Rebinding>, mem: Memory, r: Rebinding)
    requires Distinct(list) && r in list
    ensures Next(list, mem, r.replacement) == if r.replaced.None? then None else Some(mem[r.replaced.value])
  {
    OwnerExact(list, r.replacement);
    SameReplacement(list, Owner(list, r.replacement).value, r);
  }

  /* ----- one pass ----- */

  /** In a pass over these images, the slot makes the engine save its pointer for `r`. */
  ghost predicate SavesFor(now: Memory, list: seq<Rebinding>, visited: seq<Image>, r: Rebinding, img: Image, slot: Slot)
  {
    && img in visited && HasSlot(img, slot) && slot.name == Some(r.Name())
    && FirstMatch(list, r.Name()) == Some(r) && now[slot.addr] != r.replacement
  }

  /** If some slot saves for `r`, its cell ends with what one such slot held. */
  lemma CellIsSaved(now: Memory, list: seq<Rebinding>, visited: seq<Image>, images: set<Image>, cells: set<Address>,
                    r: Rebinding, img: Image, slot: Slot) returns (from: Image, s: Slot)
    requires NoAliasing(images, cells) && Cells(list) <= cells && AllIn(visited, images)
    requires Distinct(list) && r in list && r.replaced.Some? && SavesFor(now, list, visited, r, img, slot)
    ensures SavesFor(now, list, visited, r, from, s)
    ensures BindImages(now, list, visited)[r.replaced.value] == now[s.addr]
  {
    var cell := r.replaced.value;
    assert cell in Cells(list);
    CellsAfterImages(now, list, visited, images, cells, cell);
    assert Saves(now, list, slot, cell);
    from, s :| from in visited && HasSlot(from, s) && Saves(now, list, s, cell)
      && BindImages(now, list, visited)[cell] == now[s.addr];
    FirstMatchMember(list, s.name.value);
    SameCell(list, r, FirstMatch(list, s.name.value).value);
  }

  /** A cell is kept unless its entry is the first match of its name. */
  lemma CellIsKept(now: Memory, list: seq<Rebinding>, visited: seq<Image>, images: set<Image>, cells: set<Address>,
                   r: Rebinding)
    requires NoAliasing(images, cells) && Cells(list) <= cells && AllIn(visited, images)
    requires r.replaced.Some? && r.replaced.value in cells
    requires forall x :: x in list && x.replaced == r.replaced ==> FirstMatch(list, x.Name()) != Some(x)
    ensures BindImages(now, list, visited)[r.replaced.value] == now[r.replaced.value]
  {
    var cell := r.replaced.value;
    CellsAfterImages(now, list, visited, images, cells, cell);
    if SavesIn(now, list, visited, cell, BindImages(now, list, visited)[cell]) {
      var img, slot :| img in visited && HasSlot(img, slot) && Saves(now, list, slot, cell);
      FirstMatchMember(list, slot.name.value);
      assert false;
    }
  }

  /* ----- a single-image call, then a global call ----- */

  /** Hooks of the single-image call, of the global call after it, and of the calls before. */
  function Hooks(st: State, own: seq<Rebinding>, call: seq<Rebinding>): seq<Rebinding>
  {
    own + (call + Flatten(st.calls))
  }

  ghost function AfterOwn(st: State, img: Image, own: seq<Rebinding>): Memory
  {
    BindImages(st.mem, own, [img])
  }

  ghost function AfterBoth(st: State, img: Image, own: seq<Rebinding>, call: seq<Rebinding>): Memory
  {
    BindImages(AfterOwn(st, img, own), call + Flatten(st.calls), st.images)
  }

  /** `r` binds the name in the single-image call; the state is one that global calls and loads reach. */
  ghost predicate Scene(mem: Memory, st: State, images: set<Image>, cells: set<Address>, img: Image,
                        own: seq<Rebinding>, r: Rebinding, call: seq<Rebinding>)
  {
    && Proper(mem, st, images, cells) && SlotsLead(mem, st, r.Name())
    && img in st.images && Cells(own) <= cells && Cells(call) <= cells
    && Distinct(Hooks(st, own, call)) && Foreign(mem, Hooks(st, own, call), images)
    && FirstMatch(own, r.Name()) == Some(r)
  }

  ghost predicate Apart(a: seq<Rebinding>, b: seq<Rebinding>)
  {
    forall x, y :: x in a && y in b ==>
      x.replacement != y.replacement && (x.replaced.Some? ==> x.replaced != y.replaced)
  }

  lemma SceneParts(mem: Memory, st: State, images: set<Image>, cells: set<Address>, img: Image,
                   own: seq<Rebinding>, r: Rebinding, call: seq<Rebinding>)
    requires Scene(mem, st, images, cells, img, own, r, call)
    ensures Distinct(own) && Distinct(call + Flatten(st.calls)) && Distinct(Flatten(st.calls)) && r in own
    ensures Apart(own, call) && Apart(own, Flatten(st.calls)) && Apart(call, Flatten(st.calls))
    ensures Cells(call + Flatten(st.calls)) <= cells && AllIn(st.images, images) && AllIn([img], images)
  {
    var older := Flatten(st.calls);
    DistinctParts(own, call + older);
    DistinctParts(call, older);
    CellsConcat(call, older);
    FirstMatchMember(own, r.Name());
  }

  /** A loaded slot for r's name. */
  ghost predicate Named(st: State, r: Rebinding, i: Image, slot: Slot)
  {
    i in st.images && HasSlot(i, slot) && slot.name == Some(r.Name())
  }

  /** Before the single-image call, no loaded slot holds a replacement of the two new calls. */
  lemma NotYetHooked(mem: Memory, st: State, images: set<Image>, cells: set<Address>, img: Image,
                     own: seq<Rebinding>, r: Rebinding, call: seq<Rebinding>, i: Image, slot: Slot, x: Rebinding)
    requires Scene(mem, st, images, cells, img, own, r, call) && Named(st, r, i, slot) && (x in own || x in call)
    ensures st.mem[slot.addr] == Bound(Flatten(st.calls), slot.name, mem[slot.addr])
    ensures st.mem[slot.addr] != x.replacement
  {
    SceneParts(mem, st, images, cells, img, own, r, call);
    FirstMatchMember(Flatten(st.calls), r.Name());
    assert x in Hooks(st, own, call);
  }

  /** The single-image call: slots of its image lead to `r`, other slots and the older cells are kept. */
  lemma SlotAfterOwn(mem: Memory, st: State, images: set<Image>, cells: set<Address>, img: Image,
                     own: seq<Rebinding>, r: Rebinding, call: seq<Rebinding>, i: Image, slot: Slot)
    requires Scene(mem, st, images, cells, img, own, r, call) && Named(st, r, i, slot)
    ensures AfterOwn(st, img, own)[slot.addr] == if i == img then r.replacement else st.mem[slot.addr]
  {
    SceneParts(mem, st, images, cells, img, own, r, call);
    SlotAfterImages(st.mem, own, [img], images, cells, i, slot);
    assert i in [img] <==> i == img;
  }

  lemma OlderCellAfterOwn(mem: Memory, st: State, images: set<Image>, cells: set<Address>, img: Image,
                          own: seq<Rebinding>, r: Rebinding, call: seq<Rebinding>, b: Rebinding)
    requires Scene(mem, st, images, cells, img, own, r, call) && b in Flatten(st.calls) && b.replaced.Some?
    ensures AfterOwn(st, img, own)[b.replaced.value] == st.mem[b.replaced.value]
  {
    SceneParts(mem, st, images, cells, img, own, r, call);
    assert b.replaced.value in Cells(Flatten(st.calls));
    CellIsKept(st.mem, own, [img], images, cells, b);
  }

  /** r's cell keeps, to the end, what some slot for the name held at first. */
  lemma OwnCell(mem: Memory, st: State, images: set<Image>, cells: set<Address>, img: Image,
                own: seq<Rebinding>, r: Rebinding, call: seq<Rebinding>, slot: Slot) returns (s: Slot)
    requires Scene(mem, st, images, cells, img, own, r, call) && Named(st, r, img, slot) && r.replaced.Some?
    ensures Named(st, r, img, s) && AfterBoth(st, img, own, call)[r.replaced.value] == st.mem[s.addr]
  {
    SceneParts(mem, st, images, cells, img, own, r, call);
    NotYetHooked(mem, st, images, cells, img, own, r, call, img, slot, r);
    var from;
    from, s := CellIsSaved(st.mem, own, [img], images, cells, r, img, slot);
    assert from == img;
    assert r.replaced.value in Cells(own);
    CellIsKept(AfterOwn(st, img, own), call + Flatten(st.calls), st.images, images, cells, r);
  }

  /** What the slot holds in the end. */
  lemma SlotAfterBoth(mem: Memory, st: State, images: set<Image>, cells: set<Address>, img: Image,
                      own: seq<Rebinding>, r: Rebinding, call: seq<Rebinding>, slot: Slot)
    requires Scene(mem, st, images, cells, img, own, r, call) && Named(st, r, img, slot)
    ensures AfterBoth(st, img, own, call)[slot.addr] == Bound(call + Flatten(st.calls), slot.name, r.replacement)
  {
    SceneParts(mem, st, images, cells, img, own, r, call);
    SlotAfterOwn(mem, st, images, cells, img, own, r, call, img, slot);
    SlotAfterImages(AfterOwn(st, img, own), call + Flatten(st.calls), st.images, images, cells, img, slot);
  }

  /** If the global call has no match for the name but an older call has, the older hook saves `r`, which
      has saved it. */
  lemma OlderHookSavesOwn(mem: Memory, st: State, images: set<Image>, cells: set<Address>, img: Image,
                          own: seq<Rebinding>, r: Rebinding, call: seq<Rebinding>, slot: Slot, m: Rebinding)
    requires Scene(mem, st, images, cells, img, own, r, call) && Named(st, r, img, slot)
    requires FirstMatch(call, r.Name()).None? && FirstMatch(Flatten(st.calls), r.Name()) == Some(m) && m.replaced.Some?
    ensures AfterBoth(st, img, own, call)[m.replaced.value] == r.replacement
  {
    var older, now := Flatten(st.calls), AfterOwn(st, img, own);
    SceneParts(mem, st, images, cells, img, own, r, call);
    FirstMatchMember(older, r.Name());
    FirstMatchConcat(call, older, r.Name());
    SlotAfterOwn(mem, st, images, cells, img, own, r, call, img, slot);
    assert SavesFor(now, call + older, st.images, m, img, slot);
    var from, s := CellIsSaved(now, call + older, st.images, images, cells, m, img, slot);
    SlotAfterOwn(mem, st, images, cells, img, own, r, call, from, s);
  }

  /** If the global call has a match, older cells are kept. */
  lemma OlderCellAfterBoth(mem: Memory, st: State, images: set<Image>, cells: set<Address>, img: Image,
                           own: seq<Rebinding>, r: Rebinding, call: seq<Rebinding>, b: Rebinding)
    requires Scene(mem, st, images, cells, img, own, r, call)
    requires FirstMatch(call, r.Name()).Some? && b in Flatten(st.calls) && b.Name() == r.Name() && b.replaced.Some?
    ensures AfterBoth(st, img, own, call)[b.replaced.value] == st.mem[b.replaced.value]
  {
    var list := call + Flatten(st.calls);
    SceneParts(mem, st, images, cells, img, own, r, call);
    OlderCellAfterOwn(mem, st, images, cells, img, own, r, call, b);
    FirstMatchConcat(call, Flatten(st.calls), r.Name());
    FirstMatchMember(call, r.Name());
    assert b.replaced.value in Cells(Flatten(st.calls));
    forall x | x in list && x.replaced == b.replaced ensures FirstMatch(list, x.Name()) != Some(x) {
      SameCell(list, b, x);
    }
    CellIsKept(AfterOwn(st, img, own), list, st.images, images, cells, b);
  }

  /** Then the chain from what a slot held before both calls ends as it did. */
  lemma OlderChainEnds(mem: Memory, st: State, images: set<Image>, cells: set<Address>, img: Image,
                       own: seq<Rebinding>, r: Rebinding, call: seq<Rebinding>, i: Image, s: Slot)
    requires Scene(mem, st, images, cells, img, own, r, call) && Named(st, r, i, s)
    requires FirstMatch(call, r.Name()).Some?
    ensures Ends(Hooks(st, own, call), AfterBoth(st, img, own, call), st.mem[s.addr])
  {
    var name, now, hooks := r.Name(), AfterBoth(st, img, own, call), Hooks(st, own, call);
    SceneParts(mem, st, images, cells, img, own, r, call);
    BindersExact(st.calls, name);
    forall b | b in Binders(st.calls, name) && b.replaced.Some?
      ensures now[b.replaced.value] == st.mem[b.replaced.value]
    {
      OlderCellAfterBoth(mem, st, images, cells, img, own, r, call, b);
    }
    LeadsKept(mem, st.images, st.calls, st.mem, name, st.mem[s.addr], st.images, now);
    LeadingIsFollowing(mem, st.images, st.calls, now, name, st.mem[s.addr], hooks, images);
  }

  lemma OwnHookEnds(mem: Memory, st: State, images: set<Image>, cells: set<Address>, img: Image,
                    own: seq<Rebinding>, r: Rebinding, call: seq<Rebinding>, slot: Slot)
    requires Scene(mem, st, images, cells, img, own, r, call) && Named(st, r, img, slot)
    requires FirstMatch(call, r.Name()).Some? || FirstMatch(Flatten(st.calls), r.Name()).None?
    ensures Ends(Hooks(st, own, call), AfterBoth(st, img, own, call), r.replacement)
  {
    var now, hooks := AfterBoth(st, img, own, call), Hooks(st, own, call);
    SceneParts(mem, st, images, cells, img, own, r, call);
    NextOfHook(hooks, now, r);
    if r.replaced.None? {
      EndsAtOnce(hooks, now, r.replacement);
    } else {
      var s := OwnCell(mem, st, images, cells, img, own, r, call, slot);
      if FirstMatch(call, r.Name()).Some? {
        OlderChainEnds(mem, st, images, cells, img, own, r, call, img, s);
      } else {
        NotYetHooked(mem, st, images, cells, img, own, r, call, img, s, r);
        OwnerExact(hooks, mem[s.addr]);
        EndsAtOnce(hooks, now, mem[s.addr]);
      }
      EndsFromNext(hooks, now, r.replacement);
    }
  }

  lemma NewHookEnds(mem: Memory, st: State, images: set<Image>, cells: set<Address>, img: Image,
                    own: seq<Rebinding>, r: Rebinding, call: seq<Rebinding>, slot: Slot, k: Rebinding)
    requires Scene(mem, st, images, cells, img, own, r, call) && Named(st, r, img, slot)
    requires FirstMatch(call, r.Name()) == Some(k)
    ensures Ends(Hooks(st, own, call), AfterBoth(st, img, own, call), k.replacement)
  {
    var now, hooks := AfterBoth(st, img, own, call), Hooks(st, own, call);
    SceneParts(mem, st, images, cells, img, own, r, call);
    FirstMatchMember(call, r.Name());
    FirstMatchConcat(call, Flatten(st.calls), r.Name());
    NextOfHook(hooks, now, k);
    if k.replaced.None? {
      EndsAtOnce(hooks, now, k.replacement);
    } else {
      var list := call + Flatten(st.calls);
      SlotAfterOwn(mem, st, images, cells, img, own, r, call, img, slot);
      assert SavesFor(AfterOwn(st, img, own), list, st.images, k, img, slot);
      var from, s := CellIsSaved(AfterOwn(st, img, own), list, st.images, images, cells, k, img, slot);
      SlotAfterOwn(mem, st, images, cells, img, own, r, call, from, s);
      if from == img {
        OwnHookEnds(mem, st, images, cells, img, own, r, call, slot);
      } else {
        OlderChainEnds(mem, st, images, cells, img, own, r, call, from, s);
      }
      EndsFromNext(hooks, now, k.replacement);
    }
  }

  /** The next global call makes a cycle: it does not bind the name itself, but an older hook for it. */
  predicate ClosesCycle(r: Rebinding, call: seq<Rebinding>, older: seq<Rebinding>)
  {
    var m := FirstMatch(older, r.Name());
    r.replaced.Some? && FirstMatch(call, r.Name()).None? && m.Some? && m.value.replaced.Some?
  }

  predicate SaveEachOther(now: Memory, a: Rebinding, b: Rebinding)
  {
    && a.replaced.Some? && now[a.replaced.value] == b.replacement
    && b.replaced.Some? && now[b.replaced.value] == a.replacement
  }

  lemma OlderHookCycles(mem: Memory, st: State, images: set<Image>, cells: set<Address>, img: Image,
                        own: seq<Rebinding>, r: Rebinding, call: seq<Rebinding>, slot: Slot, m: Rebinding)
    requires Scene(mem, st, images, cells, img, own, r, call) && Named(st, r, img, slot)
    requires FirstMatch(call, r.Name()).None? && FirstMatch(Flatten(st.calls), r.Name()) == Some(m)
    ensures Ends(Hooks(st, own, call), AfterBoth(st, img, own, call), m.replacement) <==>
      !ClosesCycle(r, call, Flatten(st.calls))
    ensures ClosesCycle(r, call, Flatten(st.calls)) ==> SaveEachOther(AfterBoth(st, img, own, call), m, r)
  {
    var now, hooks := AfterBoth(st, img, own, call), Hooks(st, own, call);
    SceneParts(mem, st, images, cells, img, own, r, call);
    FirstMatchMember(Flatten(st.calls), r.Name());
    NextOfHook(hooks, now, m);
    NextOfHook(hooks, now, r);
    if m.replaced.None? {
      EndsAtOnce(hooks, now, m.replacement);
    } else {
      OlderHookSavesOwn(mem, st, images, cells, img, own, r, call, slot, m);
      if r.replaced.None? {
        EndsAtOnce(hooks, now, r.replacement);
        EndsFromNext(hooks, now, m.replacement);
      } else {
        var s := OwnCell(mem, st, images, cells, img, own, r, call, slot);
        NotYetHooked(mem, st, images, cells, img, own, r, call, img, s, r);
        assert Next(hooks, now, r.replacement) == Some(m.replacement);
        forall steps: nat ensures Next(hooks, now, Follow(hooks, now, m.replacement, steps)).Some? {
          TwoHooksNeverEnd(hooks, now, m.replacement, r.replacement, steps);
        }
      }
    }
  }

  lemma ChainAfterBoth(mem: Memory, st: State, images: set<Image>, cells: set<Address>, img: Image,
                       own: seq<Rebinding>, r: Rebinding, call: seq<Rebinding>, slot: Slot)
    requires Scene(mem, st, images, cells, img, own, r, call) && Named(st, r, img, slot)
    ensures var now := AfterBoth(st, img, own, call);
      && (Ends(Hooks(st, own, call), now, now[slot.addr]) <==> !ClosesCycle(r, call, Flatten(st.calls)))
      && (ClosesCycle(r, call, Flatten(st.calls)) ==>
            var m := FirstMatch(Flatten(st.calls), r.Name()).value;
            now[slot.addr] == m.replacement && SaveEachOther(now, m, r))
  {
    var older := Flatten(st.calls);
    SlotAfterBoth(mem, st, images, cells, img, own, r, call, slot);
    FirstMatchConcat(call, older, r.Name());
    if FirstMatch(call, r.Name()).Some? {
      NewHookEnds(mem, st, images, cells, img, own, r, call, slot, FirstMatch(call, r.Name()).value);
    } else if FirstMatch(older, r.Name()).Some? {
      OlderHookCycles(mem, st, images, cells, img, own, r, call, slot, FirstMatch(older, r.Name()).value);
    } else {
      OwnHookEnds(mem, st, images, cells, img, own, r, call, slot);
    }
  }

  lemma RunIsAfterBoth(mem: Memory, before: seq<Event>, img: Image, own: seq<Rebinding>, call: seq<Rebinding>)
    ensures Run(mem, before + [RebindImage(img, own, true, true)] + [Register(call, true, true)]).mem ==
      AfterBoth(Run(mem, before), img, own, call)
  {
    var single, global := RebindImage(img, own, true, true), Register(call, true, true);
    var st := Run(mem, before);
    AfterOneMore(mem, before, single);
    AfterOneMore(mem, before + [single], global);
    OneImagePass(st.mem, own, img);
    RegisterStep(Step(st, single), call);
  }

  lemma OneImagePass(mem: Memory, list: seq<Rebinding>, img: Image)
    ensures BindImages(mem, list, [img]) == BindSlots(mem, list, ImageSlots(img))
  {
    assert [img][..0] == [];
    assert BindImages(mem, list, []) == mem;
  }

  lemma RegisterStep(st: State, call: seq<Rebinding>)
    ensures Step(st, Register(call, true, true)).mem == BindImages(st.mem, call + Flatten(st.calls), st.images)
  {
    assert Flatten([call] + st.calls) == call + Flatten(st.calls);
  }

  /** After any run of global calls and loads, a single-image call that binds a slot's name, and a global
      call: following the hooks from the slot never ends if and only if the global call has no match for
      the name, and both the single-image hook and the newest older one save a pointer. Then each has saved
      the other. */
  lemma SingleImageCycleExactly(mem: Memory, before: seq<Event>, images: set<Image>, cells: set<Address>,
                                img: Image, slot: Slot, own: seq<Rebinding>, r: Rebinding, call: seq<Rebinding>)
    requires Within(before, images, cells) && GlobalOnly(before) && img in Loaded(before) && HasSlot(img, slot)
    requires Cells(own) <= cells && Cells(call) <= cells && Binder(own, slot.name) == Some(r)
    requires var hooks := own + (call + Flatten(Registrations(before)));
      Distinct(hooks) && Foreign(mem, hooks, images)
    ensures var now := Run(mem, before + [RebindImage(img, own, true, true)] + [Register(call, true, true)]).mem;
      var older := Flatten(Registrations(before));
      && (Ends(own + (call + older), now, now[slot.addr]) <==> !ClosesCycle(r, call, older))
      && (ClosesCycle(r, call, older) ==>
            var m := FirstMatch(older, r.Name()).value;
            now[slot.addr] == m.replacement && SaveEachOther(now, m, r))
  {
    var st := Run(mem, before);
    RunCallsAndImages(mem, before);
    RunIsProper(mem, before, images, cells);
    FirstMatchMember(own, slot.name.value);
    DistinctParts(own, call + Flatten(st.calls));
    DistinctParts(call, Flatten(st.calls));
    assert Foreign(mem, Flatten(st.calls), images);
    SlotsLeadToOriginals(mem, before, images, cells, r.Name());
    RunIsAfterBoth(mem, before, img, own, call);
    ChainAfterBoth(mem, st, images, cells, img, own, r, call, slot);
  }
}
