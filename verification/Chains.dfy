/** The saved pointers as a chain of hooks, and where following it leads. */
module Chains {
  import opened CStrings
  import opened MachO
  import opened Binding
  import opened Protocol
  import opened Runs
  import opened SavedPointers
  import opened Wrappers

  /** The entry whose replacement is `v`. */
  function Owner(list: seq<Rebinding>, v: Pointer): Option<Rebinding>
  {
    if list == [] then None
    else if list[0].replacement == v then Some(list[0])
    else Owner(list[1..], v)
  }

  lemma {:induction false} OwnerExact(list: seq<Rebinding>, v: Pointer)
    ensures Owner(list, v) == None <==> forall r <- list :: r.replacement != v
    ensures Owner(list, v).Some? ==> Owner(list, v).value in list && Owner(list, v).value.replacement == v
  {
    if list != [] {
      OwnerExact(list[1..], v);
      assert list == [list[0]] + list[1..];
    }
  }

  /** What a hook calls to reach what it replaced: nothing, if `v` is no hook or saves no pointer. */
  function Next(list: seq<Rebinding>, mem: Memory, v: Pointer): Option<Pointer>
  {
    match Owner(list, v)
    case None => None
    case Some(r) => if r.replaced.None? then None else Some(mem[r.replaced.value])
  }

  function Follow(list: seq<Rebinding>, mem: Memory, v: Pointer, steps: nat): Pointer
    decreases steps
  {
    if steps == 0 || Next(list, mem, v).None? then v
    else Follow(list, mem, Next(list, mem, v).value, steps - 1)
  }

  /** `v` is a load-time pointer for the name, or reaches one, or a hook that saves no pointer, through
      cells of entries in older and older calls. */
  ghost predicate LeadsToOriginal(mem: Memory, loaded: seq<Image>, calls: Calls, now: Memory, name: seq<Byte>,
                                  v: Pointer)
    decreases |calls|, 1
  {
    || IsOriginal(mem, loaded, name, v)
    || (&& calls != []
        && (|| LeadsToOriginal(mem, loaded, calls[1..], now, name, v)
            || HookLeads(mem, loaded, calls, now, name, v)))
  }

  ghost predicate HookLeads(mem: Memory, loaded: seq<Image>, calls: Calls, now: Memory, name: seq<Byte>, v: Pointer)
    requires calls != []
    decreases |calls|, 0
  {
    var m := FirstMatch(calls[0], name);
    m.Some? && v == m.value.replacement &&
    (m.value.replaced.Some? ==> LeadsToOriginal(mem, loaded, calls[1..], now, name, now[m.value.replaced.value]))
  }

  /** The entries that bind a name, newest call first: the first match of each call. */
  function Binders(calls: Calls, name: seq<Byte>): seq<Rebinding>
  {
    if calls == [] then []
    else (match FirstMatch(calls[0], name) case None => [] case Some(r) => [r]) + Binders(calls[1..], name)
  }

  lemma {:induction false} BindersExact(calls: Calls, name: seq<Byte>)
    ensures forall r <- Binders(calls, name) :: r in Flatten(calls) && r.Name() == name
    ensures FirstMatch(Flatten(calls), name) ==
      if Binders(calls, name) == [] then None else Some(Binders(calls, name)[0])
  {
    if calls != [] {
      BindersExact(calls[1..], name);
      FirstMatchMember(calls[0], name);
      FirstMatchConcat(calls[0], Flatten(calls[1..]), name);
    }
  }

  /** It is enough that the binders' cells are kept. */
  lemma {:induction false} LeadsKept(mem: Memory, loaded: seq<Image>, calls: Calls, now: Memory, name: seq<Byte>,
                                     v: Pointer,
                                     loaded': seq<Image>, now': Memory)
    requires LeadsToOriginal(mem, loaded, calls, now, name, v)
    requires forall img <- loaded :: img in loaded'
    requires forall r <- Binders(calls, name) :: r.replaced.Some? ==> now'[r.replaced.value] == now[r.replaced.value]
    ensures LeadsToOriginal(mem, loaded', calls, now', name, v)
  {
    if !IsOriginal(mem, loaded, name, v) {
      assert forall r <- Binders(calls[1..], name) :: r in Binders(calls, name);
      if LeadsToOriginal(mem, loaded, calls[1..], now, name, v) {
        LeadsKept(mem, loaded, calls[1..], now, name, v, loaded', now');
      } else {
        var m := FirstMatch(calls[0], name).value;
        assert m in Binders(calls, name);
        if m.replaced.Some? {
          LeadsKept(mem, loaded, calls[1..], now, name, now[m.replaced.value], loaded', now');
        }
      }
    }
  }

  /** The newest binder leads to an original if its cell holds one. */
  lemma {:induction false} NewestBinderLeads(mem: Memory, loaded: seq<Image>, calls: Calls, now: Memory,
                                             name: seq<Byte>)
    requires Binders(calls, name) != []
    requires var r := Binders(calls, name)[0]; r.replaced.Some? ==> IsOriginal(mem, loaded, name, now[r.replaced.value])
    ensures LeadsToOriginal(mem, loaded, calls, now, name, Binders(calls, name)[0].replacement)
  {
    if FirstMatch(calls[0], name).None? {
      NewestBinderLeads(mem, loaded, calls[1..], now, name);
    }
  }

  /** All loaded slots with this name lead to an original. */
  ghost predicate SlotsLead(mem: Memory, st: State, name: seq<Byte>)
  {
    forall img, slot :: img in st.images && HasSlot(img, slot) && slot.name == Some(name) ==>
      LeadsToOriginal(mem, st.images, st.calls, st.mem, name, st.mem[slot.addr])
  }

  lemma RegisterLeads(mem: Memory, st: State, e: Event, images: set<Image>, cells: set<Address>, name: seq<Byte>)
    requires GlobalStep(mem, st, e, images, cells) && e.Register? && Succeeds(e)
    requires Distinct(Flatten(Step(st, e).calls)) && Foreign(mem, Flatten(Step(st, e).calls), images)
    requires SlotsLead(mem, st, name)
    ensures SlotsLead(mem, Step(st, e), name)
  {
    var after, rs, older := Step(st, e), e.rebindings, Flatten(st.calls);
    assert Flatten(after.calls) == rs + older && after.calls[1..] == st.calls;
    DistinctParts(rs, older);
    StepIsPass(mem, st, e, images, cells);
    BindersExact(st.calls, name);
    forall r | r in Binders(st.calls, name) && r.replaced.Some?
      ensures after.mem[r.replaced.value] == st.mem[r.replaced.value]
    {
      OlderCellKept(mem, st, e, images, cells, r);
    }
    FirstMatchConcat(rs, older, name);
    FirstMatchMember(rs, name);
    forall img, slot | img in after.images && HasSlot(img, slot) && slot.name == Some(name)
      ensures LeadsToOriginal(mem, after.images, after.calls, after.mem, name, after.mem[slot.addr])
    {
      var m := FirstMatch(rs, name);
      if m.None? {
        LeadsKept(mem, st.images, st.calls, st.mem, name, st.mem[slot.addr], after.images, after.mem);
      } else if m.value.replaced.Some? {
        NewCellLeads(mem, st, e, images, cells, m.value, img, slot);
      }
    }
  }

  /** The cell of a call's entry, after the call, leads to an original through the older calls. */
  lemma NewCellLeads(mem: Memory, st: State, e: Event, images: set<Image>, cells: set<Address>, r: Rebinding,
                     img: Image, slot: Slot)
    requires GlobalStep(mem, st, e, images, cells) && e.Register? && Succeeds(e)
    requires Distinct(Flatten(Step(st, e).calls)) && Foreign(mem, Flatten(Step(st, e).calls), images)
    requires FirstMatch(e.rebindings, r.Name()) == Some(r) && r.replaced.Some?
    requires img in st.images && HasSlot(img, slot) && slot.name == Some(r.Name())
    requires SlotsLead(mem, st, r.Name())
    ensures LeadsToOriginal(mem, Step(st, e).images, st.calls, Step(st, e).mem, r.Name(),
                            Step(st, e).mem[r.replaced.value])
  {
    var after, rs, older := Step(st, e), e.rebindings, Flatten(st.calls);
    assert Flatten(after.calls) == rs + older;
    DistinctParts(rs, older);
    FirstMatchConcat(rs, older, r.Name());
    FirstMatchMember(rs, r.Name());
    FirstMatchMember(older, r.Name());
    StepIsPass(mem, st, e, images, cells);
    // the slot held a load-time pointer or an older replacement, so it saves through the cell
    assert st.mem[slot.addr] != r.replacement;
    assert Saves(st.mem, Flatten(after.calls), slot, r.replaced.value);
    CellChange(mem, st, e, images, cells, r);
    var from, s :| SavedFrom(st, e, r, from, s);
    BindersExact(st.calls, r.Name());
    forall b | b in Binders(st.calls, r.Name()) && b.replaced.Some?
      ensures after.mem[b.replaced.value] == st.mem[b.replaced.value]
    {
      OlderCellKept(mem, st, e, images, cells, b);
    }
    LeadsKept(mem, st.images, st.calls, st.mem, r.Name(), st.mem[s.addr], after.images, after.mem);
  }

  lemma LoadLeads(mem: Memory, st: State, e: Event, images: set<Image>, cells: set<Address>, name: seq<Byte>)
    requires GlobalStep(mem, st, e, images, cells) && e.LoadImage?
    requires Distinct(Flatten(st.calls)) && Foreign(mem, Flatten(st.calls), images)
    requires SlotsLead(mem, st, name)
    ensures SlotsLead(mem, Step(st, e), name)
  {
    var after, list := Step(st, e), Flatten(st.calls);
    StepIsPass(mem, st, e, images, cells);
    BindersExact(st.calls, name);
    forall img, slot | img in after.images && HasSlot(img, slot) && slot.name == Some(name)
      ensures LeadsToOriginal(mem, after.images, st.calls, after.mem, name, after.mem[slot.addr])
    {
      if Binders(st.calls, name) == [] {
        assert IsOriginal(mem, after.images, name, after.mem[slot.addr]);
      } else {
        LoadedSlotLeads(mem, st, e, images, cells, Binders(st.calls, name)[0], img, slot);
      }
    }
  }

  /** After a load, slots bound by r still lead to an original: r's cell now holds one, or nothing has
      changed on the way. */
  lemma LoadedSlotLeads(mem: Memory, st: State, e: Event, images: set<Image>, cells: set<Address>, r: Rebinding,
                        img: Image, slot: Slot)
    requires GlobalStep(mem, st, e, images, cells) && e.LoadImage?
    requires Distinct(Flatten(st.calls)) && Foreign(mem, Flatten(st.calls), images)
    requires SlotsLead(mem, st, r.Name())
    requires Binders(st.calls, r.Name()) != [] && Binders(st.calls, r.Name())[0] == r
    requires img in Step(st, e).images && HasSlot(img, slot) && slot.name == Some(r.Name())
    ensures LeadsToOriginal(mem, Step(st, e).images, st.calls, Step(st, e).mem, r.Name(), Step(st, e).mem[slot.addr])
  {
    var after, name := Step(st, e), r.Name();
    BindersExact(st.calls, name);
    assert after.mem[slot.addr] == r.replacement;
    if r.replaced.None? {
      NewestBinderLeads(mem, after.images, st.calls, after.mem, name);
    } else {
      CellChange(mem, st, e, images, cells, r);
      if from, s :| SavedFrom(st, e, r, from, s) {
        SavedPointerOrigin(mem, st, e, images, cells, r, from, s);
        NewestBinderLeads(mem, after.images, st.calls, after.mem, name);
      } else {
        assert Saves(st.mem, Flatten(st.calls), slot, r.replaced.value) <==> st.mem[slot.addr] != r.replacement;
        if img !in st.images {
          assert false;
        }
        forall b | b in Binders(st.calls, name) && b.replaced.Some?
          ensures after.mem[b.replaced.value] == st.mem[b.replaced.value]
        {
          CellChange(mem, st, e, images, cells, b);
        }
        LeadsKept(mem, st.images, st.calls, st.mem, name, st.mem[slot.addr], after.images, after.mem);
      }
    }
  }

  /** In every run of global calls and loads, every loaded slot leads to an original of its name. */
  lemma {:induction false} SlotsLeadToOriginals(mem: Memory, events: seq<Event>, images: set<Image>,
                                                cells: set<Address>, name: seq<Byte>)
    requires Within(events, images, cells) && GlobalOnly(events)
    requires Distinct(Flatten(Run(mem, events).calls)) && Foreign(mem, Flatten(Run(mem, events).calls), images)
    ensures SlotsLead(mem, Run(mem, events), name)
  {
    if events != [] {
      var n := |events| - 1;
      var st, e := Run(mem, events[..n]), events[n];
      PrefixWithin(events, images, cells);
      RunIsProper(mem, events[..n], images, cells);
      RunIsProper(mem, events, images, cells);
      SuffixDistinct(mem, events);
      if e.Register? && Succeeds(e) {
        assert Flatten(Run(mem, events).calls) == e.rebindings + Flatten(st.calls);
      }
      assert Foreign(mem, Flatten(st.calls), images);
      SlotsLeadToOriginals(mem, events[..n], images, cells, name);
      match e
      case Register(_, _, _) => if Succeeds(e) { RegisterLeads(mem, st, e, images, cells, name); }
      case LoadImage(_) => LoadLeads(mem, st, e, images, cells, name);
      case RebindImage(_, _, _, _) =>
    }
  }

  lemma {:induction false} FollowMore(list: seq<Rebinding>, mem: Memory, v: Pointer, steps: nat, more: nat)
    requires Next(list, mem, Follow(list, mem, v, steps)) == None && steps <= more
    ensures Follow(list, mem, v, more) == Follow(list, mem, v, steps)
    decreases steps
  {
    if steps > 0 && Next(list, mem, v).Some? {
      FollowMore(list, mem, Next(list, mem, v).value, steps - 1, more - 1);
    }
  }

  /** Where following the cells may end: at an original of the name, or at a hook for it that saves no
      pointer. */
  ghost predicate ProperEnd(mem: Memory, loaded: seq<Image>, list: seq<Rebinding>, name: seq<Byte>, v: Pointer)
  {
    IsOriginal(mem, loaded, name, v) ||
    exists r :: r in list && r.Name() == name && r.replaced.None? && r.replacement == v
  }

  lemma {:induction false} LeadingIsFollowing(mem: Memory, loaded: seq<Image>, calls: Calls, now: Memory,
                                              name: seq<Byte>, v: Pointer,
                                              list: seq<Rebinding>, images: set<Image>)
    requires LeadsToOriginal(mem, loaded, calls, now, name, v)
    requires Distinct(list) && Foreign(mem, list, images) && forall r <- Flatten(calls) :: r in list
    requires forall img <- loaded :: img in images
    ensures Next(list, now, Follow(list, now, v, |calls|)) == None
    ensures ProperEnd(mem, loaded, list, name, Follow(list, now, v, |calls|))
  {
    OwnerExact(list, v);
    if !IsOriginal(mem, loaded, name, v) {
      assert Flatten(calls) == calls[0] + Flatten(calls[1..]);
      if LeadsToOriginal(mem, loaded, calls[1..], now, name, v) {
        LeadingIsFollowing(mem, loaded, calls[1..], now, name, v, list, images);
        FollowMore(list, now, v, |calls| - 1, |calls|);
      } else {
        var r := FirstMatch(calls[0], name).value;
        FirstMatchMember(calls[0], name);
        SameReplacement(list, Owner(list, v).value, r);
        if r.replaced.Some? {
          LeadingIsFollowing(mem, loaded, calls[1..], now, name, now[r.replaced.value], list, images);
        }
      }
    }
  }

  /** Calling through the chain of hooks from any slot of a loaded image reaches, after at most as many
      hooks as there are calls, an original: the load-time pointer of a slot with the same name. (Or it
      ends at a hook for that name that asked for no saved pointer.) */
  lemma HooksReachAnOriginal(mem: Memory, events: seq<Event>, images: set<Image>, cells: set<Address>, img: Image,
                             slot: Slot)
    requires Within(events, images, cells) && GlobalOnly(events)
    requires Distinct(Flatten(Run(mem, events).calls)) && Foreign(mem, Flatten(Run(mem, events).calls), images)
    requires img in Run(mem, events).images && HasSlot(img, slot) && slot.name.Some?
    ensures var st := Run(mem, events);
      var end := Follow(Flatten(st.calls), st.mem, st.mem[slot.addr], |st.calls|);
      Next(Flatten(st.calls), st.mem, end) == None && ProperEnd(mem, st.images, Flatten(st.calls), slot.name.value, end)
  {
    var st := Run(mem, events);
    RunWithin(mem, events, images, cells);
    SlotsLeadToOriginals(mem, events, images, cells, slot.name.value);
    LeadingIsFollowing(mem, st.images, st.calls, st.mem, slot.name.value, st.mem[slot.addr], Flatten(st.calls), images);
  }

  /** No replacement is the initial value of a cell. */
  ghost predicate ForeignCells(mem: Memory, list: seq<Rebinding>)
  {
    forall r, cell :: r in list && cell in Cells(list) ==> r.replacement != mem[cell]
  }

  ghost predicate CellsOk(mem: Memory, st: State)
  {
    forall p, r :: 0 <= p < |st.calls| && r in st.calls[p] && r.replaced.Some? ==> CellOk(mem, st, p, r)
  }

  /** No entry of the `p` newest calls has this replacement. */
  ghost predicate OlderThan(calls: Calls, p: nat, v: Pointer)
  {
    forall q, r :: 0 <= q < p && q < |calls| && r in calls[q] ==> r.replacement != v
  }

  /** One step goes at least one call back. */
  lemma NextIsOlder(mem: Memory, st: State, images: set<Image>, p: nat, v: Pointer) returns (q: nat)
    requires var list := Flatten(st.calls); Distinct(list) && Foreign(mem, list, images) && ForeignCells(mem, list)
    requires CellsOk(mem, st) && forall img <- st.images :: img in images
    requires OlderThan(st.calls, p, v) && Next(Flatten(st.calls), st.mem, v).Some?
    ensures p <= q < |st.calls| && OlderThan(st.calls, q + 1, Next(Flatten(st.calls), st.mem, v).value)
  {
    OwnerExact(Flatten(st.calls), v);
    var r := Owner(Flatten(st.calls), v).value;
    FlattenMember(st.calls, r);
    q :| 0 <= q < |st.calls| && r in st.calls[q];
    SavedPointerIsOlder(mem, st, images, q, r);
  }

  lemma {:induction false} ChainEnds(mem: Memory, st: State, images: set<Image>, p: nat, v: Pointer)
    requires var list := Flatten(st.calls); Distinct(list) && Foreign(mem, list, images) && ForeignCells(mem, list)
    requires CellsOk(mem, st) && forall img <- st.images :: img in images
    requires p <= |st.calls| && OlderThan(st.calls, p, v)
    ensures Next(Flatten(st.calls), st.mem, Follow(Flatten(st.calls), st.mem, v, |st.calls| - p)) == None
    decreases |st.calls| - p
  {
    var list, next := Flatten(st.calls), Next(Flatten(st.calls), st.mem, v);
    if next.Some? {
      var q := NextIsOlder(mem, st, images, p, v);
      ChainEnds(mem, st, images, q + 1, next.value);
      FollowMore(list, st.mem, next.value, |st.calls| - (q + 1), |st.calls| - p - 1);
    }
  }

  /** Following the cells ends from anywhere, not only from slots: every hook leads to a strictly older
      one or out of the list. */
  lemma EveryChainEnds(mem: Memory, events: seq<Event>, images: set<Image>, cells: set<Address>, v: Pointer)
    requires Within(events, images, cells) && GlobalOnly(events)
    requires var list := Flatten(Run(mem, events).calls);
      Distinct(list) && Foreign(mem, list, images) && ForeignCells(mem, list)
    ensures var st := Run(mem, events);
      Next(Flatten(st.calls), st.mem, Follow(Flatten(st.calls), st.mem, v, |st.calls|)) == None
  {
    var st := Run(mem, events);
    RunWithin(mem, events, images, cells);
    AllCellsOk(mem, events, images, cells);
    assert |st.calls| - 0 == |st.calls|;
    ChainEnds(mem, st, images, 0, v);
  }

  lemma AllCellsOk(mem: Memory, events: seq<Event>, images: set<Image>, cells: set<Address>)
    requires Within(events, images, cells) && GlobalOnly(events) && Distinct(Flatten(Run(mem, events).calls))
    ensures CellsOk(mem, Run(mem, events))
  {
    forall p, r | 0 <= p < |Run(mem, events).calls| && r in Run(mem, events).calls[p] && r.replaced.Some?
      ensures CellOk(mem, Run(mem, events), p, r)
    {
      CellContents(mem, events, images, cells, p, r);
    }
  }

  lemma SavedPointerIsOlder(mem: Memory, st: State, images: set<Image>, q: nat, r: Rebinding)
    requires var list := Flatten(st.calls); Distinct(list) && Foreign(mem, list, images) && ForeignCells(mem, list)
    requires q < |st.calls| && r in st.calls[q] && r.replaced.Some? && CellOk(mem, st, q, r)
    requires forall img <- st.images :: img in images
    ensures forall q', r' :: 0 <= q' < q + 1 && r' in st.calls[q'] ==> r'.replacement != st.mem[r.replaced.value]
  {
    FlattenMember(st.calls, r);
    assert r.replaced.value in Cells(Flatten(st.calls));
    forall q', r' | 0 <= q' < q + 1 && r' in st.calls[q'] ensures r'.replacement != st.mem[r.replaced.value] {
      FlattenMember(st.calls, r');
      if q'', older :| q < q'' < |st.calls| && older in st.calls[q''] && st.mem[r.replaced.value] == older.replacement {
        DifferentCalls(st.calls, q', q'', r', older);
      }
    }
  }

  lemma {:induction false} DifferentCalls(calls: Calls, p: nat, q: nat, a: Rebinding, b: Rebinding)
    requires Distinct(Flatten(calls)) && p < q < |calls| && a in calls[p] && b in calls[q]
    ensures a.replacement != b.replacement
  {
    DistinctParts(calls[0], Flatten(calls[1..]));
    if p == 0 {
      assert calls[1..][q - 1] == calls[q];
      FlattenMember(calls[1..], b);
    } else {
      DifferentCalls(calls[1..], p - 1, q - 1, a, b);
    }
  }
}
