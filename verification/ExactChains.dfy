/** When each hook has saved exactly the hook of the call before it. */
module ExactChains {
  import opened CStrings
  import opened MachO
  import opened Binding
  import opened Protocol
  import opened Runs
  import opened SavedPointers
  import opened Chains
  import opened Wrappers

  ghost predicate HasName(img: Image, name: seq<Byte>)
  {
    exists slot :: HasSlot(img, slot) && slot.name == Some(name)
  }

  ghost predicate SomeSlot(loaded: seq<Image>, name: seq<Byte>)
  {
    exists img :: img in loaded && HasName(img, name)
  }

  /** Every image that has a slot with this name is loaded before the first call that binds the name. */
  ghost predicate LoadedBeforeBound(events: seq<Event>, name: seq<Byte>)
  {
    forall k :: 0 <= k < |events| && events[k].LoadImage? && HasName(events[k].image, name) ==>
      Binders(Registrations(events[..k]), name) == []
  }

  /** Binder j of a name has saved the replacement of the binder before it; the oldest one, the
      load-time pointer of a slot with that name. */
  ghost predicate ExactLink(mem: Memory, loaded: seq<Image>, now: Memory, name: seq<Byte>, binders: seq<Rebinding>,
                            j: nat)
    requires j < |binders|
  {
    binders[j].replaced.Some? ==>
      if j + 1 < |binders| then now[binders[j].replaced.value] == binders[j + 1].replacement
      else IsOriginal(mem, loaded, name, now[binders[j].replaced.value])
  }

  ghost predicate ExactLinks(mem: Memory, loaded: seq<Image>, now: Memory, name: seq<Byte>, binders: seq<Rebinding>)
  {
    forall j :: 0 <= j < |binders| ==> ExactLink(mem, loaded, now, name, binders, j)
  }

  ghost predicate ExactChain(mem: Memory, st: State, name: seq<Byte>)
  {
    ExactLinks(mem, st.images, st.mem, name, Binders(st.calls, name))
  }

  ghost predicate CellsKept(before: Memory, now: Memory, binders: seq<Rebinding>)
  {
    forall r :: r in binders && r.replaced.Some? ==> now[r.replaced.value] == before[r.replaced.value]
  }

  /** Links stay exact while their cells are kept, whatever is loaded. */
  lemma LinksKept(mem: Memory, loaded: seq<Image>, more: seq<Image>, before: Memory, now: Memory, name: seq<Byte>,
                  binders: seq<Rebinding>)
    requires ExactLinks(mem, loaded, before, name, binders) && CellsKept(before, now, binders)
    requires forall img :: img in loaded ==> img in more
    ensures ExactLinks(mem, more, now, name, binders)
  {
    forall j | 0 <= j < |binders| ensures ExactLink(mem, more, now, name, binders, j) {
      assert ExactLink(mem, loaded, before, name, binders, j) && binders[j] in binders;
    }
  }

  /** A newer binder whose cell holds the replacement of the newest so far adds an exact link. */
  lemma LinkAdded(mem: Memory, loaded: seq<Image>, now: Memory, name: seq<Byte>, r: Rebinding, binders: seq<Rebinding>)
    requires ExactLinks(mem, loaded, now, name, binders) && ExactLink(mem, loaded, now, name, [r] + binders, 0)
    ensures ExactLinks(mem, loaded, now, name, [r] + binders)
  {
    var longer := [r] + binders;
    forall j | 0 <= j < |longer| ensures ExactLink(mem, loaded, now, name, longer, j) {
      if j > 0 {
        assert ExactLink(mem, loaded, now, name, binders, j - 1) && longer[j] == binders[j - 1];
      }
    }
  }

  lemma RegisterKeepsCells(mem: Memory, st: State, e: Event, images: set<Image>, cells: set<Address>, name: seq<Byte>)
    requires GlobalStep(mem, st, e, images, cells) && e.Register? && Succeeds(e)
    requires Distinct(Flatten(Step(st, e).calls))
    ensures CellsKept(st.mem, Step(st, e).mem, Binders(st.calls, name))
  {
    assert Flatten(Step(st, e).calls) == e.rebindings + Flatten(st.calls);
    BindersExact(st.calls, name);
    forall r | r in Binders(st.calls, name) && r.replaced.Some?
      ensures Step(st, e).mem[r.replaced.value] == st.mem[r.replaced.value]
    {
      OlderCellKept(mem, st, e, images, cells, r);
    }
  }

  lemma BindersOfCall(st: State, e: Event, name: seq<Byte>)
    requires e.Register? && Succeeds(e)
    ensures var m, older := FirstMatch(e.rebindings, name), Binders(st.calls, name);
      Binders(Step(st, e).calls, name) == if m.Some? then [m.value] + older else older
  {
    assert Step(st, e).calls[0] == e.rebindings && Step(st, e).calls[1..] == st.calls;
  }

  lemma NewestCellIsExact(mem: Memory, st: State, e: Event, images: set<Image>, cells: set<Address>, r: Rebinding,
                          img: Image, slot: Slot)
    requires GlobalStep(mem, st, e, images, cells) && e.Register? && Succeeds(e)
    requires Distinct(Flatten(Step(st, e).calls)) && Foreign(mem, Flatten(Step(st, e).calls), images)
    requires FirstMatch(e.rebindings, r.Name()) == Some(r) && r.replaced.Some?
    requires img in st.images && HasSlot(img, slot) && slot.name == Some(r.Name())
    ensures var bs := Binders(st.calls, r.Name());
      if bs == [] then IsOriginal(mem, st.images, r.Name(), Step(st, e).mem[r.replaced.value])
      else Step(st, e).mem[r.replaced.value] == bs[0].replacement
  {
    var after, rs, older := Step(st, e), e.rebindings, Flatten(st.calls);
    assert Flatten(after.calls) == rs + older;
    DistinctParts(rs, older);
    FirstMatchConcat(rs, older, r.Name());
    FirstMatchMember(rs, r.Name());
    FirstMatchMember(older, r.Name());
    assert st.mem[slot.addr] != r.replacement;
    assert Saves(st.mem, Flatten(after.calls), slot, r.replaced.value);
    CellChange(mem, st, e, images, cells, r);
    var from, s :| SavedFrom(st, e, r, from, s);
    BindersExact(st.calls, r.Name());
    if Binders(st.calls, r.Name()) == [] {
      assert st.mem[s.addr] == mem[s.addr];
    }
  }

  lemma NewestLinkIsExact(mem: Memory, st: State, e: Event, images: set<Image>, cells: set<Address>,
                          name: seq<Byte>, img: Image)
    requires GlobalStep(mem, st, e, images, cells) && e.Register? && Succeeds(e)
    requires Distinct(Flatten(Step(st, e).calls)) && Foreign(mem, Flatten(Step(st, e).calls), images)
    requires img in st.images && HasName(img, name) && FirstMatch(e.rebindings, name).Some?
    ensures ExactLink(mem, st.images, Step(st, e).mem, name,
                      [FirstMatch(e.rebindings, name).value] + Binders(st.calls, name), 0)
  {
    var r := FirstMatch(e.rebindings, name).value;
    FirstMatchMember(e.rebindings, name);
    if r.replaced.Some? {
      var slot :| HasSlot(img, slot) && slot.name == Some(name);
      NewestCellIsExact(mem, st, e, images, cells, r, img, slot);
      FirstLink(mem, st.images, Step(st, e).mem, name, r, Binders(st.calls, name));
    }
  }

  lemma FirstLink(mem: Memory, loaded: seq<Image>, now: Memory, name: seq<Byte>, r: Rebinding, older: seq<Rebinding>)
    requires r.replaced.Some?
    requires if older == [] then IsOriginal(mem, loaded, name, now[r.replaced.value])
             else now[r.replaced.value] == older[0].replacement
    ensures ExactLink(mem, loaded, now, name, [r] + older, 0)
  {
  }

  lemma RegisterKeepsExactChain(mem: Memory, st: State, e: Event, images: set<Image>, cells: set<Address>,
                                name: seq<Byte>, img: Image)
    requires GlobalStep(mem, st, e, images, cells) && e.Register? && Succeeds(e)
    requires Distinct(Flatten(Step(st, e).calls)) && Foreign(mem, Flatten(Step(st, e).calls), images)
    requires img in st.images && HasName(img, name)
    requires ExactChain(mem, st, name)
    ensures ExactChain(mem, Step(st, e), name)
  {
    var now, bs := Step(st, e).mem, Binders(st.calls, name);
    BindersOfCall(st, e, name);
    RegisterKeepsCells(mem, st, e, images, cells, name);
    LinksKept(mem, st.images, st.images, st.mem, now, name, bs);
    if FirstMatch(e.rebindings, name).Some? {
      NewestLinkIsExact(mem, st, e, images, cells, name, img);
      LinkAdded(mem, st.images, now, name, FirstMatch(e.rebindings, name).value, bs);
    }
  }

  lemma LoadKeepsCells(mem: Memory, st: State, e: Event, images: set<Image>, cells: set<Address>, name: seq<Byte>)
    requires GlobalStep(mem, st, e, images, cells) && e.LoadImage?
    requires Distinct(Flatten(st.calls)) && (HasName(e.image, name) ==> Binders(st.calls, name) == [])
    ensures CellsKept(st.mem, Step(st, e).mem, Binders(st.calls, name))
  {
    BindersExact(st.calls, name);
    forall r | r in Binders(st.calls, name) && r.replaced.Some?
      ensures Step(st, e).mem[r.replaced.value] == st.mem[r.replaced.value]
    {
      CellChange(mem, st, e, images, cells, r);
      if from, s :| SavedFrom(st, e, r, from, s) {
        assert false;
      }
    }
  }

  lemma LoadKeepsExactChain(mem: Memory, st: State, e: Event, images: set<Image>, cells: set<Address>, name: seq<Byte>)
    requires GlobalStep(mem, st, e, images, cells) && e.LoadImage?
    requires Distinct(Flatten(st.calls)) && (HasName(e.image, name) ==> Binders(st.calls, name) == [])
    requires ExactChain(mem, st, name)
    ensures ExactChain(mem, Step(st, e), name)
  {
    LoadKeepsCells(mem, st, e, images, cells, name);
    LinksKept(mem, st.images, Step(st, e).images, st.mem, Step(st, e).mem, name, Binders(st.calls, name));
  }

  lemma OneMoreKeepsExactChain(mem: Memory, st: State, e: Event, images: set<Image>, cells: set<Address>,
                               name: seq<Byte>)
    requires GlobalStep(mem, st, e, images, cells)
    requires Distinct(Flatten(Step(st, e).calls)) && Foreign(mem, Flatten(Step(st, e).calls), images)
    requires e.LoadImage? && HasName(e.image, name) ==> Binders(st.calls, name) == []
    requires SomeSlot(st.images, name) ==> ExactChain(mem, st, name)
    ensures SomeSlot(Step(st, e).images, name) ==> ExactChain(mem, Step(st, e), name)
  {
    if e.Register? && Succeeds(e) {
      if img :| img in st.images && HasName(img, name) {
        RegisterKeepsExactChain(mem, st, e, images, cells, name, img);
      }
    } else if e.LoadImage? {
      if SomeSlot(st.images, name) || Binders(st.calls, name) == [] {
        LoadKeepsExactChain(mem, st, e, images, cells, name);
      }
    }
  }

  lemma LoadedBefore(events: seq<Event>, name: seq<Byte>)
    requires events != [] && LoadedBeforeBound(events, name)
    ensures LoadedBeforeBound(events[..|events| - 1], name)
  {
    var n := |events| - 1;
    forall k | 0 <= k < n && events[..n][k].LoadImage? && HasName(events[..n][k].image, name)
      ensures Binders(Registrations(events[..n][..k]), name) == []
    {
      assert events[..n][..k] == events[..k];
    }
  }

  lemma ForeignBefore(mem: Memory, events: seq<Event>, images: set<Image>)
    requires events != [] && Foreign(mem, Flatten(Run(mem, events).calls), images)
    ensures Foreign(mem, Flatten(Run(mem, events[..|events| - 1]).calls), images)
  {
    var st, e := Run(mem, events[..|events| - 1]), events[|events| - 1];
    if e.Register? && Succeeds(e) {
      assert Flatten(Run(mem, events).calls) == e.rebindings + Flatten(st.calls);
    }
  }

  lemma {:induction false} ExactChainInvariant(mem: Memory, events: seq<Event>, images: set<Image>,
                                               cells: set<Address>, name: seq<Byte>)
    requires Within(events, images, cells) && GlobalOnly(events) && LoadedBeforeBound(events, name)
    requires Distinct(Flatten(Run(mem, events).calls)) && Foreign(mem, Flatten(Run(mem, events).calls), images)
    ensures SomeSlot(Run(mem, events).images, name) ==> ExactChain(mem, Run(mem, events), name)
  {
    if events != [] {
      var n := |events| - 1;
      PrefixWithin(events, images, cells);
      RunIsProper(mem, events[..n], images, cells);
      RunIsProper(mem, events, images, cells);
      RunCallsAndImages(mem, events[..n]);
      SuffixDistinct(mem, events);
      ForeignBefore(mem, events, images);
      LoadedBefore(events, name);
      ExactChainInvariant(mem, events[..n], images, cells, name);
      OneMoreKeepsExactChain(mem, Run(mem, events[..n]), events[n], images, cells, name);
    }
  }

  /** If all images with slots for a name, at least one, are loaded before the first call that binds it,
      then the calls form an exact chain: each saved pointer is the previous call's replacement, and the
      first call's is an original. */
  lemma CallsFormExactChain(mem: Memory, events: seq<Event>, images: set<Image>, cells: set<Address>, name: seq<Byte>,
                            img: Image)
    requires Within(events, images, cells) && GlobalOnly(events) && LoadedBeforeBound(events, name)
    requires Distinct(Flatten(Registrations(events))) && Foreign(mem, Flatten(Registrations(events)), images)
    requires img in Loaded(events) && HasName(img, name)
    ensures var bs := Binders(Registrations(events), name);
      forall j :: 0 <= j < |bs| ==> ExactLink(mem, Loaded(events), Run(mem, events).mem, name, bs, j)
  {
    RunCallsAndImages(mem, events);
    ExactChainInvariant(mem, events, images, cells, name);
  }

  /** A later load of an image with a slot for a bound name breaks the exact chain: the newest hook's
      saved pointer becomes a load-time pointer of that image, whichever hooks are older. */
  lemma LateLoadResetsNewestCell(mem: Memory, events: seq<Event>, images: set<Image>, cells: set<Address>, r: Rebinding)
    requires events != [] && Within(events, images, cells) && GlobalOnly(events)
    requires Distinct(Flatten(Run(mem, events).calls)) && Foreign(mem, Flatten(Run(mem, events).calls), images)
    requires var e := events[|events| - 1];
      e.LoadImage? && HasName(e.image, r.Name()) && e.image !in Loaded(events[..|events| - 1])
    requires FirstMatch(Flatten(Run(mem, events).calls), r.Name()) == Some(r) && r.replaced.Some?
    ensures IsOriginal(mem, [events[|events| - 1].image], r.Name(), Run(mem, events).mem[r.replaced.value])
  {
    var n := |events| - 1;
    var st, e := Run(mem, events[..n]), events[n];
    PrefixWithin(events, images, cells);
    RunIsProper(mem, events[..n], images, cells);
    RunIsProper(mem, events, images, cells);
    RunCallsAndImages(mem, events[..n]);
    LoadSavesOriginal(mem, st, e, images, cells, r);
  }

  lemma LoadSavesOriginal(mem: Memory, st: State, e: Event, images: set<Image>, cells: set<Address>, r: Rebinding)
    requires GlobalStep(mem, st, e, images, cells) && e.LoadImage? && e.image in images && e.image !in st.images
    requires Distinct(Flatten(st.calls)) && Foreign(mem, Flatten(st.calls), images)
    requires HasName(e.image, r.Name()) && FirstMatch(Flatten(st.calls), r.Name()) == Some(r) && r.replaced.Some?
    ensures IsOriginal(mem, [e.image], r.Name(), Step(st, e).mem[r.replaced.value])
  {
    FirstMatchMember(Flatten(st.calls), r.Name());
    var slot :| HasSlot(e.image, slot) && slot.name == Some(r.Name());
    assert st.mem[slot.addr] == mem[slot.addr];
    assert Visited(st, e) == [e.image] && Saves(st.mem, Flatten(st.calls), slot, r.replaced.value);
    SaverIsNotKept(st, e, r, e.image, slot);
    CellChange(mem, st, e, images, cells, r);
    var from, s :| SavedFrom(st, e, r, from, s);
    LoadSavesFromImage(mem, st, e, images, cells, r, from, s);
  }

  lemma LoadSavesFromImage(mem: Memory, st: State, e: Event, images: set<Image>, cells: set<Address>, r: Rebinding,
                           from: Image, s: Slot)
    requires GlobalStep(mem, st, e, images, cells) && e.LoadImage? && e.image in images && e.image !in st.images
    requires r.replaced.Some? && SavedFrom(st, e, r, from, s)
    ensures IsOriginal(mem, [e.image], r.Name(), Step(st, e).mem[r.replaced.value])
  {
    assert from in [e.image] && st.mem[s.addr] == mem[s.addr];
  }

  lemma SaverIsNotKept(st: State, e: Event, r: Rebinding, img: Image, slot: Slot)
    requires r.replaced.Some? && img in Visited(st, e) && HasSlot(img, slot)
    requires Saves(st.mem, Flatten(Step(st, e).calls), slot, r.replaced.value)
    ensures !CellKept(st, e, r)
  {
  }
}
