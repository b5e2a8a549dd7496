/** What each `replaced` cell holds in any run of global calls and image loads. */
module SavedPointers {
  import opened CStrings
  import opened MachO
  import opened Binding
  import opened Protocol
  import opened Runs
  import opened SingleImage
  import opened Wrappers

  /** No two entries share a replacement or a cell. */
  ghost predicate Distinct(list: seq<Rebinding>)
  {
    forall i, j :: 0 <= i < j < |list| ==>
      list[i].replacement != list[j].replacement && (list[i].replaced.Some? ==> list[i].replaced != list[j].replaced)
  }

  /** No replacement is the load-time pointer of a slot. */
  ghost predicate Foreign(mem: Memory, list: seq<Rebinding>, images: set<Image>)
  {
    forall r, img, slot :: r in list && img in images && HasSlot(img, slot) ==> r.replacement != mem[slot.addr]
  }

  /** `v` is the load-time pointer of a slot with this name in a loaded image. */
  ghost predicate IsOriginal(mem: Memory, loaded: seq<Image>, name: seq<Byte>, v: Pointer)
  {
    exists img, slot :: img in loaded && HasSlot(img, slot) && slot.name == Some(name) && v == mem[slot.addr]
  }

  /* ----- lists of distinct entries ----- */

  lemma SameCell(list: seq<Rebinding>, a: Rebinding, b: Rebinding)
    requires Distinct(list) && a in list && b in list && a.replaced.Some? && a.replaced == b.replaced
    ensures a == b
  {
  }

  lemma SameReplacement(list: seq<Rebinding>, a: Rebinding, b: Rebinding)
    requires Distinct(list) && a in list && b in list && a.replacement == b.replacement
    ensures a == b
  {
  }

  lemma DistinctParts(a: seq<Rebinding>, b: seq<Rebinding>)
    requires Distinct(a + b)
    ensures Distinct(a) && Distinct(b)
    ensures forall x, y :: x in a && y in b ==>
      x.replacement != y.replacement && (x.replaced.Some? ==> x.replaced != y.replaced)
  {
    forall i, j | 0 <= i < j < |a|
      ensures a[i].replacement != a[j].replacement && (a[i].replaced.Some? ==> a[i].replaced != a[j].replaced)
    {
      assert (a + b)[i] == a[i] && (a + b)[j] == a[j];
    }
    forall i, j | 0 <= i < j < |b|
      ensures b[i].replacement != b[j].replacement && (b[i].replaced.Some? ==> b[i].replaced != b[j].replaced)
    {
      assert (a + b)[|a| + i] == b[i] && (a + b)[|a| + j] == b[j];
    }
    forall x, y | x in a && y in b
      ensures x.replacement != y.replacement && (x.replaced.Some? ==> x.replaced != y.replaced)
    {
      var i :| 0 <= i < |a| && a[i] == x;
      var j :| 0 <= j < |b| && b[j] == y;
      assert (a + b)[i] == x && (a + b)[|a| + j] == y;
    }
  }

  lemma {:induction false} FlattenOrigin(calls: Calls, r: Rebinding) returns (q: nat)
    requires r in Flatten(calls)
    ensures q < |calls| && r in calls[q]
  {
    if r in calls[0] {
      q := 0;
    } else {
      q := FlattenOrigin(calls[1..], r);
      q := q + 1;
    }
  }

  lemma {:induction false} FlattenComplete(calls: Calls, q: nat, r: Rebinding)
    requires q < |calls| && r in calls[q]
    ensures r in Flatten(calls)
  {
    if q > 0 {
      FlattenComplete(calls[1..], q - 1, r);
    }
  }

  lemma FlattenMember(calls: Calls, r: Rebinding)
    ensures r in Flatten(calls) <==> exists q :: 0 <= q < |calls| && r in calls[q]
  {
    if r in Flatten(calls) {
      var q := FlattenOrigin(calls, r);
    }
    if q :| 0 <= q < |calls| && r in calls[q] {
      FlattenComplete(calls, q, r);
    }
  }

  /* ----- one step ----- */

  /** What every state of a run without single-image calls satisfies. */
  ghost predicate Proper(mem: Memory, st: State, images: set<Image>, cells: set<Address>)
  {
    && NoAliasing(images, cells) && StateWithin(st, images, cells) && BoundWithList(mem, st, images)
    && st.callbacks == (if st.calls == [] then 0 else 1)
  }

  lemma RunIsProper(mem: Memory, events: seq<Event>, images: set<Image>, cells: set<Address>)
    requires Within(events, images, cells) && GlobalOnly(events)
    ensures Proper(mem, Run(mem, events), images, cells)
  {
    RunWithin(mem, events, images, cells);
    EverySlotIsBound(mem, events, images, cells);
    CallbackRegisteredOnce(mem, events);
  }

  /** The images over which a step makes a pass. */
  ghost function Visited(st: State, e: Event): seq<Image>
  {
    if e.Register? && Succeeds(e) then st.images
    else if e.LoadImage? && st.calls != [] then [e.image]
    else []
  }

  ghost predicate GlobalStep(mem: Memory, st: State, e: Event, images: set<Image>, cells: set<Address>)
  {
    Proper(mem, st, images, cells) && Proper(mem, Step(st, e), images, cells) && !(e.RebindImage? && Succeeds(e))
  }

  lemma StepIsPass(mem: Memory, st: State, e: Event, images: set<Image>, cells: set<Address>)
    requires GlobalStep(mem, st, e, images, cells)
    ensures Step(st, e).mem == BindImages(st.mem, Flatten(Step(st, e).calls), Visited(st, e))
    ensures forall img <- Visited(st, e) :: img in Step(st, e).images && img in images
  {
    if e.LoadImage? && st.calls != [] {
      assert Notify(st.mem, Flatten(st.calls), e.image, 0) == st.mem;
      assert [e.image][..0] == [];
      assert e.image in Step(st, e).images;
    }
  }

  /** In this step, `slot` is one whose first match is now `r` but that held another pointer, and the
      cell of `r` gets that pointer. */
  ghost predicate SavedFrom(st: State, e: Event, r: Rebinding, img: Image, slot: Slot)
    requires r.replaced.Some?
  {
    && img in Visited(st, e) && HasSlot(img, slot) && slot.name == Some(r.Name())
    && FirstMatch(Flatten(Step(st, e).calls), r.Name()) == Some(r) && st.mem[slot.addr] != r.replacement
    && Step(st, e).mem[r.replaced.value] == st.mem[slot.addr]
  }

  ghost predicate CellKept(st: State, e: Event, r: Rebinding)
    requires r.replaced.Some?
  {
    && NoneSaves(st.mem, Flatten(Step(st, e).calls), Visited(st, e), r.replaced.value)
    && Step(st, e).mem[r.replaced.value] == st.mem[r.replaced.value]
  }

  /** A cell changes in a step only by a slot with its rebinding's name. */
  lemma CellChange(mem: Memory, st: State, e: Event, images: set<Image>, cells: set<Address>, r: Rebinding)
    requires GlobalStep(mem, st, e, images, cells)
    requires Distinct(Flatten(Step(st, e).calls)) && r in Flatten(Step(st, e).calls) && r.replaced.Some?
    ensures CellKept(st, e, r) || exists img, slot :: SavedFrom(st, e, r, img, slot)
  {
    var list := Flatten(Step(st, e).calls);
    var cell := r.replaced.value;
    StepIsPass(mem, st, e, images, cells);
    assert cell in Cells(list);
    CellsAfterImages(st.mem, list, Visited(st, e), images, cells, cell);
    if SavesIn(st.mem, list, Visited(st, e), cell, Step(st, e).mem[cell]) {
      var img, slot :| img in Visited(st, e) && HasSlot(img, slot) && Saves(st.mem, list, slot, cell)
        && Step(st, e).mem[cell] == st.mem[slot.addr];
      FirstMatchMember(list, slot.name.value);
      SameCell(list, r, FirstMatch(list, slot.name.value).value);
      assert SavedFrom(st, e, r, img, slot);
    }
  }

  /** What such a slot held: its load-time pointer, if it had not been bound by that name, or else the
      replacement that the list before the step gives the name. */
  lemma SavedPointerOrigin(mem: Memory, st: State, e: Event, images: set<Image>, cells: set<Address>, r: Rebinding,
                           img: Image, slot: Slot)
    requires GlobalStep(mem, st, e, images, cells) && r.replaced.Some? && SavedFrom(st, e, r, img, slot)
    ensures
      || IsOriginal(mem, Step(st, e).images, r.Name(), st.mem[slot.addr])
      || (e.Register? && Succeeds(e) && FirstMatch(Flatten(st.calls), r.Name()).Some?
          && st.mem[slot.addr] == FirstMatch(Flatten(st.calls), r.Name()).value.replacement)
  {
    StepIsPass(mem, st, e, images, cells);
    if st.mem[slot.addr] == mem[slot.addr] {
      assert IsOriginal(mem, Step(st, e).images, r.Name(), st.mem[slot.addr]);
    }
  }

  /** A successful call writes no cell of an older call. */
  lemma OlderCellKept(mem: Memory, st: State, e: Event, images: set<Image>, cells: set<Address>, r: Rebinding)
    requires GlobalStep(mem, st, e, images, cells) && e.Register? && Succeeds(e)
    requires Distinct(Flatten(Step(st, e).calls)) && r in Flatten(st.calls) && r.replaced.Some?
    ensures CellKept(st, e, r)
  {
    var older, rs := Flatten(st.calls), e.rebindings;
    assert Flatten(Step(st, e).calls) == rs + older;
    DistinctParts(rs, older);
    CellChange(mem, st, e, images, cells, r);
    if img, slot :| SavedFrom(st, e, r, img, slot) {
      FirstMatchConcat(rs, older, r.Name());
      FirstMatchMember(rs, r.Name());
      assert FirstMatch(older, r.Name()) == Some(r);
    }
  }

  lemma SuffixDistinct(mem: Memory, events: seq<Event>)
    requires events != [] && Distinct(Flatten(Run(mem, events).calls))
    ensures Distinct(Flatten(Run(mem, events[..|events| - 1]).calls))
  {
    var st := Run(mem, events[..|events| - 1]);
    var e := events[|events| - 1];
    if e.Register? && Succeeds(e) {
      assert Flatten([e.rebindings] + st.calls) == e.rebindings + Flatten(st.calls);
      DistinctParts(e.rebindings, Flatten(st.calls));
    }
  }

  lemma PrefixWithin(events: seq<Event>, images: set<Image>, cells: set<Address>)
    requires events != [] && Within(events, images, cells) && GlobalOnly(events)
    ensures Within(events[..|events| - 1], images, cells) && GlobalOnly(events[..|events| - 1])
  {
  }

  /* ----- what a cell holds ----- */

  /** The cell of `r`, an entry of `calls[p]`, holds its initial value, the load-time pointer of a slot
      with r's name, or the replacement of an entry with that name in a strictly older call. */
  ghost predicate CellOk(mem: Memory, st: State, p: nat, r: Rebinding)
    requires r.replaced.Some?
  {
    var v := st.mem[r.replaced.value];
    || v == mem[r.replaced.value]
    || IsOriginal(mem, st.images, r.Name(), v)
    || exists q, older ::
         p < q < |st.calls| && older in st.calls[q] && older.Name() == r.Name() && v == older.replacement
  }

  lemma CallOfFirstMatch(calls: Calls, name: seq<Byte>) returns (q: nat)
    requires FirstMatch(Flatten(calls), name).Some?
    ensures var b := FirstMatch(Flatten(calls), name).value; q < |calls| && b in calls[q] && b.Name() == name
  {
    var b := FirstMatch(Flatten(calls), name).value;
    FirstMatchMember(Flatten(calls), name);
    FlattenMember(calls, b);
    q :| 0 <= q < |calls| && b in calls[q];
  }

  lemma NewCellOk(mem: Memory, events: seq<Event>, images: set<Image>, cells: set<Address>, r: Rebinding)
    requires events != [] && Within(events, images, cells) && GlobalOnly(events)
    requires Distinct(Flatten(Run(mem, events).calls)) && r.replaced.Some?
    requires var e := events[|events| - 1]; e.Register? && Succeeds(e) && r in e.rebindings
    ensures CellOk(mem, Run(mem, events), 0, r)
  {
    var n := |events| - 1;
    var st, e := Run(mem, events[..n]), events[n];
    PrefixWithin(events, images, cells);
    RunIsProper(mem, events[..n], images, cells);
    RunIsProper(mem, events, images, cells);
    var older := Flatten(st.calls);
    assert Flatten([e.rebindings] + st.calls) == e.rebindings + older;
    DistinctParts(e.rebindings, older);
    CellChange(mem, st, e, images, cells, r);
    if img, slot :| SavedFrom(st, e, r, img, slot) {
      SavedPointerOrigin(mem, st, e, images, cells, r, img, slot);
      if FirstMatch(older, r.Name()).Some? && st.mem[slot.addr] == FirstMatch(older, r.Name()).value.replacement {
        var q := CallOfFirstMatch(st.calls, r.Name());
        assert FirstMatch(older, r.Name()).value in Step(st, e).calls[q + 1];
      }
    } else {
      assert r.replaced.value !in Cells(older);
      assert r.replaced.value in Cells(e.rebindings);
      RunCalls(mem, events[..n]);
      EntriesOfGlobalRun(events[..n]);
      UnusedCellsKeepInitialValue(mem, events[..n], images, cells, r.replaced.value);
    }
  }

  lemma LastStep(mem: Memory, events: seq<Event>, images: set<Image>, cells: set<Address>)
    requires events != [] && Within(events, images, cells) && GlobalOnly(events)
    requires Distinct(Flatten(Run(mem, events).calls))
    ensures var before := events[..|events| - 1];
      && Within(before, images, cells) && GlobalOnly(before) && Distinct(Flatten(Run(mem, before).calls))
      && GlobalStep(mem, Run(mem, before), events[|events| - 1], images, cells)
  {
    PrefixWithin(events, images, cells);
    RunIsProper(mem, events[..|events| - 1], images, cells);
    RunIsProper(mem, events, images, cells);
    SuffixDistinct(mem, events);
  }

  /** A call keeps what the cells of older calls hold. */
  lemma OlderCellOk(mem: Memory, st: State, e: Event, images: set<Image>, cells: set<Address>, p: nat, r: Rebinding)
    requires GlobalStep(mem, st, e, images, cells) && e.Register? && Succeeds(e)
    requires Distinct(Flatten(Step(st, e).calls))
    requires p < |st.calls| && r in st.calls[p] && r.replaced.Some? && CellOk(mem, st, p, r)
    ensures CellOk(mem, Step(st, e), p + 1, r)
  {
    FlattenMember(st.calls, r);
    OlderCellKept(mem, st, e, images, cells, r);
    KeptCellOk(mem, st, Step(st, e), p, p + 1, r);
  }

  /** A load may write a cell, but only with a load-time pointer of the image. */
  lemma CellOkAfterLoad(mem: Memory, st: State, e: Event, images: set<Image>, cells: set<Address>, p: nat, r: Rebinding)
    requires GlobalStep(mem, st, e, images, cells) && !(e.Register? && Succeeds(e))
    requires Distinct(Flatten(st.calls))
    requires p < |st.calls| && r in st.calls[p] && r.replaced.Some? && CellOk(mem, st, p, r)
    ensures CellOk(mem, Step(st, e), p, r)
  {
    FlattenMember(st.calls, r);
    CellChange(mem, st, e, images, cells, r);
    if img, slot :| SavedFrom(st, e, r, img, slot) {
      SavedPointerOrigin(mem, st, e, images, cells, r, img, slot);
    } else {
      KeptCellOk(mem, st, Step(st, e), p, p, r);
    }
  }

  lemma OlderContents(mem: Memory, events: seq<Event>, images: set<Image>, cells: set<Address>, p: nat, r: Rebinding)
    requires events != [] && Within(events, images, cells) && GlobalOnly(events)
    requires Distinct(Flatten(Run(mem, events).calls)) && r.replaced.Some?
    requires events[|events| - 1].Register? && Succeeds(events[|events| - 1])
    requires var st := Run(mem, events[..|events| - 1]);
      p < |st.calls| && r in st.calls[p] && CellOk(mem, st, p, r)
    ensures CellOk(mem, Run(mem, events), p + 1, r)
  {
    LastStep(mem, events, images, cells);
    OlderCellOk(mem, Run(mem, events[..|events| - 1]), events[|events| - 1], images, cells, p, r);
  }

  lemma LoadContents(mem: Memory, events: seq<Event>, images: set<Image>, cells: set<Address>, p: nat, r: Rebinding)
    requires events != [] && Within(events, images, cells) && GlobalOnly(events)
    requires Distinct(Flatten(Run(mem, events).calls)) && r.replaced.Some?
    requires !(events[|events| - 1].Register? && Succeeds(events[|events| - 1]))
    requires var st := Run(mem, events[..|events| - 1]);
      p < |st.calls| && r in st.calls[p] && CellOk(mem, st, p, r)
    ensures CellOk(mem, Run(mem, events), p, r)
  {
    LastStep(mem, events, images, cells);
    CellOkAfterLoad(mem, Run(mem, events[..|events| - 1]), events[|events| - 1], images, cells, p, r);
  }

  /** Where an entry was before the last event. */
  lemma EntryBefore(mem: Memory, events: seq<Event>, p: nat, r: Rebinding)
    requires events != [] && p < |Run(mem, events).calls| && r in Run(mem, events).calls[p]
    ensures var st, e := Run(mem, events[..|events| - 1]), events[|events| - 1];
      if !(e.Register? && Succeeds(e)) then p < |st.calls| && r in st.calls[p]
      else if p == 0 then r in e.rebindings
      else p - 1 < |st.calls| && r in st.calls[p - 1]
  {
    StepCallsAndImages(Run(mem, events[..|events| - 1]), events[|events| - 1]);
  }

  lemma {:induction false} CellContents(mem: Memory, events: seq<Event>, images: set<Image>, cells: set<Address>,
                                        p: nat, r: Rebinding)
    requires Within(events, images, cells) && GlobalOnly(events)
    requires Distinct(Flatten(Run(mem, events).calls))
    requires p < |Run(mem, events).calls| && r in Run(mem, events).calls[p] && r.replaced.Some?
    ensures CellOk(mem, Run(mem, events), p, r)
  {
    var before, e := events[..|events| - 1], events[|events| - 1];
    EntryBefore(mem, events, p, r);
    if e.Register? && Succeeds(e) && p == 0 {
      NewCellOk(mem, events, images, cells, r);
    } else {
      PrefixWithin(events, images, cells);
      SuffixDistinct(mem, events);
      if e.Register? && Succeeds(e) {
        CellContents(mem, before, images, cells, p - 1, r);
        OlderContents(mem, events, images, cells, p - 1, r);
      } else {
        CellContents(mem, before, images, cells, p, r);
        LoadContents(mem, events, images, cells, p, r);
      }
    }
  }

  lemma KeptCellOk(mem: Memory, st: State, after: State, p: nat, p': nat, r: Rebinding)
    requires r.replaced.Some? && CellOk(mem, st, p, r) && p <= p'
    requires after.mem[r.replaced.value] == st.mem[r.replaced.value]
    requires forall img <- st.images :: img in after.images
    requires |after.calls| == |st.calls| + (p' - p) && after.calls[p' - p..] == st.calls
    ensures CellOk(mem, after, p', r)
  {
    var v := st.mem[r.replaced.value];
    if q, older :| p < q < |st.calls| && older in st.calls[q] && older.Name() == r.Name() && v == older.replacement {
      assert after.calls[q + (p' - p)] == st.calls[q];
    }
  }
}
