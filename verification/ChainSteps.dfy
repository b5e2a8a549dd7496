/** Where following hooks leads after every event of every run, single-image calls included. */
module ChainSteps {
  import opened CStrings
  import opened MachO
  import opened Binding
  import opened Protocol
  import opened Runs
  import opened SingleImage
  import opened SavedPointers
  import opened Chains
  import opened Cycles
  import opened Wrappers

  /* ----- following ----- */

  /** Following from `v` comes to `w`. */
  ghost predicate Leads(list: seq<Rebinding>, mem: Memory, v: Pointer, w: Pointer)
  {
    exists steps: nat :: Follow(list, mem, v, steps) == w
  }

  lemma {:induction false} FollowPlus(list: seq<Rebinding>, mem: Memory, v: Pointer, i: nat, j: nat)
    ensures Follow(list, mem, v, i + j) == Follow(list, mem, Follow(list, mem, v, i), j)
    decreases i
  {
    if i > 0 {
      if Next(list, mem, v).Some? {
        FollowPlus(list, mem, Next(list, mem, v).value, i - 1, j);
      }
    }
  }

  lemma EndsLater(list: seq<Rebinding>, mem: Memory, v: Pointer, i: nat)
    ensures Ends(list, mem, v) <==> Ends(list, mem, Follow(list, mem, v, i))
  {
    var w := Follow(list, mem, v, i);
    if Ends(list, mem, v) {
      var s: nat :| Next(list, mem, Follow(list, mem, v, s)) == None;
      if s >= i {
        FollowPlus(list, mem, v, i, s - i);
        assert Follow(list, mem, w, s - i) == Follow(list, mem, v, s);
      } else {
        FollowMore(list, mem, v, s, i);
        EndsAtOnce(list, mem, w);
      }
    }
    if Ends(list, mem, w) {
      var s: nat :| Next(list, mem, Follow(list, mem, w, s)) == None;
      FollowPlus(list, mem, v, i, s);
    }
  }

  lemma {:induction false} Around(list: seq<Rebinding>, mem: Memory, v: Pointer, k: nat, j: nat) returns (n: nat)
    requires k > 0 && Follow(list, mem, v, k) == v
    ensures n >= j && Follow(list, mem, v, n) == v
  {
    if j == 0 {
      n := 0;
    } else {
      n := Around(list, mem, v, k, j - 1);
      FollowPlus(list, mem, v, n, k);
      n := n + k;
    }
  }

  /** A hook that leads back to itself never ends. */
  lemma CycleNeverEnds(list: seq<Rebinding>, mem: Memory, v: Pointer)
    requires Next(list, mem, v).Some? && Leads(list, mem, Next(list, mem, v).value, v)
    ensures !Ends(list, mem, v)
  {
    var k: nat :| Follow(list, mem, Next(list, mem, v).value, k) == v;
    assert Follow(list, mem, v, k + 1) == v;
    if s: nat :| Next(list, mem, Follow(list, mem, v, s)) == None {
      var n := Around(list, mem, v, k + 1, s);
      FollowMore(list, mem, v, s, n);
    }
  }

  /* ----- changing one cell ----- */

  /** The two memories agree on the cells of all hooks but `m`. */
  ghost predicate AgreeBut(list: seq<Rebinding>, was: Memory, now: Memory, m: Option<Rebinding>)
  {
    forall x :: x in list && x.replaced.Some? && Some(x) != m ==> now[x.replaced.value] == was[x.replaced.value]
  }

  lemma NextSame(list: seq<Rebinding>, was: Memory, now: Memory, m: Option<Rebinding>, v: Pointer)
    requires AgreeBut(list, was, now, m) && (m.Some? ==> v != m.value.replacement)
    ensures Next(list, now, v) == Next(list, was, v)
  {
    OwnerExact(list, v);
  }

  lemma {:induction false} FollowSame(list: seq<Rebinding>, was: Memory, now: Memory, m: Option<Rebinding>, v: Pointer,
                                      k: nat)
    requires AgreeBut(list, was, now, m)
    requires m.Some? ==> forall i: nat :: i < k ==> Follow(list, was, v, i) != m.value.replacement
    ensures Follow(list, now, v, k) == Follow(list, was, v, k)
    decreases k
  {
    if k > 0 {
      assert Follow(list, was, v, 0) == v;
      NextSame(list, was, now, m, v);
      if Next(list, was, v).Some? {
        var w := Next(list, was, v).value;
        assert forall i: nat :: i < k - 1 ==> Follow(list, was, w, i) == Follow(list, was, v, i + 1);
        FollowSame(list, was, now, m, w, k - 1);
      }
    }
  }

  /** A chain that does not come to `m` is as it was. */
  lemma EndsSame(list: seq<Rebinding>, was: Memory, now: Memory, m: Option<Rebinding>, v: Pointer)
    requires AgreeBut(list, was, now, m) && (m.Some? ==> !Leads(list, was, v, m.value.replacement))
    ensures Ends(list, now, v) <==> Ends(list, was, v)
  {
    forall s: nat ensures Next(list, now, Follow(list, now, v, s)) == Next(list, was, Follow(list, was, v, s)) {
      FollowSame(list, was, now, m, v, s);
      NextSame(list, was, now, m, Follow(list, was, v, s));
    }
  }

  lemma {:induction false} FirstVisit(list: seq<Rebinding>, mem: Memory, v: Pointer, w: Pointer,
                                      k: nat) returns (first: nat)
    requires Follow(list, mem, v, k) == w
    ensures Follow(list, mem, v, first) == w && forall i: nat :: i < first ==> Follow(list, mem, v, i) != w
  {
    if i: nat :| i < k && Follow(list, mem, v, i) == w {
      first := FirstVisit(list, mem, v, w, i);
    } else {
      first := k;
    }
  }

  /** A chain that comes to `m` still does, and ends exactly if `m` does. */
  lemma LeadsSame(list: seq<Rebinding>, was: Memory, now: Memory, m: Rebinding, v: Pointer)
    requires AgreeBut(list, was, now, Some(m)) && Leads(list, was, v, m.replacement)
    ensures Leads(list, now, v, m.replacement)
    ensures Ends(list, now, v) <==> Ends(list, now, m.replacement)
  {
    var k: nat :| Follow(list, was, v, k) == m.replacement;
    var first := FirstVisit(list, was, v, m.replacement, k);
    FollowSame(list, was, now, Some(m), v, first);
    EndsLater(list, now, v, first);
  }

  /** When the cell of one hook is set, the hook ends if and only if what it is set to ended and did not lead to
      the hook. */
  lemma ChangedHookEndsExactly(list: seq<Rebinding>, was: Memory, now: Memory, m: Rebinding)
    requires Distinct(list) && m in list && AgreeBut(list, was, now, Some(m))
    ensures Ends(list, now, m.replacement) <==>
      m.replaced.None? ||
      (var w := now[m.replaced.value]; Ends(list, was, w) && !Leads(list, was, w, m.replacement))
  {
    NextOfHook(list, now, m);
    if m.replaced.None? {
      EndsAtOnce(list, now, m.replacement);
    } else {
      var w := now[m.replaced.value];
      assert Follow(list, now, m.replacement, 1) == Follow(list, now, w, 0) == w;
      EndsLater(list, now, m.replacement, 1);
      if Leads(list, was, w, m.replacement) {
        LeadsSame(list, was, now, m, w);
        CycleNeverEnds(list, now, m.replacement);
      } else {
        EndsSame(list, was, now, Some(m), w);
      }
    }
  }

  /* ----- the hooks of one name ----- */

  /** The entries for a name that successful calls have passed. */
  function HooksFor(entries: seq<Rebinding>, name: seq<Byte>): seq<Rebinding>
  {
    if entries == [] then []
    else if entries[0].Name() == name then [entries[0]] + HooksFor(entries[1..], name)
    else HooksFor(entries[1..], name)
  }

  lemma {:induction false} HooksForExact(entries: seq<Rebinding>, name: seq<Byte>)
    ensures forall x :: x in HooksFor(entries, name) <==> x in entries && x.Name() == name
  {
    if entries != [] {
      HooksForExact(entries[1..], name);
      assert forall x :: x in entries <==> x == entries[0] || x in entries[1..];
    }
  }

  /** The hooks for the name have replacements and cells of their own, and no other name uses their cells. */
  ghost predicate OwnCells(entries: seq<Rebinding>, name: seq<Byte>)
  {
    && Distinct(HooksFor(entries, name))
    && forall x :: x in HooksFor(entries, name) && x.replaced.Some? ==> UsedFor(entries, x.replaced.value, name)
  }

  /** The entry that an event binds the name with. */
  ghost function StepBinder(st: State, e: Event, name: seq<Byte>): Option<Rebinding>
  {
    if PassImages(st, e) == [] then None else FirstMatch(PassList(st, e), name)
  }

  /** `entries` are those of a longer run, perhaps; what matters about them is said of the name. */
  ghost predicate Covers(entries: seq<Rebinding>, events: seq<Event>, cells: set<Address>, name: seq<Byte>)
  {
    OwnCells(entries, name) && Cells(entries) <= cells && forall x :: x in Entries(events) ==> x in entries
  }

  lemma NotFirst(mem: Memory, before: seq<Event>, e: Event, entries: seq<Rebinding>, cells: set<Address>,
                 name: seq<Byte>, x: Rebinding)
    requires PassImages(Run(mem, before), e) != [] && Covers(entries, before + [e], cells, name)
    requires x in HooksFor(entries, name) && x.replaced.Some? && Some(x) != StepBinder(Run(mem, before), e, name)
    ensures forall y :: y in PassList(Run(mem, before), e) && y.replaced == x.replaced ==>
      FirstMatch(PassList(Run(mem, before), e), y.Name()) != Some(y)
  {
    HooksForExact(entries, name);
    forall y | y in PassList(Run(mem, before), e) && y.replaced == x.replaced
      ensures FirstMatch(PassList(Run(mem, before), e), y.Name()) != Some(y)
    {
      PassListIsOfEntries(mem, before, e, before + [e], y);
      assert UsedFor(entries, x.replaced.value, name) && y.Name() == name;
      SameCell(HooksFor(entries, name), x, y);
    }
  }

  lemma HookCell(entries: seq<Rebinding>, cells: set<Address>, x: Rebinding, name: seq<Byte>)
    requires Cells(entries) <= cells && x in HooksFor(entries, name) && x.replaced.Some?
    ensures x.replaced.value in cells
  {
    HooksForExact(entries, name);
    assert x in entries && x.replaced.value in Cells(entries);
  }

  /** Only the cell of the binder is written, among those of the hooks for the name. */
  lemma OtherCellsKept(mem: Memory, before: seq<Event>, e: Event, entries: seq<Rebinding>, images: set<Image>,
                       cells: set<Address>, name: seq<Byte>)
    requires Within(before, images, cells) && EventWithin(e, images, cells)
    requires Covers(entries, before + [e], cells, name)
    ensures AgreeBut(HooksFor(entries, name), Run(mem, before).mem, Run(mem, before + [e]).mem,
                     StepBinder(Run(mem, before), e, name))
  {
    var st := Run(mem, before);
    AfterOneMore(mem, before, e);
    EveryStepIsPass(mem, before, e);
    PassWithin(mem, before, e, images, cells);
    forall x | x in HooksFor(entries, name) && x.replaced.Some? && Some(x) != StepBinder(st, e, name)
      ensures Run(mem, before + [e]).mem[x.replaced.value] == st.mem[x.replaced.value]
    {
      if PassImages(st, e) != [] {
        NotFirst(mem, before, e, entries, cells, name, x);
        HookCell(entries, cells, x, name);
        CellIsKept(st.mem, PassList(st, e), PassImages(st, e), images, cells, x);
      }
    }
  }

  /** The event makes no endless chain of its binder: that saves no pointer, or what the event leaves in its cell
      ended before and did not lead to the binder. */
  ghost predicate BinderEnds(hooks: seq<Rebinding>, st: State, e: Event, m: Rebinding)
  {
    m.replaced.None? ||
    (var w := CellAfter(st, e, m.replaced.value);
     Ends(hooks, st.mem, w) && !Leads(hooks, st.mem, w, m.replacement))
  }

  lemma WithinParts(before: seq<Event>, e: Event, images: set<Image>, cells: set<Address>)
    requires Within(before + [e], images, cells)
    ensures Within(before, images, cells) && EventWithin(e, images, cells)
  {
    assert forall k :: 0 <= k < |before| ==> (before + [e])[k] == before[k];
    assert (before + [e])[|before|] == e;
  }

  lemma BinderEndsExactly(mem: Memory, before: seq<Event>, e: Event, entries: seq<Rebinding>, images: set<Image>,
                          cells: set<Address>, name: seq<Byte>)
    requires Within(before + [e], images, cells) && Covers(entries, before + [e], cells, name)
    requires StepBinder(Run(mem, before), e, name).Some?
    ensures var m := StepBinder(Run(mem, before), e, name).value;
      var hooks := HooksFor(entries, name);
      m in hooks &&
      (Ends(hooks, Run(mem, before + [e]).mem, m.replacement) <==> BinderEnds(hooks, Run(mem, before), e, m))
  {
    var hooks, st, now := HooksFor(entries, name), Run(mem, before), Run(mem, before + [e]).mem;
    var m := StepBinder(st, e, name).value;
    WithinParts(before, e, images, cells);
    FirstMatchMember(PassList(st, e), name);
    PassListIsOfEntries(mem, before, e, before + [e], m);
    HooksForExact(entries, name);
    OtherCellsKept(mem, before, e, entries, images, cells, name);
    ChangedHookEndsExactly(hooks, st.mem, now, m);
    if m.replaced.Some? {
      HookCell(entries, cells, m, name);
      StepCells(mem, before, e, images, cells, m.replaced.value);
    }
  }

  /** For every event after every run, and every pointer: following the hooks for the name from it ends after the
      event as it did before, if it did not come to the binder; if it did, it ends if and only if the binder now
      does, which is if and only if the pointer now in its cell ended before and did not lead to the binder. */
  lemma EventEndsExactly(mem: Memory, before: seq<Event>, e: Event, entries: seq<Rebinding>, images: set<Image>,
                         cells: set<Address>, name: seq<Byte>, v: Pointer)
    requires Within(before + [e], images, cells) && Covers(entries, before + [e], cells, name)
    ensures var hooks, st, now := HooksFor(entries, name), Run(mem, before), Run(mem, before + [e]).mem;
      var m := StepBinder(st, e, name);
      Ends(hooks, now, v) <==>
        if m.None? || !Leads(hooks, st.mem, v, m.value.replacement) then Ends(hooks, st.mem, v)
        else BinderEnds(hooks, st, e, m.value)
  {
    var hooks, st, now := HooksFor(entries, name), Run(mem, before), Run(mem, before + [e]).mem;
    var m := StepBinder(st, e, name);
    WithinParts(before, e, images, cells);
    OtherCellsKept(mem, before, e, entries, images, cells, name);
    if m.None? || !Leads(hooks, st.mem, v, m.value.replacement) {
      EndsSame(hooks, st.mem, now, m, v);
    } else {
      LeadsSame(hooks, st.mem, now, m.value, v);
      BinderEndsExactly(mem, before, e, entries, images, cells, name);
    }
  }

  /** In particular for the slots that the event binds: the chain from such a slot ends if and only if the pointer
      saved through the binder's cell ended before and did not lead to the binder already. */
  lemma BoundSlotEndsExactly(mem: Memory, before: seq<Event>, e: Event, entries: seq<Rebinding>, images: set<Image>,
                             cells: set<Address>, img: Image, slot: Slot, m: Rebinding)
    requires Within(before + [e], images, cells) && Covers(entries, before + [e], cells, m.Name())
    requires img in PassImages(Run(mem, before), e) && HasSlot(img, slot) && slot.name == Some(m.Name())
    requires FirstMatch(PassList(Run(mem, before), e), m.Name()) == Some(m)
    ensures var hooks, now := HooksFor(entries, m.Name()), Run(mem, before + [e]).mem;
      now[slot.addr] == m.replacement &&
      (Ends(hooks, now, now[slot.addr]) <==> BinderEnds(hooks, Run(mem, before), e, m))
  {
    var st := Run(mem, before);
    WithinParts(before, e, images, cells);
    AfterOneMore(mem, before, e);
    EveryStepIsPass(mem, before, e);
    PassWithin(mem, before, e, images, cells);
    SlotAfterImages(st.mem, PassList(st, e), PassImages(st, e), images, cells, img, slot);
    BinderEndsExactly(mem, before, e, entries, images, cells, m.Name());
  }

  /* ----- whole runs ----- */

  ghost predicate AllEnd(hooks: seq<Rebinding>, mem: Memory)
  {
    forall v: Pointer :: Ends(hooks, mem, v)
  }

  /** Event `k` leaves in its binder's cell a pointer that led to the binder. */
  ghost predicate Closes(mem: Memory, events: seq<Event>, hooks: seq<Rebinding>, name: seq<Byte>, k: nat)
    requires k < |events|
  {
    var st := Run(mem, events[..k]);
    var m := StepBinder(st, events[k], name);
    m.Some? && m.value.replaced.Some? &&
    Leads(hooks, st.mem, CellAfter(st, events[k], m.value.replaced.value), m.value.replacement)
  }

  /** If all chains end before an event, they end after it if and only if it does not close one. */
  lemma AllEndStep(mem: Memory, events: seq<Event>, k: nat, entries: seq<Rebinding>, images: set<Image>,
                   cells: set<Address>, name: seq<Byte>)
    requires k < |events| && Within(events, images, cells) && Covers(entries, events, cells, name)
    requires AllEnd(HooksFor(entries, name), Run(mem, events[..k]).mem)
    ensures AllEnd(HooksFor(entries, name), Run(mem, events[..k + 1]).mem) <==>
      !Closes(mem, events, HooksFor(entries, name), name, k)
  {
    var before, e, hooks := events[..k], events[k], HooksFor(entries, name);
    var st, now := Run(mem, before), Run(mem, events[..k + 1]).mem;
    assert events[..k + 1] == before + [e];
    PrefixEntries(events, k + 1);
    forall v: Pointer ensures Ends(hooks, now, v) <==>
      var m := StepBinder(st, e, name);
      if m.None? || !Leads(hooks, st.mem, v, m.value.replacement) then Ends(hooks, st.mem, v)
      else BinderEnds(hooks, st, e, m.value)
    {
      EventEndsExactly(mem, before, e, entries, images, cells, name, v);
    }
    var m := StepBinder(st, e, name);
    if m.Some? {
      assert Follow(hooks, st.mem, m.value.replacement, 0) == m.value.replacement;
      assert Leads(hooks, st.mem, m.value.replacement, m.value.replacement);
      assert Ends(hooks, now, m.value.replacement) <==> BinderEnds(hooks, st, e, m.value);
    }
  }

  lemma {:induction false} PrefixEntries(events: seq<Event>, k: nat)
    requires k <= |events|
    ensures forall x :: x in Entries(events[..k]) ==> x in Entries(events)
    decreases |events|
  {
    if k < |events| {
      PrefixEntries(events[..|events| - 1], k);
      assert events[..|events| - 1][..k] == events[..k];
    } else {
      assert events[..k] == events;
    }
  }

  ghost predicate AllEndAfter(mem: Memory, events: seq<Event>, hooks: seq<Rebinding>, k: nat)
    requires k <= |events|
  {
    AllEnd(hooks, Run(mem, events[..k]).mem)
  }

  /** No cell of a hook for the name holds one of their replacements at first. */
  ghost predicate FreshCells(mem: Memory, hooks: seq<Rebinding>)
  {
    forall x, y :: x in hooks && x.replaced.Some? && y in hooks ==> mem[x.replaced.value] != y.replacement
  }

  lemma FreshEnds(mem: Memory, hooks: seq<Rebinding>)
    requires FreshCells(mem, hooks)
    ensures AllEnd(hooks, mem)
  {
    forall v: Pointer ensures Ends(hooks, mem, v) {
      OwnerExact(hooks, v);
      if Next(hooks, mem, v).Some? {
        OwnerExact(hooks, Next(hooks, mem, v).value);
        EndsAtOnce(hooks, mem, Next(hooks, mem, v).value);
        EndsFromNext(hooks, mem, v);
      } else {
        EndsAtOnce(hooks, mem, v);
      }
    }
  }

  lemma {:induction false} Ladder(n: nat, p: nat -> bool, q: nat -> bool)
    requires p(0) && forall k: nat :: k < n && p(k) ==> (p(k + 1) <==> !q(k))
    ensures (forall k: nat :: k <= n ==> p(k)) <==> (forall k: nat :: k < n ==> !q(k))
  {
    if n > 0 {
      Ladder(n - 1, p, q);
      assert p(n - 1) ==> (p(n - 1 + 1) <==> !q(n - 1));
    }
  }

  /** In every run, single-image calls included: following the hooks for a name ends from everywhere, after every
      event, if and only if no event leaves in the cell of the hook that it binds the name with a pointer that
      led to that hook already. */
  lemma RunEndsExactly(mem: Memory, events: seq<Event>, entries: seq<Rebinding>, images: set<Image>,
                       cells: set<Address>, name: seq<Byte>)
    requires Within(events, images, cells) && Covers(entries, events, cells, name)
    requires FreshCells(mem, HooksFor(entries, name))
    ensures (forall k: nat :: k <= |events| ==> AllEndAfter(mem, events, HooksFor(entries, name), k)) <==>
      (forall k: nat :: k < |events| ==> !Closes(mem, events, HooksFor(entries, name), name, k))
  {
    var hooks := HooksFor(entries, name);
    var p := (k: nat) => k <= |events| && AllEndAfter(mem, events, hooks, k);
    var q := (k: nat) => k < |events| && Closes(mem, events, hooks, name, k);
    FreshEnds(mem, hooks);
    forall k: nat | k < |events| && p(k) ensures p(k + 1) <==> !q(k) {
      AllEndStep(mem, events, k, entries, images, cells, name);
    }
    Ladder(|events|, p, q);
    LadderIs(mem, events, hooks, name, p, q);
  }

  lemma LadderIs(mem: Memory, events: seq<Event>, hooks: seq<Rebinding>, name: seq<Byte>,
                 p: nat -> bool, q: nat -> bool)
    requires forall k: nat :: k <= |events| ==> (p(k) <==> AllEndAfter(mem, events, hooks, k))
    requires forall k: nat :: k < |events| ==> (q(k) <==> Closes(mem, events, hooks, name, k))
    ensures (forall k: nat :: k <= |events| ==> p(k)) <==>
      (forall k: nat :: k <= |events| ==> AllEndAfter(mem, events, hooks, k))
    ensures (forall k: nat :: k < |events| ==> !q(k)) <==>
      (forall k: nat :: k < |events| ==> !Closes(mem, events, hooks, name, k))
  {
  }

  /* ----- where chains end ----- */

  ghost predicate BindsSome(st: State, e: Event, name: seq<Byte>)
  {
    exists img, slot :: img in PassImages(st, e) && HasSlot(img, slot) && slot.name == Some(name)
  }

  /** The hooks that have been put in a slot for the name. */
  ghost function Used(mem: Memory, events: seq<Event>, name: seq<Byte>): set<Rebinding>
  {
    if events == [] then {}
    else
      var before, e := events[..|events| - 1], events[|events| - 1];
      var st, older := Run(mem, before), Used(mem, before, name);
      if BindsSome(st, e, name) && StepBinder(st, e, name).Some? then older + {StepBinder(st, e, name).value} else older
  }

  ghost predicate LoadTime(mem: Memory, images: set<Image>, name: seq<Byte>, v: Pointer)
  {
    exists img, slot :: img in images && HasSlot(img, slot) && slot.name == Some(name) && v == mem[slot.addr]
  }

  /** A load-time pointer for the name, or a hook that has been used. */
  ghost predicate Reached(mem: Memory, images: set<Image>, used: set<Rebinding>, name: seq<Byte>, v: Pointer)
  {
    LoadTime(mem, images, name, v) || exists x :: x in used && v == x.replacement
  }

  ghost predicate SlotsReached(mem: Memory, now: Memory, images: set<Image>, used: set<Rebinding>, name: seq<Byte>)
  {
    forall img, slot :: img in images && HasSlot(img, slot) && slot.name == Some(name) ==>
      Reached(mem, images, used, name, now[slot.addr])
  }

  ghost predicate CellsReached(mem: Memory, now: Memory, images: set<Image>, used: set<Rebinding>, name: seq<Byte>)
  {
    forall x :: x in used && x.replaced.Some? ==> Reached(mem, images, used, name, now[x.replaced.value])
  }

  ghost predicate UsedAreHooks(used: set<Rebinding>, hooks: seq<Rebinding>)
  {
    forall x :: x in used ==> x in hooks
  }

  /** Every slot and every used hook's cell holds a load-time pointer for the name or a used hook. */
  ghost predicate AllReached(mem: Memory, now: Memory, images: set<Image>, used: set<Rebinding>,
                             hooks: seq<Rebinding>, name: seq<Byte>)
  {
    && UsedAreHooks(used, hooks)
    && SlotsReached(mem, now, images, used, name) && CellsReached(mem, now, images, used, name)
  }

  lemma ReachedMore(mem: Memory, images: set<Image>, a: set<Rebinding>, b: set<Rebinding>, name: seq<Byte>, v: Pointer)
    requires Reached(mem, images, a, name, v) && a <= b
    ensures Reached(mem, images, b, name, v)
  {
  }

  lemma SlotsStayReached(mem: Memory, st: State, e: Event, images: set<Image>, cells: set<Address>, name: seq<Byte>,
                         older: set<Rebinding>, used: set<Rebinding>)
    requires NoAliasing(images, cells) && Cells(PassList(st, e)) <= cells && AllIn(PassImages(st, e), images)
    requires SlotsReached(mem, st.mem, images, older, name) && older <= used
    requires BindsSome(st, e, name) && StepBinder(st, e, name).Some? ==> StepBinder(st, e, name).value in used
    ensures SlotsReached(mem, BindImages(st.mem, PassList(st, e), PassImages(st, e)), images, used, name)
  {
    forall img, slot | img in images && HasSlot(img, slot) && slot.name == Some(name)
      ensures Reached(mem, images, used, name, BindImages(st.mem, PassList(st, e), PassImages(st, e))[slot.addr])
    {
      SlotAfterImages(st.mem, PassList(st, e), PassImages(st, e), images, cells, img, slot);
      ReachedMore(mem, images, older, used, name, st.mem[slot.addr]);
    }
  }

  /** What is saved for the name was in a slot for it. */
  lemma SavedIsReached(mem: Memory, now: Memory, list: seq<Rebinding>, visited: seq<Image>, images: set<Image>,
                       name: seq<Byte>, older: set<Rebinding>, cell: Address, v: Pointer)
    requires SlotsReached(mem, now, images, older, name) && AllIn(visited, images)
    requires UsedFor(list, cell, name) && SavesIn(now, list, visited, cell, v)
    ensures Reached(mem, images, older, name, v)
  {
    var img, slot :| img in visited && HasSlot(img, slot) && Saves(now, list, slot, cell) && v == now[slot.addr];
    FirstMatchMember(list, slot.name.value);
  }

  /** A binder that has nothing to save has been used before. */
  lemma UnsavedIsUsed(mem: Memory, now: Memory, list: seq<Rebinding>, visited: seq<Image>, hooks: seq<Rebinding>,
                      images: set<Image>, name: seq<Byte>, older: set<Rebinding>, m: Rebinding, img: Image, slot: Slot)
    requires SlotsReached(mem, now, images, older, name) && AllIn(visited, images)
    requires FirstMatch(list, name) == Some(m) && m.replaced.Some? && NoneSaves(now, list, visited, m.replaced.value)
    requires Distinct(hooks) && UsedAreHooks(older, hooks) && m in hooks && !LoadTime(mem, images, name, m.replacement)
    requires img in visited && HasSlot(img, slot) && slot.name == Some(name)
    ensures m in older
  {
    assert !Saves(now, list, slot, m.replaced.value) && now[slot.addr] == m.replacement;
    var x :| x in older && m.replacement == x.replacement;
    SameReplacement(hooks, m, x);
  }

  /** What the binder's cell holds after a pass, if it has been used. */
  lemma BinderCellReached(mem: Memory, st: State, e: Event, hooks: seq<Rebinding>, images: set<Image>,
                          cells: set<Address>, name: seq<Byte>, older: set<Rebinding>, m: Rebinding)
    requires NoAliasing(images, cells) && Cells(PassList(st, e)) <= cells && AllIn(PassImages(st, e), images)
    requires StepBinder(st, e, name) == Some(m) && m.replaced.Some? && (BindsSome(st, e, name) || m in older)
    requires SlotsReached(mem, st.mem, images, older, name) && CellsReached(mem, st.mem, images, older, name)
    requires Distinct(hooks) && UsedAreHooks(older, hooks) && UsedFor(PassList(st, e), m.replaced.value, name)
    requires m in hooks && !LoadTime(mem, images, name, m.replacement)
    ensures Reached(mem, images, older, name,
                    BindImages(st.mem, PassList(st, e), PassImages(st, e))[m.replaced.value])
  {
    var list, visited, cell := PassList(st, e), PassImages(st, e), m.replaced.value;
    var now := BindImages(st.mem, list, visited)[cell];
    FirstMatchMember(list, name);
    assert cell in Cells(list);
    CellsAfterImages(st.mem, list, visited, images, cells, cell);
    if SavesIn(st.mem, list, visited, cell, now) {
      SavedIsReached(mem, st.mem, list, visited, images, name, older, cell, now);
    } else if m !in older {
      var img, slot :| img in visited && HasSlot(img, slot) && slot.name == Some(name);
      UnsavedIsUsed(mem, st.mem, list, visited, hooks, images, name, older, m, img, slot);
    }
  }

  lemma CellsStayReached(mem: Memory, st: State, e: Event, entries: seq<Rebinding>, after: Memory, images: set<Image>,
                         name: seq<Byte>, older: set<Rebinding>, used: set<Rebinding>)
    requires AgreeBut(HooksFor(entries, name), st.mem, after, StepBinder(st, e, name))
    requires CellsReached(mem, st.mem, images, older, name) && UsedAreHooks(older, HooksFor(entries, name))
    requires older <= used && forall x :: x in used ==> x in older || Some(x) == StepBinder(st, e, name)
    requires StepBinder(st, e, name).Some? && StepBinder(st, e, name).value in used &&
             StepBinder(st, e, name).value.replaced.Some? ==>
               Reached(mem, images, older, name, after[StepBinder(st, e, name).value.replaced.value])
    ensures CellsReached(mem, after, images, used, name)
  {
    forall x | x in used && x.replaced.Some? ensures Reached(mem, images, used, name, after[x.replaced.value]) {
      ReachedMore(mem, images, older, used, name, after[x.replaced.value]);
    }
  }

  /** No replacement of a hook is the load-time pointer of a slot for the name. */
  ghost predicate ForeignHooks(mem: Memory, hooks: seq<Rebinding>, images: set<Image>, name: seq<Byte>)
  {
    forall x :: x in hooks ==> !LoadTime(mem, images, name, x.replacement)
  }

  lemma ReachedStep(mem: Memory, before: seq<Event>, e: Event, entries: seq<Rebinding>, images: set<Image>,
                    cells: set<Address>, name: seq<Byte>)
    requires Within(before + [e], images, cells) && Covers(entries, before + [e], cells, name)
    requires ForeignHooks(mem, HooksFor(entries, name), images, name)
    requires AllReached(mem, Run(mem, before).mem, images, Used(mem, before, name), HooksFor(entries, name), name)
    ensures AllReached(mem, Run(mem, before + [e]).mem, images, Used(mem, before + [e], name), HooksFor(entries, name),
                       name)
  {
    var st, older, used := Run(mem, before), Used(mem, before, name), Used(mem, before + [e], name);
    var hooks, m := HooksFor(entries, name), StepBinder(st, e, name);
    assert (before + [e])[..|before + [e]| - 1] == before;
    WithinParts(before, e, images, cells);
    AfterOneMore(mem, before, e);
    EveryStepIsPass(mem, before, e);
    PassWithin(mem, before, e, images, cells);
    OtherCellsKept(mem, before, e, entries, images, cells, name);
    if m.Some? {
      BinderIsHook(mem, before, e, entries, cells, name);
      if m.value.replaced.Some? && m.value in used {
        BinderCellReached(mem, st, e, hooks, images, cells, name, older, m.value);
      }
    }
    SlotsStayReached(mem, st, e, images, cells, name, older, used);
    CellsStayReached(mem, st, e, entries, Run(mem, before + [e]).mem, images, name, older, used);
  }

  lemma BinderIsHook(mem: Memory, before: seq<Event>, e: Event, entries: seq<Rebinding>, cells: set<Address>,
                     name: seq<Byte>)
    requires Covers(entries, before + [e], cells, name) && StepBinder(Run(mem, before), e, name).Some?
    ensures var m := StepBinder(Run(mem, before), e, name).value;
      m in HooksFor(entries, name) &&
      (m.replaced.Some? ==> UsedFor(PassList(Run(mem, before), e), m.replaced.value, name))
  {
    var st := Run(mem, before);
    var m := StepBinder(st, e, name).value;
    FirstMatchMember(PassList(st, e), name);
    PassListIsOfEntries(mem, before, e, before + [e], m);
    HooksForExact(entries, name);
    if m.replaced.Some? {
      forall x | x in PassList(st, e) && x.replaced == m.replaced ensures x.Name() == name {
        PassListIsOfEntries(mem, before, e, before + [e], x);
      }
    }
  }

  lemma StartReached(mem: Memory, entries: seq<Rebinding>, images: set<Image>, name: seq<Byte>)
    ensures AllReached(mem, Run(mem, []).mem, images, Used(mem, [], name), HooksFor(entries, name), name)
  {
  }

  lemma FewerCovered(entries: seq<Rebinding>, before: seq<Event>, events: seq<Event>, cells: set<Address>,
                     name: seq<Byte>)
    requires Covers(entries, events, cells, name) && forall x :: x in Entries(before) ==> x in Entries(events)
    ensures Covers(entries, before, cells, name)
  {
  }

  lemma AllButLastWithin(events: seq<Event>, images: set<Image>, cells: set<Address>)
    requires events != [] && Within(events, images, cells)
    ensures Within(events[..|events| - 1], images, cells)
  {
  }

  lemma {:induction false} RunReached(mem: Memory, events: seq<Event>, entries: seq<Rebinding>, images: set<Image>,
                                      cells: set<Address>, name: seq<Byte>)
    requires Within(events, images, cells) && Covers(entries, events, cells, name)
    requires ForeignHooks(mem, HooksFor(entries, name), images, name)
    ensures AllReached(mem, Run(mem, events).mem, images, Used(mem, events, name), HooksFor(entries, name), name)
  {
    if events == [] {
      StartReached(mem, entries, images, name);
    } else {
      var n := |events| - 1;
      AllButLastWithin(events, images, cells);
      PrefixEntries(events, n);
      FewerCovered(entries, events[..n], events, cells, name);
      RunReached(mem, events[..n], entries, images, cells, name);
      assert events[..n] + [events[n]] == events;
      ReachedStep(mem, events[..n], events[n], entries, images, cells, name);
    }
  }

  lemma NextReached(mem: Memory, now: Memory, images: set<Image>, used: set<Rebinding>, hooks: seq<Rebinding>,
                    name: seq<Byte>, v: Pointer)
    requires Distinct(hooks) && UsedAreHooks(used, hooks) && ForeignHooks(mem, hooks, images, name)
    requires CellsReached(mem, now, images, used, name) && Reached(mem, images, used, name, v)
    ensures Next(hooks, now, v).Some? ==> Reached(mem, images, used, name, Next(hooks, now, v).value)
  {
    OwnerExact(hooks, v);
    if Next(hooks, now, v).Some? {
      var x :| x in used && v == x.replacement;
      SameReplacement(hooks, Owner(hooks, v).value, x);
    }
  }

  /** Following never leaves a set that one step does not leave. */
  lemma {:induction false} FollowStaysIn(hooks: seq<Rebinding>, now: Memory, closed: iset<Pointer>, v: Pointer,
                                         steps: nat)
    requires v in closed
    requires forall w :: w in closed && Next(hooks, now, w).Some? ==> Next(hooks, now, w).value in closed
    ensures Follow(hooks, now, v, steps) in closed
    decreases steps
  {
    if steps > 0 && Next(hooks, now, v).Some? {
      FollowStaysIn(hooks, now, closed, Next(hooks, now, v).value, steps - 1);
    }
  }

  lemma FollowReached(mem: Memory, now: Memory, images: set<Image>, used: set<Rebinding>, hooks: seq<Rebinding>,
                      name: seq<Byte>, v: Pointer, steps: nat)
    requires Distinct(hooks) && UsedAreHooks(used, hooks) && ForeignHooks(mem, hooks, images, name)
    requires CellsReached(mem, now, images, used, name) && Reached(mem, images, used, name, v)
    ensures Reached(mem, images, used, name, Follow(hooks, now, v, steps))
  {
    var reached := iset w: Pointer | Reached(mem, images, used, name, w);
    forall w | w in reached && Next(hooks, now, w).Some? ensures Next(hooks, now, w).value in reached {
      NextReached(mem, now, images, used, hooks, name, w);
    }
    FollowStaysIn(hooks, now, reached, v, steps);
  }

  /** In every run, single-image calls included: where following the hooks from a slot for the name ends, if it ends,
      is a load-time pointer of such a slot, or a hook for the name that saves no pointer. */
  lemma EndsAtOriginal(mem: Memory, events: seq<Event>, entries: seq<Rebinding>, images: set<Image>,
                       cells: set<Address>, name: seq<Byte>, img: Image, slot: Slot, steps: nat)
    requires Within(events, images, cells) && Covers(entries, events, cells, name)
    requires ForeignHooks(mem, HooksFor(entries, name), images, name)
    requires img in images && HasSlot(img, slot) && slot.name == Some(name)
    ensures var hooks, now := HooksFor(entries, name), Run(mem, events).mem;
      var end := Follow(hooks, now, now[slot.addr], steps);
      Next(hooks, now, end) == None ==>
        LoadTime(mem, images, name, end) || exists x :: x in hooks && x.replaced.None? && end == x.replacement
  {
    var hooks, now, used := HooksFor(entries, name), Run(mem, events).mem, Used(mem, events, name);
    var end := Follow(hooks, now, now[slot.addr], steps);
    RunReached(mem, events, entries, images, cells, name);
    FollowReached(mem, now, images, used, hooks, name, now[slot.addr], steps);
    if Next(hooks, now, end) == None && !LoadTime(mem, images, name, end) {
      var x :| x in used && end == x.replacement;
      NextOfHook(hooks, now, x);
    }
  }
}
