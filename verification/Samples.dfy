/** A concrete image, and inputs on which the documented contract does not say what the engine does. */
module Samples {
  import opened CStrings
  import opened MachO
  import opened Binding
  import opened Protocol
  import opened Runs
  import opened SingleImage
  import opened SavedPointers
  import opened Chains
  import opened Cycles
  import opened ChainSteps
  import opened AssociationHooks
  import opened HookHistories
  import opened ImageLayout
  import opened OneSlotImages
  import opened Wrappers

  function SampleLayout(w: Address): Layout
  {
    Layout(0, 0, 0, 0, 4096, 8192, 12288, 1, "__DATA", 8 * w, 6, 0)
  }

  function SampleTables(): SymbolTables
  {
    SymbolTables([0], [95, 102, 0], [0])
  }

  /** One non-lazy pointer, in word `w`, to the symbol "_f". */
  function RawSample(w: Address): RawImage
  {
    LaidOut(SampleLayout(w), SampleTables())
  }

  function SampleSlot(w: Address): Slot
  {
    Slot(w, Some([102]))
  }

  lemma SampleIsLaidOut(w: Address)
    ensures Resolves(SampleLayout(w), SampleTables()) && HoldsPointer(SampleLayout(w))
    ensures IsName(SampleLayout(w), SampleTables(), Some([102]))
  {
    SampleString(SampleTables().strtab);
  }

  lemma SampleSlots(w: Address)
    ensures Readable(RawSample(w)) && ImageSlots(RawSample(w)) == [SampleSlot(w)]
  {
    SampleIsLaidOut(w);
    SampleAddress(w);
    TheSlotOfLayout(SampleLayout(w), SampleTables(), w, Some([102]));
  }

  ghost function SampleImage(w: Address): (img: Image)
    ensures ImageSlots(img) == [SampleSlot(w)]
  {
    SampleSlots(w);
    RawSample(w)
  }

  lemma SampleString(strtab: seq<Byte>)
    requires strtab == [95, 102, 0]
    ensures Terminated(strtab, 0) && IsSymbolName(strtab, 0, Some([102]))
  {
    assert EndsAt(strtab, 0, 2) && strtab[1..2] == [102];
    CStringExact(strtab, 0, 2);
  }

  lemma SampleAddress(w: Address)
    ensures 8 * w % 8 == 0 && 8 * w % 0x1_0000_0000_0000_0000 == 8 * w
  {
  }

  /** The name "f", and rebindings of it. */
  function SampleRebinding(replacement: Pointer): Rebinding
  {
    Rebinding([102, 0], replacement, None)
  }

  lemma SampleName(v: Pointer)
    ensures SampleRebinding(v).Name() == [102]
  {
    var name: seq<Byte> := [102, 0];
    assert Terminated(name, 1) && CStringAt(name, 1) == [];
  }

  /** So "the later rebinding takes precedence" fails: a call with no rebindings at all undoes a
      single-image rebinding made after the global one. */
  lemma EmptyCallUndoesSingleImageBinding(mem: Memory)
    ensures var before := [LoadImage(SampleImage(1)), Register([SampleRebinding(10)], true, true)]
                        + [RebindImage(SampleImage(1), [SampleRebinding(20)], true, true)];
      Run(mem, before).mem[1] == 20 && Run(mem, before + [Register([], true, true)]).mem[1] == 10
  {
    SampleName(10);
    SampleName(20);
    EmptyCallUndoes(mem, SampleImage(1), SampleSlot(1), SampleRebinding(10), SampleRebinding(20));
  }

  lemma EmptyCallUndoes(mem: Memory, img: Image, slot: Slot, a: Rebinding, b: Rebinding)
    requires ImageSlots(img) == [slot] && slot.name == Some(a.Name()) && a.Name() == b.Name()
    requires a.replaced.None? && b.replaced.None? && a.replacement != b.replacement
    ensures var before := [LoadImage(img), Register([a], true, true)] + [RebindImage(img, [b], true, true)];
      Run(mem, before).mem[slot.addr] == b.replacement &&
      Run(mem, before + [Register([], true, true)]).mem[slot.addr] == a.replacement
  {
    var global := [LoadImage(img), Register([a], true, true)];
    LoadThenRegister(img, [a]);
    assert Flatten([[a]]) == [a] && [] + [a] == [a];
    assert HasSlot(img, slot) && Within(global, {img}, {});
    SingleImageBindingSurvives(mem, global, {img}, {}, img, slot, [b], b, []);
  }

  lemma LoadThenRegister(img: Image, call: seq<Rebinding>)
    ensures var global := [LoadImage(img), Register(call, true, true)];
      Loaded(global) == [img] && Registrations(global) == [call]
  {
    var load := [LoadImage(img)];
    assert [LoadImage(img), Register(call, true, true)][..1] == load;
    assert load[..0] == [];
    assert Loaded(load) == Loaded([]) + [img] && Registrations(load) == Registrations([]);
  }

  /** Two hooks for a name, both with a cell. */
  predicate TwoHooks(mem: Memory, slot: Slot, a: Rebinding, b: Rebinding)
  {
    && slot.name == Some(a.Name()) && a.Name() == b.Name() && a.replacement != b.replacement
    && mem[slot.addr] != a.replacement && mem[slot.addr] != b.replacement
    && a.replaced.Some? && b.replaced.Some? && a.replaced != b.replaced
    && a.replaced.value != slot.addr && b.replaced.value != slot.addr
  }

  /** Rebind globally, rebind in one image, and call again with nothing: the two hooks call each other
      forever. */
  lemma HooksCallEachOther(mem: Memory, img: Image, slot: Slot, a: Rebinding, b: Rebinding)
    requires ImageSlots(img) == [slot] && TwoHooks(mem, slot, a, b)
    ensures var events := [LoadImage(img), Register([a], true, true)] + [RebindImage(img, [b], true, true)]
                        + [Register([], true, true)];
      var now := Run(mem, events).mem;
      now[slot.addr] == a.replacement && SaveEachOther(now, a, b) && !Ends([b, a], now, now[slot.addr])
  {
    var before := [LoadImage(img), Register([a], true, true)];
    var cells := {a.replaced.value, b.replaced.value};
    LoadThenRegister(img, [a]);
    assert Flatten([[a]]) == [a] && [b] + ([] + [a]) == [b, a];
    TwoHooksForeign(mem, img, slot, a, b);
    TwoHooksWithin(mem, img, slot, a, b, cells);
    SingleImageCycleExactly(mem, before, {img}, cells, img, slot, [b], b, []);
  }

  lemma TwoHooksForeign(mem: Memory, img: Image, slot: Slot, a: Rebinding, b: Rebinding)
    requires ImageSlots(img) == [slot] && TwoHooks(mem, slot, a, b)
    ensures Distinct([b, a]) && Foreign(mem, [b, a], {img}) && HasSlot(img, slot)
  {
    assert HasSlot(img, slot) && forall s :: HasSlot(img, s) ==> s == slot;
  }

  lemma TwoHooksWithin(mem: Memory, img: Image, slot: Slot, a: Rebinding, b: Rebinding, cells: set<Address>)
    requires ImageSlots(img) == [slot] && TwoHooks(mem, slot, a, b)
    requires forall c :: c in cells <==> c == a.replaced.value || c == b.replaced.value
    ensures Cells([b]) <= cells && Within([LoadImage(img), Register([a], true, true)], {img}, cells)
  {
    assert Cells([a]) <= cells;
  }

  lemma SampleHooksCallEachOther()
    ensures var a, b := Rebinding([102, 0], 10, Some(2)), Rebinding([102, 0], 20, Some(3));
      var events := [LoadImage(SampleImage(1)), Register([a], true, true)]
                  + [RebindImage(SampleImage(1), [b], true, true)]
                  + [Register([], true, true)];
      var now := Run(SampleMemory(), events).mem;
      now[1] == 10 && now[2] == 20 && now[3] == 10 && !Ends([b, a], now, now[1])
  {
    var a, b := Rebinding([102, 0], 10, Some(2)), Rebinding([102, 0], 20, Some(3));
    SampleName(10);
    assert a.Name() == SampleRebinding(10).Name() && b.Name() == SampleRebinding(10).Name();
    HooksCallEachOther(SampleMemory(), SampleImage(1), SampleSlot(1), a, b);
  }

  /** Three hooks for a name, each with a cell of its own. */
  predicate ThreeHooks(mem: Memory, slot: Slot, a: Rebinding, b: Rebinding, c: Rebinding)
  {
    && TwoHooks(mem, slot, a, b) && TwoHooks(mem, slot, b, c) && TwoHooks(mem, slot, a, c)
  }

  /** One slot's turn for a rebinding of its name. */
  function Turn(mem: Memory, slot: Slot, r: Rebinding): Memory
  {
    (if r.replaced.Some? && mem[slot.addr] != r.replacement then mem[r.replaced.value := mem[slot.addr]] else mem)
      [slot.addr := r.replacement]
  }

  lemma FourTurns(mem: Memory, slot: Slot, a: Rebinding, b: Rebinding, c: Rebinding)
    requires ThreeHooks(mem, slot, a, b, c)
    ensures var now := Turn(Turn(Turn(Turn(mem, slot, a), slot, b), slot, c), slot, a);
      && now[slot.addr] == a.replacement && now[a.replaced.value] == c.replacement
      && now[c.replaced.value] == b.replacement && now[b.replaced.value] == a.replacement
  {
  }

  lemma CallTurn(mem: Memory, before: seq<Event>, img: Image, slot: Slot, r: Rebinding, call: seq<Rebinding>)
    requires ImageSlots(img) == [slot] && slot.name == Some(r.Name())
    requires Run(mem, before).images == [img] && call + Flatten(Run(mem, before).calls) == [r]
    ensures Run(mem, before + [Register(call, true, true)]).mem == Turn(Run(mem, before).mem, slot, r)
    ensures Run(mem, before + [Register(call, true, true)]).images == [img]
    ensures Flatten(Run(mem, before + [Register(call, true, true)]).calls) == [r]
  {
    var st := Run(mem, before);
    AfterOneMore(mem, before, Register(call, true, true));
    RegisterStep(st, call);
    assert Flatten([call] + st.calls) == call + Flatten(st.calls);
    assert [r] + [] == [r];
    OnePassOneSlot(st.mem, img, slot, r, []);
  }

  lemma SingleTurn(mem: Memory, before: seq<Event>, img: Image, slot: Slot, r: Rebinding)
    requires ImageSlots(img) == [slot] && slot.name == Some(r.Name())
    ensures var st, after := Run(mem, before), Run(mem, before + [RebindImage(img, [r], true, true)]);
      after == st.(mem := Turn(st.mem, slot, r))
  {
    AfterOneMore(mem, before, RebindImage(img, [r], true, true));
    assert [r] + [] == [r];
    OnePassOneSlot(Run(mem, before).mem, img, slot, r, []);
  }

  /** A loaded image, one global call and one single-image call. */
  lemma TwoTurns(mem: Memory, img: Image, slot: Slot, a: Rebinding, b: Rebinding)
    requires ImageSlots(img) == [slot] && slot.name == Some(a.Name()) && a.Name() == b.Name()
    ensures var st := Run(mem, [] + [LoadImage(img)] + [Register([a], true, true)]
                               + [RebindImage(img, [b], true, true)]);
      st.mem == Turn(Turn(mem, slot, a), slot, b) && st.images == [img] && Flatten(st.calls) == [a]
  {
    var one := [] + [LoadImage(img)];
    LoadOnly(mem, img);
    assert [a] + Flatten([]) == [a];
    CallTurn(mem, one, img, slot, a, [a]);
    SingleTurn(mem, one + [Register([a], true, true)], img, slot, b);
  }

  /** One more single-image call, and a global call with nothing. */
  lemma TwoMoreTurns(mem: Memory, before: seq<Event>, img: Image, slot: Slot, a: Rebinding, c: Rebinding)
    requires ImageSlots(img) == [slot] && slot.name == Some(a.Name()) && a.Name() == c.Name()
    requires Run(mem, before).images == [img] && Flatten(Run(mem, before).calls) == [a]
    ensures Run(mem, before + [RebindImage(img, [c], true, true)] + [Register([], true, true)]).mem ==
      Turn(Turn(Run(mem, before).mem, slot, c), slot, a)
  {
    SingleTurn(mem, before, img, slot, c);
    assert [] + [a] == [a];
    CallTurn(mem, before + [RebindImage(img, [c], true, true)], img, slot, a, []);
  }

  lemma ThreeHooksRun(mem: Memory, img: Image, slot: Slot, a: Rebinding, b: Rebinding, c: Rebinding)
    requires ImageSlots(img) == [slot] && ThreeHooks(mem, slot, a, b, c)
    ensures var events := [] + [LoadImage(img)] + [Register([a], true, true)] + [RebindImage(img, [b], true, true)]
                        + [RebindImage(img, [c], true, true)] + [Register([], true, true)];
      Run(mem, events).mem == Turn(Turn(Turn(Turn(mem, slot, a), slot, b), slot, c), slot, a)
  {
    var three := [] + [LoadImage(img)] + [Register([a], true, true)] + [RebindImage(img, [b], true, true)];
    TwoTurns(mem, img, slot, a, b);
    TwoMoreTurns(mem, three, img, slot, a, c);
  }

  lemma LoadOnly(mem: Memory, img: Image)
    ensures Run(mem, [] + [LoadImage(img)]) == State(mem, [], [img], 0)
  {
    AfterOneMore(mem, [], LoadImage(img));
  }

  /** Rebind globally, rebind in one image twice, and call again with nothing: the three hooks call each other in
      turn. */
  lemma ThreeHooksCallEachOther(mem: Memory, img: Image, slot: Slot, a: Rebinding, b: Rebinding, c: Rebinding)
    requires ImageSlots(img) == [slot] && ThreeHooks(mem, slot, a, b, c)
    ensures var events := [] + [LoadImage(img)] + [Register([a], true, true)] + [RebindImage(img, [b], true, true)]
                        + [RebindImage(img, [c], true, true)] + [Register([], true, true)];
      var now := Run(mem, events).mem;
      && now[slot.addr] == a.replacement && now[a.replaced.value] == c.replacement
      && now[c.replaced.value] == b.replacement && now[b.replaced.value] == a.replacement
      && !Ends([c, b, a], now, now[slot.addr])
  {
    ThreeHooksRun(mem, img, slot, a, b, c);
    FourTurns(mem, slot, a, b, c);
    ThreeNeverEnd(Turn(Turn(Turn(Turn(mem, slot, a), slot, b), slot, c), slot, a), a, b, c);
  }

  lemma ThreeNeverEnd(now: Memory, a: Rebinding, b: Rebinding, c: Rebinding)
    requires Distinct([c, b, a]) && a.replaced.Some? && b.replaced.Some? && c.replaced.Some?
    requires now[a.replaced.value] == c.replacement && now[c.replaced.value] == b.replacement
    requires now[b.replaced.value] == a.replacement
    ensures !Ends([c, b, a], now, a.replacement)
  {
    var hooks := [c, b, a];
    assert hooks[0] == c && hooks[1] == b && hooks[2] == a;
    NextOfHook(hooks, now, a);
    NextOfHook(hooks, now, b);
    NextOfHook(hooks, now, c);
    assert Follow(hooks, now, b.replacement, 1) == Follow(hooks, now, a.replacement, 0) == a.replacement;
    assert Follow(hooks, now, c.replacement, 2) == Follow(hooks, now, b.replacement, 1);
    CycleNeverEnds(hooks, now, a.replacement);
  }

  lemma SampleThreeHooksCallEachOther()
    ensures var a, b := Rebinding([102, 0], 10, Some(2)), Rebinding([102, 0], 20, Some(3));
      var c := Rebinding([102, 0], 30, Some(5));
      var events := [] + [LoadImage(SampleImage(1))] + [Register([a], true, true)]
                  + [RebindImage(SampleImage(1), [b], true, true)] + [RebindImage(SampleImage(1), [c], true, true)]
                  + [Register([], true, true)];
      var now := Run(SampleMemory(), events).mem;
      now[1] == 10 && now[2] == 30 && now[5] == 20 && now[3] == 10 && !Ends([c, b, a], now, now[1])
  {
    var a, b := Rebinding([102, 0], 10, Some(2)), Rebinding([102, 0], 20, Some(3));
    var c := Rebinding([102, 0], 30, Some(5));
    SampleName(10);
    assert a.Name() == SampleRebinding(10).Name() && b.Name() == a.Name() && c.Name() == a.Name();
    assert SampleMemory()[1] == 5;
    ThreeHooksCallEachOther(SampleMemory(), SampleImage(1), SampleSlot(1), a, b, c);
  }

  /** "_f" loads as 5 in one image and as 6 in the other; the names "f" and "g" are hooked. */
  ghost function SampleMemory(): Memory
  {
    seq(MEMORY_WORDS, i => if i == 1 then 5 else if i == 4 then 6 else NULL)
  }

  const SAMPLE_HOOKS := Hooks(Interposer([102, 0], 10, 2), Interposer([103, 0], 11, 3))

  lemma SampleNames()
    ensures SAMPLE_HOOKS.setter.Name() == [102] && SAMPLE_HOOKS.remover.Name() != [102]
  {
    var f: seq<Byte>, g: seq<Byte> := [102, 0], [103, 0];
    assert Terminated(f, 1) && CStringAt(f, 1) == [] && CStringAt(f, 0) == [102];
    assert Terminated(g, 1) && CStringAt(g, 0)[0] == 103;
  }

  /** An image with one slot, whose function is hooked. */
  ghost predicate OneHookedSlot(mem: Memory, hs: Hooks, img: Image, slot: Slot)
  {
    && ImageSlots(img) == [slot] && slot.name == Some(hs.setter.Name()) && hs.setter.Name() != hs.remover.Name()
    && hs.setter.original != hs.remover.original && slot.addr != hs.setter.original && slot.addr != hs.remover.original
    && mem[slot.addr] != NULL && mem[slot.addr] != hs.setter.replacement && mem[hs.setter.original] == NULL
  }

  lemma HookedSlotOf(mem: Memory, hs: Hooks, img: Image, slot: Slot, name: seq<Byte>)
    requires ImageSlots(img) == [slot] && slot.name == Some(name)
    requires hs.setter.Name() == name && hs.remover.Name() != name
    requires hs.setter.original != hs.remover.original
    requires slot.addr != hs.setter.original && slot.addr != hs.remover.original
    requires mem[slot.addr] != NULL && mem[slot.addr] != hs.setter.replacement && mem[hs.setter.original] == NULL
    ensures OneHookedSlot(mem, hs, img, slot)
  {
  }

  lemma SettingHolds(mem: Memory, hs: Hooks, img: Image, slot: Slot)
    requires OneHookedSlot(mem, hs, img, slot)
    ensures Setting(mem, hs, hs.setter, {img})
  {
    assert forall s :: HasSlot(img, s) ==> s == slot;
  }

  lemma LosesOriginal(mem: Memory, hs: Hooks, img: Image, slot: Slot)
    requires OneHookedSlot(mem, hs, img, slot)
    ensures ClientRun(hs, mem, [Hook(false, false), Load(img)] + [Unhook(true, true)]).st.mem[slot.addr] == NULL
    ensures var hooked := [Hook(false, false), Load(img)] + [Unhook(true, true)] + [Hook(true, true)];
      var again := ClientRun(hs, mem, hooked).st.mem;
      again[slot.addr] == hs.setter.replacement && again[hs.setter.original] == NULL
  {
    SettingHolds(mem, hs, img, slot);
    FailedHookThenLoad(img);
    assert HasSlot(img, slot);
    UnhookAfterFailedHooks(mem, hs, hs.setter, {img}, [Hook(false, false), Load(img)], img, slot);
  }

  lemma SampleIsHooked(mem: Memory, hs: Hooks, w: Address)
    requires hs.setter.Name() == [102] && hs.remover.Name() != [102] && hs.setter.original != hs.remover.original
    requires w != hs.setter.original && w != hs.remover.original
    requires mem[w] != NULL && mem[w] != hs.setter.replacement && mem[hs.setter.original] == NULL
    ensures OneHookedSlot(mem, hs, SampleImage(w), SampleSlot(w))
  {
    HookedSlotOf(mem, hs, SampleImage(w), SampleSlot(w), [102]);
  }

  lemma SampleWords()
    ensures SampleMemory()[1] == 5 && SampleMemory()[4] == 6 && SampleMemory()[2] == NULL
  {
  }

  /** A hook that fails, an unhook, and a hook that succeeds: calling "_f" calls the hook, and the hook
      calls NULL. */
  lemma SampleHookLosesOriginal()
    ensures var unhooked := [Hook(false, false), Load(SampleImage(1))] + [Unhook(true, true)];
      ClientRun(SAMPLE_HOOKS, SampleMemory(), unhooked).st.mem[1] == NULL
    ensures var hooked := [Hook(false, false), Load(SampleImage(1))] + [Unhook(true, true)] + [Hook(true, true)];
      var mem := ClientRun(SAMPLE_HOOKS, SampleMemory(), hooked).st.mem;
      mem[1] == 10 && mem[2] == NULL
  {
    SampleNames();
    SampleWords();
    SampleIsHooked(SampleMemory(), SAMPLE_HOOKS, 1);
    LosesOriginal(SampleMemory(), SAMPLE_HOOKS, SampleImage(1), SampleSlot(1));
  }

  /** Two images with one slot each, whose function is hooked. */
  ghost predicate TwoHookedSlots(mem: Memory, hs: Hooks, a: Image, b: Image, first: Slot, second: Slot)
  {
    && OneHookedSlot(mem, hs, a, first) && OneHookedSlot(mem, hs, b, second) && first.addr != second.addr
  }

  lemma SettingHoldsForTwo(mem: Memory, hs: Hooks, a: Image, b: Image, first: Slot, second: Slot)
    requires TwoHookedSlots(mem, hs, a, b, first, second)
    ensures Setting(mem, hs, hs.setter, {a, b}) && a != b
  {
    assert a != b by { assert first == [first][0] && second == [second][0]; }
    SettingHolds(mem, hs, a, first);
    SettingHolds(mem, hs, b, second);
    TwoImagesApart(a, b, first, second, hs.Originals(), {a, b});
    forall img, slot | img in {a, b} && HasSlot(img, slot) && slot.name == Some(hs.setter.Name())
      ensures mem[slot.addr] != hs.setter.replacement
    {
      assert img in {a} || img in {b};
    }
  }

  lemma TwoImagesApart(a: Image, b: Image, first: Slot, second: Slot, cells: set<Address>, images: set<Image>)
    requires ImageSlots(a) == [first] && ImageSlots(b) == [second] && first.addr != second.addr
    requires first.addr !in cells && second.addr !in cells && forall img :: img in images <==> img == a || img == b
    ensures NoAliasing(images, cells)
  {
    assert Disjoint(ImageSlots(a), ImageSlots(b)) && Disjoint(ImageSlots(b), ImageSlots(a));
  }

  lemma MixesImages(mem: Memory, hs: Hooks, a: Image, b: Image, first: Slot, second: Slot)
    requires TwoHookedSlots(mem, hs, a, b, first, second)
    ensures var hooked := [] + [Load(a)] + [Load(b)] + [Hook(true, true)];
      && ClientRun(hs, mem, hooked).st.mem[hs.setter.original] == mem[second.addr]
      && ClientRun(hs, mem, hooked + [Unhook(true, true)]).st.mem[first.addr] == mem[second.addr]
  {
    SettingHoldsForTwo(mem, hs, a, b, first, second);
    UnhookMixesImages(mem, hs, hs.setter, {a, b}, a, b, first, second);
  }

  /** Two images load, a hook, an unhook, and nothing fails: the slot of the first image, which was 5, is left
      with the 6 of the second. */
  lemma SampleUnhookMixesImages()
    ensures var hooked := [] + [Load(SampleImage(1))] + [Load(SampleImage(4))] + [Hook(true, true)];
      && SampleMemory()[1] == 5 && ClientRun(SAMPLE_HOOKS, SampleMemory(), hooked).st.mem[2] == 6
      && ClientRun(SAMPLE_HOOKS, SampleMemory(), hooked + [Unhook(true, true)]).st.mem[1] == 6
  {
    SampleNames();
    SampleWords();
    SampleIsHooked(SampleMemory(), SAMPLE_HOOKS, 1);
    SampleIsHooked(SampleMemory(), SAMPLE_HOOKS, 4);
    MixesImages(SampleMemory(), SAMPLE_HOOKS, SampleImage(1), SampleImage(4), SampleSlot(1), SampleSlot(4));
  }

  lemma FailedHookThenLoad(img: Image)
    ensures var past := [Hook(false, false), Load(img)];
      Taken(past) && OnlyFailedHooks(past) && ActionsWithin(past, {img}) && img in ImagesOf(past)
  {
    var past := [Hook(false, false), Load(img)];
    assert past[0].Hook?;
    assert ImagesOf(past) == ImagesOf(past[..1]) + [img];
  }

  /** "The later rebinding will take precedence" fails within one array: its first entry wins. */
  lemma LaterEntryOfOneCallLoses(v: Pointer)
    ensures Bound([SampleRebinding(10), SampleRebinding(20)], SampleSlot(1).name, v) == 10
  {
    SampleName(10);
  }

  /** Slots do not depend on when an image is loaded, but saved pointers do: with the image loaded
      first, the second hook has saved the first; with the image loaded last, it has saved the original,
      and the first hook is out of the chain. */
  lemma LoadOrderChangesSavedPointers(mem: Memory, img: Image, slot: Slot, a: Rebinding, b: Rebinding)
    requires ImageSlots(img) == [slot] && slot.name == Some(a.Name()) && a.Name() == b.Name()
    requires a.replaced.Some? && b.replaced.Some? && a.replaced != b.replaced
    requires a.replaced.value != slot.addr && b.replaced.value != slot.addr
    requires a.replacement != b.replacement && mem[slot.addr] !in {a.replacement, b.replacement}
    ensures var early := [LoadImage(img), Register([a], true, true), Register([b], true, true)];
      Run(mem, early).mem[b.replaced.value] == a.replacement
    ensures var late := [Register([a], true, true), Register([b], true, true), LoadImage(img)];
      Run(mem, late).mem[b.replaced.value] == mem[slot.addr]
  {
    LoadedFirst(mem, img, slot, a, b);
    LoadedLast(mem, img, slot, a, b);
  }

  lemma LoadedFirst(mem: Memory, img: Image, slot: Slot, a: Rebinding, b: Rebinding)
    requires ImageSlots(img) == [slot] && slot.name == Some(a.Name()) && a.Name() == b.Name()
    requires b.replaced.Some? && b.replaced.value != slot.addr && a.replacement != b.replacement
    requires a.replaced.Some? ==> a.replaced.value != slot.addr
    ensures Run(mem, [LoadImage(img), Register([a], true, true), Register([b], true, true)]).mem[b.replaced.value] ==
      a.replacement
  {
    var load, first, second := LoadImage(img), Register([a], true, true), Register([b], true, true);
    RunOfThree(mem, load, first, second);
    LoadThenFirstCall(mem, img, a);
    var two := State(BindImages(mem, [a] + [], [img]), [[a]], [img], 1);
    OnePassOneSlot(mem, img, slot, a, []);
    RegisterStep(two, [b]);
    FlattenOne(a);
    OnePassOneSlot(two.mem, img, slot, b, [a]);
  }

  lemma FlattenOne(a: Rebinding)
    ensures Flatten([[a]]) == [a] && [a] + [] == [a]
  {
    assert [[a]][1..] == [];
    assert Flatten([[a]]) == [a] + [];
  }

  lemma LoadThenFirstCall(mem: Memory, img: Image, a: Rebinding)
    ensures Step(Step(State(mem, [], [], 0), LoadImage(img)), Register([a], true, true)) ==
      State(BindImages(mem, [a] + [], [img]), [[a]], [img], 1)
  {
    var loaded := State(mem, [], [img], 0);
    LoadFirst(mem, img);
    RegisterStep(loaded, [a]);
    assert [[a]] + [] == [[a]] && |[[a]]| == 1;
  }

  lemma LoadFirst(mem: Memory, img: Image)
    ensures Step(State(mem, [], [], 0), LoadImage(img)) == State(mem, [], [img], 0)
  {
    assert [] + [img] == [img];
  }

  lemma LoadedLast(mem: Memory, img: Image, slot: Slot, a: Rebinding, b: Rebinding)
    requires ImageSlots(img) == [slot] && slot.name == Some(a.Name()) && a.Name() == b.Name()
    requires b.replaced.Some? && b.replaced.value != slot.addr && mem[slot.addr] != b.replacement
    ensures Run(mem, [Register([a], true, true), Register([b], true, true), LoadImage(img)]).mem[b.replaced.value] ==
      mem[slot.addr]
  {
    var load, first, second := LoadImage(img), Register([a], true, true), Register([b], true, true);
    RunOfThree(mem, first, second, load);
    var two := Step(Step(State(mem, [], [], 0), first), second);
    FlattenTwo(a, b);
    assert two == State(mem, [[b], [a]], [], 1);
    OnePassOneSlot(mem, img, slot, b, [a]);
    assert Notify(mem, [b] + [a], img, 0) == mem;
  }

  lemma FlattenTwo(a: Rebinding, b: Rebinding)
    ensures [[b]] + [[a]] == [[b], [a]] && Flatten([[b], [a]]) == [b] + [a]
  {
    assert [[b], [a]][1..] == [[a]] && [[a]][1..] == [];
    assert Flatten([[a]]) == [a] + [];
  }

  lemma RunOfThree(mem: Memory, a: Event, b: Event, c: Event)
    ensures Run(mem, [a, b, c]) == Step(Step(Step(State(mem, [], [], 0), a), b), c)
  {
    assert [a][..0] == [] && [a, b][..1] == [a] && [a, b, c][..2] == [a, b];
    assert Run(mem, [a]) == Step(State(mem, [], [], 0), a);
    assert Run(mem, [a, b]) == Step(Run(mem, [a]), b);
  }

  lemma OnePassOneSlot(mem: Memory, img: Image, slot: Slot, r: Rebinding, older: seq<Rebinding>)
    requires ImageSlots(img) == [slot] && slot.name == Some(r.Name())
    ensures BindImages(mem, [r] + older, [img]) == BindSlots(mem, [r] + older, ImageSlots(img))
    ensures BindSlots(mem, [r] + older, ImageSlots(img)) ==
      (if r.replaced.Some? && mem[slot.addr] != r.replacement then mem[r.replaced.value := mem[slot.addr]] else mem)
        [slot.addr := r.replacement]
  {
    assert [img][..0] == [] && [slot][..0] == [];
    assert BindSlots(mem, [r] + older, []) == mem && BindImages(mem, [r] + older, []) == mem;
  }
}
