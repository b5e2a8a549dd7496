/** A pass as the engine's nested loops make it: section by section within a command, command by
    command within an image. `WalkIsPass` shows that this is one pass over the image's slots. */
module Walk {
  import opened CStrings
  import opened MachO
  import opened Binding
  import opened Wrappers

  /** The search as the two inner loops make it: from index `j` of one array, and array by array. */
  function SearchFrom(call: seq<Rebinding>, j: nat, name: Option<seq<Byte>>): Option<Rebinding>
    decreases |call| - j
  {
    if j >= |call| then None
    else if name == Some(call[j].Name()) then Some(call[j])
    else SearchFrom(call, j + 1, name)
  }

  function SearchCalls(calls: Calls, name: Option<seq<Byte>>): Option<Rebinding>
  {
    if calls == [] then None
    else if SearchFrom(calls[0], 0, name).Some? then SearchFrom(calls[0], 0, name)
    else SearchCalls(calls[1..], name)
  }

  lemma {:induction false} SearchFromIsBinder(call: seq<Rebinding>, j: nat, name: Option<seq<Byte>>)
    requires j <= |call|
    ensures SearchFrom(call, j, name) == Binder(call[j..], name)
    decreases |call| - j
  {
    if j < |call| {
      SearchFromIsBinder(call, j + 1, name);
      assert call[j..][1..] == call[j + 1..];
    }
  }

  /** The nested search finds the first match in the flattened list. */
  lemma {:induction false} SearchIsBinder(calls: Calls, name: Option<seq<Byte>>)
    ensures SearchCalls(calls, name) == Binder(Flatten(calls), name)
  {
    if calls != [] {
      SearchIsBinder(calls[1..], name);
      SearchFromIsBinder(calls[0], 0, name);
      assert calls[0][0..] == calls[0];
      if name.Some? {
        FirstMatchConcat(calls[0], Flatten(calls[1..]), name.value);
      }
    }
  }

  ghost function WalkSection(mem: Memory, list: seq<Rebinding>, img: RawImage, t: Tables, sect: Section, n: nat): Memory
    requires SectionReadable(img, t, sect) && n <= SlotCount(sect)
  {
    if n == 0 then mem
    else BindSlot(WalkSection(mem, list, img, t, sect, n - 1), list, SlotAt(img, t, sect, n - 1))
  }

  ghost function WalkCommand(mem: Memory, list: seq<Rebinding>, img: Image, t: Tables, i: nat, n: nat): Memory
    requires FindTables(img) == Some(t) && IsCommand(img, i) && n <= SectionCount(CommandAt(img, i))
  {
    if n == 0 then mem
    else
      var before := WalkCommand(mem, list, img, t, i, n - 1);
      if !Eligible(CommandAt(img, i), n - 1) then before
      else
        var sect := CommandAt(img, i).sections[n - 1];
        WalkSection(before, list, img, t, sect, SlotCount(sect))
  }

  ghost function WalkCommands(mem: Memory, list: seq<Rebinding>, img: Image, t: Tables, n: nat): Memory
    requires FindTables(img) == Some(t) && n <= img.ncmds && CommandsReadable(img, n)
  {
    if n == 0 then mem
    else WalkCommand(WalkCommands(mem, list, img, t, n - 1), list, img, t, n - 1, SectionCount(CommandAt(img, n - 1)))
  }

  ghost function WalkImage(mem: Memory, list: seq<Rebinding>, img: Image): Memory
  {
    match FindTables(img)
    case None => mem
    case Some(t) => WalkCommands(mem, list, img, t, img.ncmds)
  }

  lemma {:induction false} WalkSectionIsPass(mem: Memory, list: seq<Rebinding>, img: RawImage, t: Tables,
                                             sect: Section, n: nat)
    requires SectionReadable(img, t, sect) && n <= SlotCount(sect)
    ensures WalkSection(mem, list, img, t, sect, n) == BindSlots(mem, list, SectionSlots(img, t, sect, n))
  {
    if n > 0 {
      WalkSectionIsPass(mem, list, img, t, sect, n - 1);
      assert SectionSlots(img, t, sect, n)[..n - 1] == SectionSlots(img, t, sect, n - 1);
    }
  }

  lemma OneMoreSection(img: Image, t: Tables, i: nat, n: nat)
    requires FindTables(img) == Some(t) && EligibleRef(img, SectionRef(i, n))
    ensures var sect := RefSection(img, SectionRef(i, n));
      SectionReadable(img, t, sect) &&
      SlotsOf(img, t, RefsInCommand(img, i, n + 1)) ==
        SlotsOf(img, t, RefsInCommand(img, i, n)) + SectionSlots(img, t, sect, SlotCount(sect))
  {
    var before := RefsInCommand(img, i, n);
    assert RefsInCommand(img, i, n + 1) == before + [SectionRef(i, n)];
    assert (before + [SectionRef(i, n)])[..|before|] == before;
  }

  lemma WalkOneMore(mem: Memory, list: seq<Rebinding>, img: Image, t: Tables, i: nat, n: nat)
    requires FindTables(img) == Some(t) && IsCommand(img, i) && n < SectionCount(CommandAt(img, i))
    requires EligibleRef(img, SectionRef(i, n))
    ensures var sect := RefSection(img, SectionRef(i, n));
      SectionReadable(img, t, sect) &&
      WalkCommand(mem, list, img, t, i, n + 1) ==
        BindSlots(WalkCommand(mem, list, img, t, i, n), list, SectionSlots(img, t, sect, SlotCount(sect)))
  {
    var sect := RefSection(img, SectionRef(i, n));
    assert Eligible(CommandAt(img, i), n);
    WalkSectionIsPass(WalkCommand(mem, list, img, t, i, n), list, img, t, sect, SlotCount(sect));
  }

  lemma NoMoreSection(mem: Memory, list: seq<Rebinding>, img: Image, t: Tables, i: nat, n: nat)
    requires FindTables(img) == Some(t) && IsCommand(img, i) && n < SectionCount(CommandAt(img, i))
    requires !EligibleRef(img, SectionRef(i, n))
    ensures RefsInCommand(img, i, n + 1) == RefsInCommand(img, i, n)
    ensures WalkCommand(mem, list, img, t, i, n + 1) == WalkCommand(mem, list, img, t, i, n)
  {
    assert !Eligible(CommandAt(img, i), n);
  }

  /** The walk over the first `n` sections is one pass over their slots. */
  ghost predicate IsPassUpTo(mem: Memory, list: seq<Rebinding>, img: Image, t: Tables, i: nat, n: nat)
    requires FindTables(img) == Some(t) && IsCommand(img, i) && n <= SectionCount(CommandAt(img, i))
  {
    WalkCommand(mem, list, img, t, i, n) == BindSlots(mem, list, SlotsOf(img, t, RefsInCommand(img, i, n)))
  }

  lemma NothingIsPass(mem: Memory, list: seq<Rebinding>, img: Image, t: Tables, i: nat)
    requires FindTables(img) == Some(t) && IsCommand(img, i)
    ensures IsPassUpTo(mem, list, img, t, i, 0)
  {
  }

  lemma OneMoreIsPass(mem: Memory, list: seq<Rebinding>, img: Image, t: Tables, i: nat, n: nat)
    requires FindTables(img) == Some(t) && IsCommand(img, i) && n < SectionCount(CommandAt(img, i))
    requires IsPassUpTo(mem, list, img, t, i, n)
    ensures IsPassUpTo(mem, list, img, t, i, n + 1)
  {
    if EligibleRef(img, SectionRef(i, n)) {
      var sect := RefSection(img, SectionRef(i, n));
      WalkOneMore(mem, list, img, t, i, n);
      OneMoreSection(img, t, i, n);
      BindSlotsConcat(mem, list, SlotsOf(img, t, RefsInCommand(img, i, n)),
                      SectionSlots(img, t, sect, SlotCount(sect)));
    } else {
      NoMoreSection(mem, list, img, t, i, n);
    }
  }

  lemma {:induction false} WalkCommandIsPass(mem: Memory, list: seq<Rebinding>, img: Image, t: Tables, i: nat, n: nat)
    requires FindTables(img) == Some(t) && IsCommand(img, i) && n <= SectionCount(CommandAt(img, i))
    ensures IsPassUpTo(mem, list, img, t, i, n)
  {
    if n == 0 {
      NothingIsPass(mem, list, img, t, i);
    } else {
      WalkCommandIsPass(mem, list, img, t, i, n - 1);
      OneMoreIsPass(mem, list, img, t, i, n - 1);
    }
  }

  lemma {:induction false} WalkCommandsIsPass(mem: Memory, list: seq<Rebinding>, img: Image, t: Tables, n: nat)
    requires FindTables(img) == Some(t) && n <= img.ncmds && CommandsReadable(img, n)
    ensures WalkCommands(mem, list, img, t, n) == BindSlots(mem, list, SlotsOf(img, t, Refs(img, n)))
  {
    if n > 0 {
      var a, b := Refs(img, n - 1), RefsInCommand(img, n - 1, SectionCount(CommandAt(img, n - 1)));
      WalkCommandsIsPass(mem, list, img, t, n - 1);
      WalkCommandIsPass(WalkCommands(mem, list, img, t, n - 1), list, img, t, n - 1,
                        SectionCount(CommandAt(img, n - 1)));
      SlotsOfConcat(img, t, a, b);
      BindSlotsConcat(mem, list, SlotsOf(img, t, a), SlotsOf(img, t, b));
    }
  }

  /** The nested walk over an image is one pass over the image's slots, in order. */
  lemma WalkIsPass(mem: Memory, list: seq<Rebinding>, img: Image)
    ensures WalkImage(mem, list, img) == BindSlots(mem, list, ImageSlots(img))
  {
    if FindTables(img).Some? {
      WalkCommandsIsPass(mem, list, img, FindTables(img).value, img.ncmds);
    }
  }
}
