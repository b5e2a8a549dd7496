/** The association manager, the engine's one client in the repository: it installs hooks that save
    what they replace, and later binds the same names to the saved pointers again. */
module AssociationHooks {
  import opened Associations
  import opened CStrings
  import opened MachO
  import opened Binding
  import opened Protocol
  import opened Engine
  import opened Runs
  import opened SavedPointers
  import opened ExactChains
  import opened Wrappers

  const NULL: Pointer := 0

  /** Functions have addresses. */
  type FunctionPointer = p: Pointer | p != NULL witness 1

  /** A hooked function: its name, what it is replaced by, and the variable for the original, which
      is NULL until something is saved in it. */
  datatype Interposer = Interposer(name: CBuffer, replacement: FunctionPointer, original: Address)
  {
    function Name(): seq<Byte>
    {
      CStringAt(name, 0)
    }

    function Install(): Rebinding
    {
      Rebinding(name, replacement, Some(original))
    }

    function Restore(mem: Memory): Rebinding
    {
      Rebinding(name, mem[original], None)
    }
  }

  /** The two functions that the manager hooks. */
  datatype Hooks = Hooks(setter: Interposer, remover: Interposer)
  {
    function Install(): seq<Rebinding>
    {
      [setter.Install(), remover.Install()]
    }

    function Restore(mem: Memory): seq<Rebinding>
    {
      [setter.Restore(mem), remover.Restore(mem)]
    }

    function Originals(): set<Address>
    {
      {setter.original, remover.original}
    }
  }

  /* ----- the manager as a state machine ----- */

  /** `Track` is a call that reaches the hooks. */
  datatype Action =
    | Hook(nodeAllocated: bool, copyAllocated: bool)
    | Unhook(nodeAllocated: bool, copyAllocated: bool)
    | Load(image: Image)
    | Track(change: Change)

  datatype Client = Client(st: State, hookTaken: bool, associations: Table)

  function NextTable(table: Table, taken: bool, a: Action): Table
  {
    match a
    case Track(change) => Changed(table, change)
    case Unhook(_, _) => if taken then map[] else table
    case Hook(_, _) => table
    case Load(_) => table
  }

  /** What an action is to the engine, if anything: an unhook passes the pointers saved at the time. */
  function EventOf(hs: Hooks, now: Memory, taken: bool, a: Action): Option<Event>
  {
    match a
    case Hook(node, copy) => Some(Register(hs.Install(), node, copy))
    case Unhook(node, copy) => if taken then Some(Register(hs.Restore(now), node, copy)) else None
    case Load(img) => Some(LoadImage(img))
    case Track(_) => None
  }

  ghost function After(st: State, e: Option<Event>): State
  {
    if e.Some? then Step(st, e.value) else st
  }

  /** `hookTaken` is set whether or not the rebinding has succeeded. */
  ghost function ClientStep(hs: Hooks, c: Client, a: Action): Client
  {
    Client(After(c.st, EventOf(hs, c.st.mem, c.hookTaken, a)), c.hookTaken || a.Hook?,
           NextTable(c.associations, c.hookTaken, a))
  }

  ghost function ClientRun(hs: Hooks, mem: Memory, actions: seq<Action>): Client
  {
    if actions == [] then Client(State(mem, [], [], 0), false, map[])
    else ClientStep(hs, ClientRun(hs, mem, actions[..|actions| - 1]), actions[|actions| - 1])
  }

  /** The manager itself. */
  class AssociationManager {
    const process: Process
    const hooks: Hooks
    const table: AssociationTable
    var hookTaken: bool

    ghost predicate Valid()
      reads this, process, process.mem, process.rebindings, process.rebindings.head, ReprFrom(process.rebindings.head)
    {
      process.Valid() && {this, table} !! ReprFrom(process.rebindings.head)
    }

    ghost function View(): Client
      requires Valid()
      reads this, table, process, process.mem, process.rebindings, process.rebindings.head
      reads ReprFrom(process.rebindings.head)
    {
      Client(process.View(), hookTaken, table.entries)
    }

    constructor (process: Process, hooks: Hooks)
      requires process.Valid()
      ensures this.process == process && this.hooks == hooks && fresh(table) && Valid()
      ensures View() == Client(process.View(), false, map[])
    {
      this.process := process;
      this.hooks := hooks;
      this.hookTaken := false;
      this.table := new AssociationTable();
    }

    method InstallArray() returns (given: array<Rebinding>)
      ensures fresh(given) && given[..] == hooks.Install()
    {
      var first := Rebinding(hooks.setter.name, hooks.setter.replacement, Some(hooks.setter.original));
      var second := Rebinding(hooks.remover.name, hooks.remover.replacement, Some(hooks.remover.original));
      given := new Rebinding[2] [first, second];
    }

    method RestoreArray() returns (given: array<Rebinding>)
      requires Valid()
      ensures fresh(given) && given[..] == hooks.Restore(process.mem[..])
    {
      var first := Rebinding(hooks.setter.name, process.mem[hooks.setter.original], None);
      var second := Rebinding(hooks.remover.name, process.mem[hooks.remover.original], None);
      given := new Rebinding[2] [first, second];
    }

    /** Calls the engine, and leaves what is the manager's own alone. */
    method Rebind(given: array<Rebinding>, nodeAllocated: bool, copyAllocated: bool)
      requires Valid() && given.Length == 2
      modifies process`callbacks, process.mem, process.rebindings, process.heap
      ensures Valid()
      ensures View() == old(View()).(st := Step(old(View()).st, Register(given[..], nodeAllocated, copyAllocated)))
    {
      assert given[..2] == given[..];
      var retval := process.RebindSymbols(given, 2, nodeAllocated, copyAllocated);
    }

    method Hook(nodeAllocated: bool, copyAllocated: bool)
      requires Valid()
      modifies this`hookTaken, process`callbacks, process.mem, process.rebindings, process.heap
      ensures Valid() && View() == ClientStep(hooks, old(View()), Action.Hook(nodeAllocated, copyAllocated))
    {
      var given := InstallArray();
      Rebind(given, nodeAllocated, copyAllocated);
      TakeHook();
    }

    method TakeHook()
      requires Valid()
      modifies this`hookTaken
      ensures Valid() && View() == old(View()).(hookTaken := true)
    {
      hookTaken := true;
    }

    method Unhook(nodeAllocated: bool, copyAllocated: bool)
      requires Valid()
      modifies table, process`callbacks, process.mem, process.rebindings, process.heap
      ensures Valid() && View() == ClientStep(hooks, old(View()), Action.Unhook(nodeAllocated, copyAllocated))
    {
      if hookTaken {
        var given := RestoreArray();
        Rebind(given, nodeAllocated, copyAllocated);
        CleanUp();
      }
    }

    method CleanUp()
      requires Valid()
      modifies table
      ensures Valid() && View() == old(View()).(associations := map[])
    {
      table.CleanUp();
    }

    /** What a hook does to the table before it calls the original. */
    method UpdateTable(change: Change)
      requires Valid()
      modifies table
      ensures Valid() && View() == old(View()).(associations := Changed(old(table.entries), change))
    {
      match change
      case Associate(owner, key, nonNil, policy) => table.SetAssociatedObject(owner, key, nonNil, policy);
      case Disassociate(owner) => table.RemoveAssociatedObjects(owner);
    }

    /** A call that reaches a hook: the table is updated, and then the saved original is called. */
    method Track(change: Change) returns (called: Pointer)
      requires Valid()
      modifies table
      ensures Valid() && View() == ClientStep(hooks, old(View()), Action.Track(change))
      ensures called == old(View()).st.mem[if change.Associate? then hooks.setter.original else hooks.remover.original]
    {
      UpdateTable(change);
      called := process.mem[if change.Associate? then hooks.setter.original else hooks.remover.original];
    }
  }

  /* ----- the engine's run under a sequence of actions ----- */

  predicate Taken(actions: seq<Action>)
  {
    exists k :: 0 <= k < |actions| && actions[k].Hook?
  }

  ghost function Events(hs: Hooks, mem: Memory, actions: seq<Action>): seq<Event>
  {
    if actions == [] then []
    else
      var past, last := actions[..|actions| - 1], actions[|actions| - 1];
      var before := Events(hs, mem, past);
      match EventOf(hs, Run(mem, before).mem, Taken(past), last)
      case None => before
      case Some(e) => before + [e]
  }

  lemma RunOneMore(mem: Memory, before: seq<Event>, e: Event)
    ensures Run(mem, before + [e]) == Step(Run(mem, before), e)
  {
    assert (before + [e])[..|before|] == before;
  }

  lemma {:induction false} ClientRunIsRun(hs: Hooks, mem: Memory, actions: seq<Action>)
    ensures ClientRun(hs, mem, actions).st == Run(mem, Events(hs, mem, actions))
    ensures ClientRun(hs, mem, actions).hookTaken == Taken(actions)
  {
    if actions != [] {
      var n := |actions| - 1;
      ClientRunIsRun(hs, mem, actions[..n]);
      TakenStep(actions);
      RunAction(hs, mem, actions);
    }
  }

  lemma RunAction(hs: Hooks, mem: Memory, actions: seq<Action>)
    requires actions != []
    ensures var past := actions[..|actions| - 1];
      var st := Run(mem, Events(hs, mem, past));
      Run(mem, Events(hs, mem, actions)) == After(st, EventOf(hs, st.mem, Taken(past), actions[|actions| - 1]))
  {
    var past := actions[..|actions| - 1];
    var before := Events(hs, mem, past);
    var e := EventOf(hs, Run(mem, before).mem, Taken(past), actions[|actions| - 1]);
    if e.Some? {
      RunOneMore(mem, before, e.value);
    }
  }

  lemma TakenStep(actions: seq<Action>)
    requires actions != []
    ensures Taken(actions) <==> actions[|actions| - 1].Hook? || Taken(actions[..|actions| - 1])
  {
    var n := |actions| - 1;
    if k :| 0 <= k < n && actions[k].Hook? {
      assert actions[..n][k].Hook?;
    }
  }

  /* ----- images, and what the engine's theorems need ----- */

  ghost function ImagesOf(actions: seq<Action>): seq<Image>
  {
    if actions == [] then []
    else
      var before, last := ImagesOf(actions[..|actions| - 1]), actions[|actions| - 1];
      if last.Load? then before + [last.image] else before
  }

  ghost predicate ActionsWithin(actions: seq<Action>, images: set<Image>)
  {
    forall k :: 0 <= k < |actions| && actions[k].Load? ==> actions[k].image in images
  }

  lemma CellsOfHooks(hs: Hooks, mem: Memory)
    ensures Cells(hs.Install()) == hs.Originals() && Cells(hs.Restore(mem)) == {}
  {
    assert hs.Install()[0] in hs.Install() && hs.Install()[1] in hs.Install();
  }

  /** Only a load is a load, and no action is a single-image call. */
  lemma EventOfAction(hs: Hooks, now: Memory, taken: bool, a: Action, images: set<Image>)
    ensures var e := EventOf(hs, now, taken, a);
      && (if a.Load? then e == Some(LoadImage(a.image)) else e.Some? ==> e.value.Register?)
      && ((a.Load? ==> a.image in images) && e.Some? ==> EventWithin(e.value, images, hs.Originals()))
  {
    CellsOfHooks(hs, now);
  }

  lemma OneMoreWithin(before: seq<Event>, e: Event, images: set<Image>, cells: set<Address>)
    requires Within(before, images, cells) && GlobalOnly(before) && EventWithin(e, images, cells) && !e.RebindImage?
    ensures Within(before + [e], images, cells) && GlobalOnly(before + [e])
  {
  }

  lemma {:induction false} EventsWithin(mem: Memory, hs: Hooks, actions: seq<Action>, images: set<Image>)
    requires ActionsWithin(actions, images) && NoAliasing(images, hs.Originals())
    ensures Within(Events(hs, mem, actions), images, hs.Originals()) && GlobalOnly(Events(hs, mem, actions))
  {
    if actions != [] {
      var past := actions[..|actions| - 1];
      var now := Run(mem, Events(hs, mem, past)).mem;
      var e := EventOf(hs, now, Taken(past), actions[|actions| - 1]);
      EventsWithin(mem, hs, past, images);
      EventOfAction(hs, now, Taken(past), actions[|actions| - 1], images);
      if e.Some? {
        OneMoreWithin(Events(hs, mem, past), e.value, images, hs.Originals());
      }
    }
  }

  lemma {:induction false} ImagesOfRun(mem: Memory, hs: Hooks, actions: seq<Action>)
    ensures Run(mem, Events(hs, mem, actions)).images == ImagesOf(actions)
  {
    if actions != [] {
      var past := actions[..|actions| - 1];
      var st := Run(mem, Events(hs, mem, past));
      var e := EventOf(hs, st.mem, Taken(past), actions[|actions| - 1]);
      ImagesOfRun(mem, hs, past);
      RunAction(hs, mem, actions);
      EventOfAction(hs, st.mem, Taken(past), actions[|actions| - 1], {});
      if e.Some? {
        StepCallsAndImages(st, e.value);
      }
    }
  }

  lemma RunOfActionsIsProper(mem: Memory, hs: Hooks, actions: seq<Action>, images: set<Image>)
    requires ActionsWithin(actions, images) && NoAliasing(images, hs.Originals())
    ensures Proper(mem, Run(mem, Events(hs, mem, actions)), images, hs.Originals())
  {
    EventsWithin(mem, hs, actions, images);
    RunIsProper(mem, Events(hs, mem, actions), images, hs.Originals());
  }

  /* ----- what is tracked ----- */

  /** Action `j` takes the key from the table, or stops tracking. */
  predicate Erases(actions: seq<Action>, j: nat, owner: Object, key: Key)
    requires j < |actions|
  {
    match actions[j]
    case Track(change) => Removes(change, owner, key)
    case Unhook(_, _) => Taken(actions[..j])
    case Hook(_, _) => false
    case Load(_) => false
  }

  predicate StoresAt(actions: seq<Action>, k: nat, owner: Object, key: Key)
    requires k < |actions|
  {
    actions[k].Track? && Stores(actions[k].change, owner, key)
  }

  ghost predicate StoredSince(actions: seq<Action>, owner: Object, key: Key, k: nat)
  {
    k < |actions| && StoresAt(actions, k, owner, key) &&
    forall j :: k < j < |actions| ==> !Erases(actions, j, owner, key)
  }

  lemma StoredSinceStep(actions: seq<Action>, owner: Object, key: Key, k: nat)
    requires actions != []
    ensures var n := |actions| - 1;
      StoredSince(actions, owner, key, k) <==>
        if k == n then StoresAt(actions, n, owner, key)
        else StoredSince(actions[..n], owner, key, k) && !Erases(actions, n, owner, key)
  {
    var n := |actions| - 1;
    forall j | 0 <= j < n ensures Erases(actions[..n], j, owner, key) <==> Erases(actions, j, owner, key) {
      assert actions[..n][..j] == actions[..j];
    }
    if k < n && StoredSince(actions, owner, key, k) {
      assert forall j :: k < j < n ==> !Erases(actions, j, owner, key);
    }
  }

  lemma TrackedStep(hs: Hooks, mem: Memory, actions: seq<Action>, owner: Object, key: Key)
    requires actions != []
    ensures var n := |actions| - 1;
      Tracked(ClientRun(hs, mem, actions).associations, owner, key) <==>
        StoresAt(actions, n, owner, key) ||
        (Tracked(ClientRun(hs, mem, actions[..n]).associations, owner, key) && !Erases(actions, n, owner, key))
  {
    var n := |actions| - 1;
    ClientRunIsRun(hs, mem, actions[..n]);
    if actions[n].Track? {
      StoresOrRemoves(ClientRun(hs, mem, actions[..n]).associations, actions[n].change, owner, key);
    }
  }

  /** Unhooking stops tracking, whether or not the engine's call succeeds; without a hook before, it does nothing. */
  lemma UnhookStopsTracking(hs: Hooks, mem: Memory, past: seq<Action>, nodeAllocated: bool, copyAllocated: bool)
    ensures var before := ClientRun(hs, mem, past);
      var after := ClientRun(hs, mem, past + [Unhook(nodeAllocated, copyAllocated)]);
      if exists k :: 0 <= k < |past| && past[k].Hook? then after.associations == map[] else after == before
  {
    var unhook := Unhook(nodeAllocated, copyAllocated);
    assert (past + [unhook])[..|past|] == past;
    ClientRunIsRun(hs, mem, past);
  }

  /** The table holds a key for an object exactly if a strong reference was stored under it and nothing has
      erased it since. */
  lemma {:induction false} TrackedExactly(hs: Hooks, mem: Memory, actions: seq<Action>, owner: Object, key: Key)
    ensures Tracked(ClientRun(hs, mem, actions).associations, owner, key) <==>
      exists k :: StoredSince(actions, owner, key, k)
  {
    if actions != [] {
      var n := |actions| - 1;
      TrackedExactly(hs, mem, actions[..n], owner, key);
      TrackedStep(hs, mem, actions, owner, key);
      if StoresAt(actions, n, owner, key) {
        StoredSinceStep(actions, owner, key, n);
      } else {
        if k: nat :| StoredSince(actions[..n], owner, key, k) && !Erases(actions, n, owner, key) {
          StoredSinceStep(actions, owner, key, k);
        }
        if k: nat :| StoredSince(actions, owner, key, k) {
          StoredSinceStep(actions, owner, key, k);
        }
      }
    }
  }
}
