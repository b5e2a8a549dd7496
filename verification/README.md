# Verification of the symbol-rebinding engine, ZigZag varints and aspect geometry

This project models three pieces of the RealSocial repository and proves what they promise.

**The symbol-rebinding engine** (`fishhook.c`). The engine keeps a newest-first linked list of copied
rebinding arrays. For every loaded image it walks the load commands, finds the symbol-pointer sections,
puts the replacement of the first matching rebinding in each pointer slot, and saves the old pointer
through `replaced`. It does so for images already loaded and for those loaded later. The model has four
layers, each proved against the next:

- `Engine` is the C code in its own form: list nodes and arrays on a heap, a load-command cursor, loops
  that write slots and cells in an array of memory words in place, and a `Process` whose methods are the
  entry points.
- `Walk` and `Binding` say what one pass does to memory: `Walk` follows the nesting of the loops, and
  `Binding` takes the slots of an image as one sequence. `MachO` says which slots those are, and
  `CStrings` what `strlen` and `strcmp` see. `ImageLayout` says it again in terms of an image's commands,
  tables and bytes alone, and `OneSlotImages` for a family of images with every layout.
- `Protocol` is the state machine: global calls, single-image calls, image loads, and failed
  allocations. Every entry point of `Engine` is proved to take exactly its step.
- `Runs`, `SavedPointers`, `Chains` and `ExactChains` prove what holds after every sequence of global
  calls and loads, `SingleImage` and `Cycles` what single-image calls change about it. `ChainSteps` follows
  chains of hooks through every run of all these events.

`AssociationHooks` and `Associations` add the engine's one client, the association manager that hooks and unhooks
`objc_setAssociatedObject` and `objc_removeAssociatedObjects`, as a class over `Process`. `HookHistories` proves
what every history of hooking and unhooking leaves in slots and in the variables for the originals. They model
builds in which `_INTERNAL_RCD_ENABLED` is set. `Samples` has concrete inputs.

**ZigZag coding and varints** (`GPBUtilities_PackagePrivate.h` and the coded streams). `Words` relates
machine words to integers bit by bit. `ZigZag` has the transforms on words, `Varint` the reading loop with
round trips and exact sizes, and `Output` the writing loops over a buffer that may run full. They follow the Protocol Buffers Encoding document,
sections "Signed Integers" and "Base 128 Varints".

**Aspect fit and fill** (`RSUtilMacro.h`): `Geometry`, over real numbers.

The theorems about runs take `images`, all images that ever appear, and `cells`, all `replaced` cells that
are ever passed, and assume that slots neither overlap nor serve as cells (`Binding.NoAliasing`). The entry
points themselves are proved without that assumption. Theorems about chains of hooks also assume that
replacements and cells are distinct and that no replacement is a load-time pointer of a slot; those of
`ChainSteps` assume it of the hooks for one name only. Load-time pointers may differ from image to image, and
from slot to slot, throughout.

## Where the code and its documentation differ

- The header promises that the later rebinding of a symbol takes precedence. That holds across global
  calls (`Runs.LaterCallWins`). Within one array the earliest entry wins (`Runs.EarlierEntryWins` says exactly when an
  entry takes effect, `Samples.LaterEntryOfOneCallLoses` gives an input).
- A single-image rebinding need not survive a later global call, even one with no rebindings, since every
  call makes a pass with the whole global list. `SingleImage.SingleImageBindingSurvives` says exactly when it does, and
  `Samples.EmptyCallUndoesSingleImageBinding` gives an input where it does not.
- Hooks are meant to call what they replaced, through the saved pointer. After global calls and loads that
  always ends at an original (`Chains.HooksReachAnOriginal`). With single-image rebindings hooks may call each
  other forever: `ChainSteps.RunEndsExactly` says exactly when, for every run, and `ChainSteps.EventEndsExactly`
  which event does it and to which slots. `Cycles.SingleImageCycleExactly` says it in terms of the calls for one
  single-image rebinding and one more global call. `Samples.SampleHooksCallEachOther` and
  `Samples.SampleThreeHooksCallEachOther` give inputs.
- Unhooking is documented to stop tracking. It puts in every loaded slot for a name what the one variable for the
  original holds (`HookHistories.UnhookRestoresExactly`), and that need not be what the slot was loaded with. If
  images load with different pointers, as they do where lazy binding starts at a stub of each image, all slots
  get the pointer of the last one (`HookHistories.FirstUnhookExactly`, `Samples.SampleUnhookMixesImages`). And if
  hooking failed to allocate, the hook counts as taken all the same and the variable is still NULL: slots get
  NULL, and hooking again leaves slots that lead to the hook, and a hook that calls NULL
  (`HookHistories.HookAgainExactly`, `Samples.SampleHookLosesOriginal`). While no unhook takes effect before an
  original is captured, hooks in force always have an original for the name to call
  (`HookHistories.HooksAfterCapture`); if moreover all slots for the name load with one pointer, unhooking
  restores it (`HookHistories.OneFunctionAfterCapture`).

## Model

| member | source | states |
|---|---|---|
| Runs.EverySlotIsBound | RealSocial/Pods/FBRetainCycleDetector/fishhook/fishhook.c:176-208 | After every sequence of global calls, failed allocations and image loads, each slot of each loaded image holds the replacement of the first match in the newest-first list, or its load-time pointer; slots of images not yet loaded are untouched |
| Runs.NothingElseIsWritten | RealSocial/Pods/FBRetainCycleDetector/fishhook/fishhook.c:98-105 | In every run, memory that is neither a slot nor a `replaced` cell is never written |
| Runs.AnotherPassChangesNothing | RealSocial/Pods/FBRetainCycleDetector/fishhook/fishhook.c:100-104 | In every state that global calls and loads reach, a further pass with the global list changes no slot and no saved pointer |
| Runs.CallbackRegisteredOnce | RealSocial/Pods/FBRetainCycleDetector/fishhook/fishhook.c:192-207 | The add-image callback is registered once if the list is not empty and never otherwise; the list is non-empty exactly if some global call has succeeded |
| Runs.OrderOfLoadsDoesNotMatter | RealSocial/Pods/FBRetainCycleDetector/fishhook/fishhook.c:199-206 | Runs of global calls and loads with the same successful calls and the same images give all slots the same contents, however loads and calls are interleaved |
| Runs.LongerListBindsAgain | RealSocial/Pods/FBRetainCycleDetector/fishhook/fishhook.c:202-205 | Passing over bound images with a longer list gives their slots what one pass with it would have given |
| Runs.CallSavesLastPointer | RealSocial/Pods/FBRetainCycleDetector/fishhook/fishhook.c:97-106 | A successful global call leaves in each cell of the list the pointer, as it was before the call, of the last loaded slot that saves through it, or leaves the cell alone if there is none |
| Runs.RunCallsAndImages | RealSocial/Pods/FBRetainCycleDetector/fishhook/fishhook.c:192-208 | The list after a run is the arrays of its successful global calls, newest first; the images are those loaded, in order |
| Runs.LaterCallWins | RealSocial/Pods/FBRetainCycleDetector/fishhook/fishhook.h:44-51 | A successful call takes effect in all loaded images, over all earlier calls |
| Runs.EarlierEntryWins | RealSocial/Pods/FBRetainCycleDetector/fishhook/fishhook.c:97-106 | Within one array an entry takes effect exactly if it, or an entry with its replacement, is the first with its name: not the later one, as the header has it |
| Runs.EmptyNamesHaveNoEffect | RealSocial/Pods/FBRetainCycleDetector/fishhook/fishhook.c:98-99 | Removing every rebinding with the empty name from every call of a run changes neither memory nor anything else but the list itself |
| Runs.StepIgnoresEmptyNames | RealSocial/Pods/FBRetainCycleDetector/fishhook/fishhook.c:98-99 | The same for a single call or load |
| SavedPointers.CellChange | RealSocial/Pods/FBRetainCycleDetector/fishhook/fishhook.c:97-106 | In a step, a cell either keeps its value, and no visited slot saves through it, or gets the pointer of a visited slot whose first match now is the cell's rebinding |
| SavedPointers.SavedPointerOrigin | RealSocial/Pods/FBRetainCycleDetector/fishhook/fishhook.c:100-103 | What a step saves is a load-time pointer of a slot with the name, or the replacement that the list before the call gave the name |
| SavedPointers.OlderCellKept | RealSocial/Pods/FBRetainCycleDetector/fishhook/fishhook.c:95-105 | A successful call writes no cell of an older call |
| SingleImage.UnusedCellsKeepInitialValue | RealSocial/Pods/FBRetainCycleDetector/fishhook/fishhook.c:100-103 | In every run, cells that no successful call has passed keep their initial values |
| SingleImage.CellHoldsLatestSave | RealSocial/Pods/FBRetainCycleDetector/fishhook/fishhook.c:97-106 | In every run, single-image calls included, a cell holds what the latest event that saves through it saved: what the last of the slots saving through it, in the order of the pass, held before that event; and its initial value if there is no such event |
| SavedPointers.CellContents | RealSocial/Pods/FBRetainCycleDetector/fishhook/fishhook.c:95-108 | In every run of global calls and loads, each cell holds its initial value, a load-time pointer of a slot with its name, or the replacement of an entry with that name in a strictly older call |
| Chains.BindersExact | RealSocial/Pods/FBRetainCycleDetector/fishhook/fishhook.c:95-109 | The first match of a name in the list is the first match of the newest call that has one |
| Chains.SlotsLeadToOriginals | RealSocial/Pods/FBRetainCycleDetector/fishhook/fishhook.c:95-108 | In every run of global calls and loads, every loaded slot leads through cells of older and older calls to a load-time pointer for its name, or to a hook that saves none |
| Chains.HooksReachAnOriginal | RealSocial/Pods/FBRetainCycleDetector/fishhook/fishhook.c:95-108 | In every run of global calls and loads, following slot, replacement, `*replaced` and so on ends within as many steps as there are calls, at a load-time pointer for the same name or at a hook for it that passed no `replaced` |
| Chains.EveryChainEnds | RealSocial/Pods/FBRetainCycleDetector/fishhook/fishhook.c:95-108 | In every run of global calls and loads, following hooks ends from every pointer |
| Chains.SavedPointerIsOlder | RealSocial/Pods/FBRetainCycleDetector/fishhook/fishhook.c:95-108 | In states of such runs, what a cell holds is never a replacement of its own or a newer call |
| ExactChains.CallsFormExactChain | RealSocial/Pods/FBRetainCycleDetector/fishhook/fishhook.c:98-105 | In every run of global calls and loads: if the images with slots for a name, at least one, are loaded before the first call that binds it, each saved pointer is exactly the replacement of the previous call that binds it, and the first one a load-time pointer |
| ExactChains.ExactChainInvariant | RealSocial/Pods/FBRetainCycleDetector/fishhook/fishhook.c:192-208 | The same as an invariant of the states of such runs |
| ExactChains.LateLoadResetsNewestCell | RealSocial/Pods/FBRetainCycleDetector/fishhook/fishhook.c:98-105 | In such runs, a later load of an image with such a slot makes the newest hook's saved pointer a load-time pointer of that image |
| SingleImage.SingleImageIsolation | RealSocial/Pods/FBRetainCycleDetector/fishhook/fishhook.c:181-190 | A single-image call changes neither the list, the callback, nor other images' slots, and binds its image with its own array only; a failed one changes nothing |
| SingleImage.EverySlotHoldsItsLatestMatch | RealSocial/Pods/FBRetainCycleDetector/fishhook/fishhook.c:176-208 | In every run, single-image calls included, each slot holds the replacement of the latest pass over its image that matched its name |
| SingleImage.SingleImageBindingSurvives | RealSocial/Pods/FBRetainCycleDetector/fishhook/fishhook.c:199-206 | A single-image binding survives the next global call if and only if that call and the list have no other replacement as their first match for the name |
| SingleImage.AnotherPassChangesNothingExactly | RealSocial/Pods/FBRetainCycleDetector/fishhook/fishhook.c:199-206 | In every run, single-image calls included, a further pass with the global list changes nothing if and only if every loaded slot for which the list has a match got that match's replacement from its latest matching pass |
| SingleImage.CellsStayWithTheirName | RealSocial/Pods/FBRetainCycleDetector/fishhook/fishhook.c:98-105 | In every run, single-image calls included, a cell that is passed for one name only holds its initial value, a load-time pointer of a slot with that name, or the replacement of an entry for that name |
| SingleImage.EveryStepIsPass | RealSocial/Pods/FBRetainCycleDetector/fishhook/fishhook.c:176-208 | Every event is at most one pass over some images with one list |
| Cycles.SingleImageCycleExactly | RealSocial/Pods/FBRetainCycleDetector/fishhook/fishhook.c:181-208 | After any run of global calls and loads, a single-image call that binds a slot's name and then a global call: following the hooks from the slot never ends if and only if the global call has no match for the name and both the single-image hook and the newest older one save a pointer; then each has saved the other |
| Cycles.NewHookEnds | RealSocial/Pods/FBRetainCycleDetector/fishhook/fishhook.c:98-105 | If the global call does bind the name, the chain through its hook ends |
| Cycles.OlderHookCycles | RealSocial/Pods/FBRetainCycleDetector/fishhook/fishhook.c:98-105 | If it does not, but an older call does, the chain through that hook ends unless both hooks save a pointer |
| ChainSteps.EventEndsExactly | RealSocial/Pods/FBRetainCycleDetector/fishhook/fishhook.c:95-108 | For every event after every run, single-image calls included, and every pointer: following the hooks for a name from it ends after the event as it did before, unless it came to the hook that the event binds the name with; then it ends if and only if what the event leaves in that hook's cell ended before and did not lead to that hook |
| ChainSteps.BoundSlotEndsExactly | RealSocial/Pods/FBRetainCycleDetector/fishhook/fishhook.c:95-108 | From a slot that the event binds, following ends if and only if what the event leaves in the hook's cell ended before and did not lead to the hook |
| ChainSteps.RunEndsExactly | RealSocial/Pods/FBRetainCycleDetector/fishhook/fishhook.c:95-108 | In every run, single-image calls included: after every event following the hooks for a name ends from everywhere, if and only if no event leaves in the cell of the hook it binds the name with a pointer that led to that hook already |
| ChainSteps.EndsAtOriginal | RealSocial/Pods/FBRetainCycleDetector/fishhook/fishhook.c:95-108 | In every run, single-image calls included: where following from a slot ends, if it ends, is a load-time pointer of a slot for its name or a hook for the name that passed no `replaced` |
| ChainSteps.ChangedHookEndsExactly | RealSocial/Pods/FBRetainCycleDetector/fishhook/fishhook.c:100-103 | Setting the cell of one hook makes following that hook end if and only if the new pointer ended before and did not lead to the hook |
| ChainSteps.CycleNeverEnds | RealSocial/Pods/FBRetainCycleDetector/fishhook/fishhook.c:98-105 | Following never ends from a hook that leads back to itself |
| Samples.EmptyCallUndoesSingleImageBinding | RealSocial/Pods/FBRetainCycleDetector/fishhook/fishhook.h:49-58 | On a concrete image, a later call with no rebindings undoes a single-image binding |
| Samples.EmptyCallUndoes | RealSocial/Pods/FBRetainCycleDetector/fishhook/fishhook.c:199-206 | The same for every image with one slot |
| Samples.HooksCallEachOther | RealSocial/Pods/FBRetainCycleDetector/fishhook/fishhook.c:181-208 | For every image with one slot: rebind globally, rebind in the image, call with no rebindings, and the two hooks have saved each other |
| Samples.SampleHooksCallEachOther | RealSocial/Pods/FBRetainCycleDetector/fishhook/fishhook.c:181-208 | The same on a concrete image, with concrete rebindings |
| Samples.ThreeHooksCallEachOther | RealSocial/Pods/FBRetainCycleDetector/fishhook/fishhook.c:181-208 | For every image with one slot: rebind globally, rebind in the image twice, call with no rebindings, and three hooks call each other in turn |
| Samples.SampleThreeHooksCallEachOther | RealSocial/Pods/FBRetainCycleDetector/fishhook/fishhook.c:181-208 | The same on a concrete image, with concrete rebindings |
| Samples.LaterEntryOfOneCallLoses | RealSocial/Pods/FBRetainCycleDetector/fishhook/fishhook.h:49-51 | In a concrete array with two entries for a name, the later one does not take precedence |
| Samples.LoadOrderChangesSavedPointers | RealSocial/Pods/FBRetainCycleDetector/fishhook/fishhook.c:98-105 | Unlike slots, saved pointers depend on when an image is loaded: two calls and one load in two orders |
| Samples.SampleSlots | RealSocial/Pods/FBRetainCycleDetector/fishhook/fishhook.c:114-174 | The concrete image is well-formed and has one slot, named by its symbol without the first character |
| AssociationHooks.AssociationManager.constructor | RealSocial/Pods/FBRetainCycleDetector/FBRetainCycleDetector/Associations/FBAssociationManager.mm:33-37 | No hook is taken at the start, and nothing is tracked |
| AssociationHooks.AssociationManager.InstallArray | RealSocial/Pods/FBRetainCycleDetector/FBRetainCycleDetector/Associations/FBAssociationManager.mm:164-174 | The array that hooking passes |
| AssociationHooks.AssociationManager.RestoreArray | RealSocial/Pods/FBRetainCycleDetector/FBRetainCycleDetector/Associations/FBAssociationManager.mm:184-192 | The array that unhooking passes: the same names, what the variables for the originals hold, and no out-pointers |
| AssociationHooks.AssociationManager.Hook | RealSocial/Pods/FBRetainCycleDetector/FBRetainCycleDetector/Associations/FBAssociationManager.mm:160-177 | Takes the step of the client model: both functions are rebound, saving through the variables for the originals, and the hook counts as taken whatever the result |
| AssociationHooks.AssociationManager.Unhook | RealSocial/Pods/FBRetainCycleDetector/FBRetainCycleDetector/Associations/FBAssociationManager.mm:179-196 | Takes the step of the client model: if the hook was taken, both names are bound to what the variables hold, saving nothing, and the table is cleared whatever the result; otherwise nothing happens |
| AssociationHooks.AssociationManager.CleanUp | RealSocial/Pods/FBRetainCycleDetector/FBRetainCycleDetector/Associations/FBAssociationManager.mm:149-152 | Clears the table and changes nothing else |
| AssociationHooks.AssociationManager.UpdateTable | RealSocial/Pods/FBRetainCycleDetector/FBRetainCycleDetector/Associations/FBAssociationManager.mm:111-147 | What a hook does to the table before it calls the original |
| AssociationHooks.AssociationManager.Track | RealSocial/Pods/FBRetainCycleDetector/FBRetainCycleDetector/Associations/FBAssociationManager.mm:111-147 | A call that reaches a hook takes the step of the client model on the table, and then calls what the variable for that function holds |
| AssociationHooks.ClientRunIsRun | RealSocial/Pods/FBRetainCycleDetector/FBRetainCycleDetector/Associations/FBAssociationManager.mm:160-196 | Every sequence of hooks, unhooks, loads and calls is a run of the engine, and the hook is taken exactly if it was ever called |
| HookHistories.HooksInForce | RealSocial/Pods/FBRetainCycleDetector/FBRetainCycleDetector/Associations/FBAssociationManager.mm:160-196 | In every such sequence, whatever allocations fail, whenever unhooks come, and whatever pointers images load with: a loaded slot for the name holds the hook while hooks are in force, otherwise what the last unhook restored or its own load-time pointer; the variable holds what was last caught; and the history says exactly which |
| HookHistories.OnlyPointersOfTheName | RealSocial/Pods/FBRetainCycleDetector/FBRetainCycleDetector/Associations/FBAssociationManager.mm:160-196 | What the variable holds, and what an unhook restores, is the variable's initial value or a load-time pointer of a loaded slot for the name |
| HookHistories.UnhookRestoresExactly | RealSocial/Pods/FBRetainCycleDetector/FBRetainCycleDetector/Associations/FBAssociationManager.mm:179-194 | After any history, an unhook leaves in every loaded slot for the name what the variable for the original holds: so a slot gets back its own load-time pointer if and only if the variable holds that |
| HookHistories.FirstUnhookExactly | RealSocial/Pods/FBRetainCycleDetector/FBRetainCycleDetector/Associations/FBAssociationManager.mm:160-194 | The first hook and unhook that take effect leave in every loaded slot for the name the load-time pointer of the last of these slots, so a slot gets back its own if and only if the two agree |
| HookHistories.UnhookMixesImages | RealSocial/Pods/FBRetainCycleDetector/FBRetainCycleDetector/Associations/FBAssociationManager.mm:160-194 | Two images with different load-time pointers, a hook, an unhook, and no failure: the first image's slot is left with the second's pointer |
| Samples.SampleUnhookMixesImages | RealSocial/Pods/FBRetainCycleDetector/FBRetainCycleDetector/Associations/FBAssociationManager.mm:160-194 | The same on two concrete images and memory |
| HookHistories.HookAgainExactly | RealSocial/Pods/FBRetainCycleDetector/FBRetainCycleDetector/Associations/FBAssociationManager.mm:160-194 | After any history, an unhook and then a hook: each loaded slot for the name leads to the hook, which has to call what the variable held before; that is the slot's own load-time pointer if and only if it was before |
| HookHistories.CapturedIsKept | RealSocial/Pods/FBRetainCycleDetector/FBRetainCycleDetector/Associations/FBAssociationManager.mm:160-194 | If no unhook takes effect before hooks were in force while an image with a slot was loaded, then as soon as they were, the variable holds a load-time pointer for the name, and every unhook restores one |
| HookHistories.HooksAfterCapture | RealSocial/Pods/FBRetainCycleDetector/FBRetainCycleDetector/Associations/FBAssociationManager.mm:160-196 | Under that condition every loaded slot for the name holds the hook while hooks are in force, with a load-time pointer for the name to call; otherwise it holds its own load-time pointer or that of another slot for the name |
| HookHistories.OneFunctionUnhook | RealSocial/Pods/FBRetainCycleDetector/FBRetainCycleDetector/Associations/FBAssociationManager.mm:179-194 | If all slots for the name load with one pointer, an unhook restores it if and only if the variable does not hold its initial value |
| HookHistories.OneFunctionAfterCapture | RealSocial/Pods/FBRetainCycleDetector/FBRetainCycleDetector/Associations/FBAssociationManager.mm:160-196 | If all slots for the name load with one pointer and no unhook comes before capture, every slot holds the hook, with that pointer to call, or that pointer |
| HookHistories.UnhookAfterFailedHooks | RealSocial/Pods/FBRetainCycleDetector/FBRetainCycleDetector/Associations/FBAssociationManager.mm:164-192 | If every hook so far failed for want of memory, the first unhook leaves the variable's initial value, NULL for a C static, in every loaded slot for the name, and hooking again leaves the hook with that to call |
| Samples.SampleHookLosesOriginal | RealSocial/Pods/FBRetainCycleDetector/FBRetainCycleDetector/Associations/FBAssociationManager.mm:160-194 | The same on a concrete image and memory: a hook that fails, an unhook, a hook |
| Samples.SettingHolds | RealSocial/Pods/FBRetainCycleDetector/FBRetainCycleDetector/Associations/FBAssociationManager.mm:108-109 | The assumptions of these theorems hold of every image with one slot whose function is hooked |
| Samples.SettingHoldsForTwo | RealSocial/Pods/FBRetainCycleDetector/FBRetainCycleDetector/Associations/FBAssociationManager.mm:108-109 | They hold of any two such images whose slots differ, whatever the slots load with |
| AssociationHooks.TrackedExactly | RealSocial/Pods/FBRetainCycleDetector/FBRetainCycleDetector/Associations/FBAssociationManager.mm:111-152 | In every sequence, the table holds a key for an object if and only if a non-nil value was stored under it with one of the two retain policies, and nothing has since stored nil or a value with another policy there, removed the object's associations, or unhooked |
| AssociationHooks.UnhookStopsTracking | RealSocial/Pods/FBRetainCycleDetector/FBRetainCycleDetector/Associations/FBAssociationManager.mm:179-194 | After any history, an unhook leaves the table empty whether or not its allocations succeed, if there was a hook; and changes nothing if there was none |
| Associations.TrackedAfter | RealSocial/Pods/FBRetainCycleDetector/FBRetainCycleDetector/Associations/FBAssociationManager.mm:111-147 | What one call of a hook does, policy by policy: a non-nil value stored with one of the two retain policies is tracked; nil, and a value stored with one of the other three, is not; removing all associations leaves none; every other owner and key is as before |
| Associations.AssociationTable.ResetAssociationAtKey | RealSocial/Pods/FBRetainCycleDetector/FBRetainCycleDetector/Associations/FBAssociationManager.mm:39-51 | Removes the key from the object's set, if there is one |
| Associations.AssociationTable.SetStrongAssociation | RealSocial/Pods/FBRetainCycleDetector/FBRetainCycleDetector/Associations/FBAssociationManager.mm:53-67 | Adds the key, or removes it if the value is nil |
| Associations.AssociationTable.SetAssociatedObject | RealSocial/Pods/FBRetainCycleDetector/FBRetainCycleDetector/Associations/FBAssociationManager.mm:111-122 | Adds the key for a non-nil value and one of the two retain policies, and removes it otherwise |
| Associations.AssociationTable.RemoveAssociatedObjects | RealSocial/Pods/FBRetainCycleDetector/FBRetainCycleDetector/Associations/FBAssociationManager.mm:69-82 | Removes the object and its set |
| Associations.AssociationTable.CleanUp | RealSocial/Pods/FBRetainCycleDetector/FBRetainCycleDetector/Associations/FBAssociationManager.mm:149-152 | Empties the table |
| Binding.SlotsAfterPass | RealSocial/Pods/FBRetainCycleDetector/fishhook/fishhook.c:85-111 | One pass gives each slot the replacement of its name's first match, or leaves it; all else but the list's cells is unchanged |
| Binding.CellAfterPass | RealSocial/Pods/FBRetainCycleDetector/fishhook/fishhook.c:97-106 | One pass leaves a cell with the pre-pass pointer of the last slot that saves through it, or unchanged if there is none |
| Binding.LastSaveExact | RealSocial/Pods/FBRetainCycleDetector/fishhook/fishhook.c:97-106 | What a pass saves through a cell is what the last slot that saves through it held, and nothing exactly if no slot does |
| Binding.PassIdempotent | RealSocial/Pods/FBRetainCycleDetector/fishhook/fishhook.c:100-104 | A second pass with the same list changes nothing |
| Binding.PassDependsOnFirstMatch | RealSocial/Pods/FBRetainCycleDetector/fishhook/fishhook.c:95-109 | Lists with the same first matches for the slots' names make the same pass |
| Binding.EmptyListPass | RealSocial/Pods/FBRetainCycleDetector/fishhook/fishhook.c:95-110 | A pass with an empty list changes nothing |
| Binding.SlotsAfterImages | RealSocial/Pods/FBRetainCycleDetector/fishhook/fishhook.c:202-205 | A pass over several images binds their slots and leaves those of other images |
| Binding.CellsAfterImages | RealSocial/Pods/FBRetainCycleDetector/fishhook/fishhook.c:202-205 | A pass over several images leaves a cell with the pre-pass pointer of one of its savers, or unchanged if it has none |
| Binding.CellAfterImagesExactly | RealSocial/Pods/FBRetainCycleDetector/fishhook/fishhook.c:202-205 | The cell ends with the pre-pass pointer of the last saver, in the order of the images' first visits |
| Binding.CellIsLastSaveIn | RealSocial/Pods/FBRetainCycleDetector/fishhook/fishhook.c:202-205 | A pass over several images leaves in every cell, whether or not the list mentions it, what the last save puts there, or what it held |
| Binding.AllSlotsDistinct | RealSocial/Pods/FBRetainCycleDetector/fishhook/fishhook.c:202-205 | The slots of distinct images are distinct |
| Binding.FirstVisitsSuffice | RealSocial/Pods/FBRetainCycleDetector/fishhook/fishhook.c:202-205 | Visiting an image a second time in the same pass changes nothing |
| Binding.ImagesPassIsPass | RealSocial/Pods/FBRetainCycleDetector/fishhook/fishhook.c:202-205 | A pass over several images is one pass over all their slots, image by image |
| Binding.ImagesPassIdempotent | RealSocial/Pods/FBRetainCycleDetector/fishhook/fishhook.c:202-205 | A second pass over the same images changes nothing |
| Binding.FirstMatchIsLeast | RealSocial/Pods/FBRetainCycleDetector/fishhook/fishhook.c:95-109 | The first match is the entry of lowest index with the name |
| Binding.FirstMatchConcat | RealSocial/Pods/FBRetainCycleDetector/fishhook/fishhook.c:74-75 | What is put in front takes precedence |
| Binding.SymbolTestExact | RealSocial/Pods/FBRetainCycleDetector/fishhook/fishhook.c:93-99 | The strlen and strcmp test holds if and only if the symbol is one arbitrary byte followed by exactly the rebinding's non-empty name |
| Binding.TestAgreesWithName | RealSocial/Pods/FBRetainCycleDetector/fishhook/fishhook.c:93-99 | So it holds if and only if the slot's name is that of the rebinding |
| Binding.SlotNamesNonempty | RealSocial/Pods/FBRetainCycleDetector/fishhook/fishhook.c:98 | No slot can be rebound by the empty name |
| CStrings.StrlenIsLength | RealSocial/Pods/FBRetainCycleDetector/fishhook/fishhook.c:98 | strlen on a terminated buffer is the length of the string |
| CStrings.StrcmpIsEquality | RealSocial/Pods/FBRetainCycleDetector/fishhook/fishhook.c:99 | strcmp is zero if and only if the strings are equal |
| CStrings.CStringsEndAtNul | RealSocial/Pods/FBRetainCycleDetector/fishhook/fishhook.c:98-99 | A C string is the bytes up to the first NUL, and there is one exactly if there is a NUL |
| MachO.CursorIsPrefixSum | RealSocial/Pods/FBRetainCycleDetector/fishhook/fishhook.c:127-128 | In step i of both walks the cursor is the header, its size and the first i command sizes |
| MachO.CursorStaysInside | RealSocial/Pods/FBRetainCycleDetector/fishhook/fishhook.c:154-156 | Every command lies inside the area whose length is the sum of all sizes |
| MachO.LastOfIsLast | RealSocial/Pods/FBRetainCycleDetector/fishhook/fishhook.c:127-139 | The first walk selects the last command of each kind, if there is one |
| MachO.NoTablesExactly | RealSocial/Pods/FBRetainCycleDetector/fishhook/fishhook.c:118-144 | The engine gives up, and has no slots, exactly if dladdr fails, one of the three commands is absent, or the last dynamic symbol table has no indirect symbols |
| MachO.RefsExact | RealSocial/Pods/FBRetainCycleDetector/fishhook/fishhook.c:154-173 | The second walk visits exactly the sections whose type is 6 or 7 (non-lazy and lazy symbol pointers) in segments named `__DATA` and `__DATA_CONST`, each once, in order |
| MachO.RefsInCommandExact | RealSocial/Pods/FBRetainCycleDetector/fishhook/fishhook.c:162-171 | The same within one command |
| MachO.TablesAreInLinkEdit | RealSocial/Pods/FBRetainCycleDetector/fishhook/fishhook.c:146-152 | What lies d bytes into the link-edit segment of the file is looked up d bytes into the segment in memory |
| MachO.SlotsTileSection | RealSocial/Pods/FBRetainCycleDetector/fishhook/fishhook.c:85-87 | The slots of a section are the pointers that fit in it, one after the other from its start |
| MachO.SlotsOfSectionDistinct | RealSocial/Pods/FBRetainCycleDetector/fishhook/fishhook.c:86-87 | Slots of one section never overlap, even where addresses wrap around |
| ImageLayout.FirstWalk | RealSocial/Pods/FBRetainCycleDetector/fishhook/fishhook.c:126-139 | The first walk selects the last segment named `__LINKEDIT`, the last symbol table command and the last dynamic symbol table command |
| ImageLayout.TablesExactly | RealSocial/Pods/FBRetainCycleDetector/fishhook/fishhook.c:118-152 | Symbol, string and indirect symbol tables are where their own file offsets lead from slide + vmaddr - fileoff of that segment; without the three commands, or without indirect symbols, there are no slots |
| ImageLayout.SlotsExactly | RealSocial/Pods/FBRetainCycleDetector/fishhook/fishhook.c:79-91 | The slots of an image are exactly the pointers that fit in its symbol-pointer sections, in the order of commands, sections and pointers; each is at slide + section address + 8 i modulo 2^64, and has no name if its entry in the indirect symbol table is one of the three special values, and otherwise the name of the symbol that entry reserved1 + i names, without its first character |
| ImageLayout.PlacesAreBound | RealSocial/Pods/FBRetainCycleDetector/fishhook/fishhook.c:176-208 | After every run of global calls and loads, the word at each such address of a loaded image holds the replacement of the first match for that name, or its load-time pointer; stated from the commands, tables and bytes of the image alone |
| ImageLayout.OnlyPlacesAreWritten | RealSocial/Pods/FBRetainCycleDetector/fishhook/fishhook.c:98-105 | In every run, a word that is at no such address of any image, and is no cell, is never written |
| OneSlotImages.SlotsOfLayout | RealSocial/Pods/FBRetainCycleDetector/fishhook/fishhook.c:114-174 | For every header address, slide, link-edit segment, table offsets, segment name, section type and address, reserved1 and tables: the image with one such section is well-formed, and has its one slot exactly if name and type are right and there are indirect symbols |
| OneSlotImages.LoadAndRebind | RealSocial/Pods/FBRetainCycleDetector/fishhook/fishhook.c:192-208 | Loading any of these images and rebinding a name puts the replacement in the word at the address computed from the image if it is of the right kind and its tables give the pointer that name, and otherwise leaves that word |
| Walk.SearchIsBinder | RealSocial/Pods/FBRetainCycleDetector/fishhook/fishhook.c:95-109 | The loops over list nodes and array indices, left at the first hit, find the first match in the flattened list |
| Walk.WalkIsPass | RealSocial/Pods/FBRetainCycleDetector/fishhook/fishhook.c:154-173 | The nested walk by commands, sections and slots is one pass over the image's slots |
| Engine.RebindingList.Prepend | RealSocial/Pods/FBRetainCycleDetector/fishhook/fishhook.c:60-77 | On success the list is a copy of the caller's array followed by the old list, in new memory, acyclic, with the older nodes outside the frame; on either failure -1, the head unchanged and nothing left allocated |
| Engine.Entry.Fill | RealSocial/Pods/FBRetainCycleDetector/fishhook/fishhook.c:67-74 | The new node is valid and holds the copy and the old list |
| Engine.Memcpy | RealSocial/Pods/FBRetainCycleDetector/fishhook/fishhook.c:72 | The copy has the caller's elements |
| Engine.FindRebinding | RealSocial/Pods/FBRetainCycleDetector/fishhook/fishhook.c:95-109 | The search loops return the first match of the symbol in the list |
| Engine.RebindSlot | RealSocial/Pods/FBRetainCycleDetector/fishhook/fishhook.c:98-105 | One slot's turn, in place |
| Engine.RebindEntry | RealSocial/Pods/FBRetainCycleDetector/fishhook/fishhook.c:88-111 | The body of the slot loop: the turn of the slot that the section, the slide and the indirect symbol table give |
| Engine.PerformRebindingWithSection | RealSocial/Pods/FBRetainCycleDetector/fishhook/fishhook.c:79-112 | The slot loop takes the turns of all slots of the section, skipping the special indices |
| Engine.SelectCommands | RealSocial/Pods/FBRetainCycleDetector/fishhook/fishhook.c:127-139 | The first walk finds the last command of each kind |
| Engine.LocateTables | RealSocial/Pods/FBRetainCycleDetector/fishhook/fishhook.c:118-152 | Up to the second walk: where the three tables are, or that the engine gives up |
| Engine.RebindSection | RealSocial/Pods/FBRetainCycleDetector/fishhook/fishhook.c:165-170 | A section is handled once if it holds symbol pointers and not at all otherwise |
| Engine.RebindCommand | RealSocial/Pods/FBRetainCycleDetector/fishhook/fishhook.c:157-172 | The section loop walks one command |
| Engine.RebindCommands | RealSocial/Pods/FBRetainCycleDetector/fishhook/fishhook.c:154-173 | The second walk over all commands |
| Engine.RebindSymbolsForImage | RealSocial/Pods/FBRetainCycleDetector/fishhook/fishhook.c:114-174 | The whole image walk, with its early exits |
| Engine.Process.constructor | RealSocial/Pods/FBRetainCycleDetector/fishhook/fishhook.c:58 | An empty list: the first state of a run |
| Engine.Process.RebindWithGlobalList | RealSocial/Pods/FBRetainCycleDetector/fishhook/fishhook.c:176-179 | The callback makes a pass over one image with the global list |
| Engine.Process.RebindImages | RealSocial/Pods/FBRetainCycleDetector/fishhook/fishhook.c:202-205 | The image loop makes a pass over all images, in order |
| Engine.Process.RegisterFuncForAddImage | RealSocial/Pods/FBRetainCycleDetector/fishhook/fishhook.c:197-200 | Registering the callback invokes it for the existing images |
| Engine.Process.PrependGlobal | RealSocial/Pods/FBRetainCycleDetector/fishhook/fishhook.c:193-199 | Adds to the global list and tells whether this is the first call |
| Engine.Process.RebindSymbols | RealSocial/Pods/FBRetainCycleDetector/fishhook/fishhook.c:192-208 | The global call takes exactly the state machine's step, and returns 0 or -1 |
| Engine.Process.LocalList | RealSocial/Pods/FBRetainCycleDetector/fishhook/fishhook.c:185-186 | A list of its own for the single-image call |
| Engine.Process.RebindWithList | RealSocial/Pods/FBRetainCycleDetector/fishhook/fishhook.c:187 | A pass over one image with a given list |
| Engine.Process.RebindWithLocalList | RealSocial/Pods/FBRetainCycleDetector/fishhook/fishhook.c:185-187 | The single-image call up to freeing its head |
| Engine.Process.FreeHead | RealSocial/Pods/FBRetainCycleDetector/fishhook/fishhook.c:188 | Frees the head, if there is one |
| Engine.Process.RebindSymbolsImage | RealSocial/Pods/FBRetainCycleDetector/fishhook/fishhook.c:181-190 | The single-image call takes the state machine's step; on success exactly one object, the copied array, stays allocated, on failure none |
| Engine.Process.LoadImage | RealSocial/Pods/FBRetainCycleDetector/fishhook/fishhook.c:197-200 | A load calls the registered callbacks on the new image |
| Engine.ReuseArray | RealSocial/Pods/FBRetainCycleDetector/fishhook/fishhook.c:72 | Overwriting the caller's array after the call is invisible |
| ZigZag.DecodeEncode32 | RealSocial/Pods/Protobuf/objectivec/GPBUtilities_PackagePrivate.h:105-128 | Decoding undoes encoding, 32 bits |
| ZigZag.EncodeDecode32 | RealSocial/Pods/Protobuf/objectivec/GPBUtilities_PackagePrivate.h:105-128 | Encoding undoes decoding, 32 bits |
| ZigZag.DecodeEncode64 | RealSocial/Pods/Protobuf/objectivec/GPBUtilities_PackagePrivate.h:113-137 | Decoding undoes encoding, 64 bits |
| ZigZag.EncodeDecode64 | RealSocial/Pods/Protobuf/objectivec/GPBUtilities_PackagePrivate.h:113-137 | Encoding undoes decoding, 64 bits |
| ZigZag.Encode32IsArithmetic | RealSocial/Pods/Protobuf/objectivec/GPBUtilities_PackagePrivate.h:121-128 | The 32-bit encoding of n is 2n, or -2n-1 if n is negative |
| ZigZag.Encode64IsArithmetic | RealSocial/Pods/Protobuf/objectivec/GPBUtilities_PackagePrivate.h:130-137 | The same for 64 bits |
| ZigZag.DecodersAreArithmetic | RealSocial/Pods/Protobuf/objectivec/GPBUtilities_PackagePrivate.h:105-119 | The decoders are the inverse of that arithmetic |
| ZigZag.EncodersAgree | RealSocial/Pods/Protobuf/objectivec/GPBUtilities_PackagePrivate.h:121-137 | On a sign-extended int32 the 64-bit encoder gives the zero-extended 32-bit encoding |
| ZigZag.SignExtendKeepsValue | RealSocial/Pods/Protobuf/objectivec/GPBCodedOutputStream.m:112-119 | Sign extension keeps the integer |
| Words.SignedIsUnsignedLess2To64 | RealSocial/Pods/Protobuf/objectivec/GPBUtilities_PackagePrivate.h:113-137 | A word with the sign bit stands for its unsigned value less 2^64 |
| Words.Signed32IsUnsignedLess2To32 | RealSocial/Pods/Protobuf/objectivec/GPBUtilities_PackagePrivate.h:105-128 | A 32-bit word with the sign bit stands for its unsigned value less 2^32 |
| Words.TruncateIsRemainder | RealSocial/Pods/Protobuf/objectivec/GPBCodedInputStream.m:123-125 | The cast to 32 bits keeps the remainder by 2^32 |
| Varint.GroupsSpell | RealSocial/Pods/Protobuf/objectivec/GPBCodedOutputStream.m:86-110 | The groups written stand for the integer, the last and only the last without continuation bit, and with no needless last group |
| Varint.GroupCount | RealSocial/Pods/Protobuf/objectivec/GPBCodedOutputStream.m:99-110 | k groups are enough if and only if the integer is below 128^k |
| Varint.GroupOfWord | RealSocial/Pods/Protobuf/objectivec/GPBCodedOutputStream.m:99-110 | The writer's mask, or and logical shift are remainder, continuation and quotient by 128 |
| Varint.GroupOfWord32 | RealSocial/Pods/Protobuf/objectivec/GPBCodedOutputStream.m:86-97 | The same for 32 bits |
| Output.OutputStream.WriteRawByte | RealSocial/Pods/Protobuf/objectivec/GPBCodedOutputStream.m:79-84 | Puts one byte in the buffer, writing it out first if it is full; raises what that raises |
| Output.OutputStream.WriteRawVarint32 | RealSocial/Pods/Protobuf/objectivec/GPBCodedOutputStream.m:86-97 | Puts the groups of the word, up to the first exception |
| Output.OutputStream.WriteRawVarint64 | RealSocial/Pods/Protobuf/objectivec/GPBCodedOutputStream.m:99-110 | Puts the groups of the word, up to the first exception |
| Output.OutputStream.WriteInt32NoTag | RealSocial/Pods/Protobuf/objectivec/GPBCodedOutputStream.m:112-119 | Puts the groups of the sign-extended integer, up to the first exception |
| Output.OutputStream.WriteSInt32NoTag | RealSocial/Pods/Protobuf/objectivec/GPBCodedOutputStream.m:403-405 | Puts the groups of the ZigZag number of the integer, up to the first exception |
| Output.OutputStream.WriteSInt64NoTag | RealSocial/Pods/Protobuf/objectivec/GPBCodedOutputStream.m:412-414 | Puts the groups of the ZigZag number of the integer, up to the first exception |
| Output.OutputStream.constructor | RealSocial/Pods/Protobuf/objectivec/GPBCodedOutputStream.m:173-183 | Starts with nothing buffered |
| Output.OutputStream.RefreshBuffer | RealSocial/Pods/Protobuf/objectivec/GPBCodedOutputStream.m:64-77 | Writes the buffer out, or raises OutOfSpace without an output and WriteFailed if the output takes less than all of this write |
| Output.OutputStream.Flush | RealSocial/Pods/Protobuf/objectivec/GPBCodedOutputStream.m:897-901 | Writes the buffer out if there is an output |
| Output.RefreshExactly | RealSocial/Pods/Protobuf/objectivec/GPBCodedOutputStream.m:64-77 | Of an empty buffer nothing is written; of any other, full or not, the output is given all bytes, and either takes them all and leaves the buffer empty, or takes the first of them, the buffer is kept and the write fails |
| Output.PutThenFlush | RealSocial/Pods/Protobuf/objectivec/GPBCodedOutputStream.m:64-84 | Putting bytes and then flushing, with an output: success means that nothing is left buffered and that the output has taken everything in order, and happens if and only if the output takes every full buffer and then all of the rest; if the last write fails, the output has taken the first bytes of the rest and the buffer is kept |
| Output.FailedPut | RealSocial/Pods/Protobuf/objectivec/GPBCodedOutputStream.m:64-84 | If a write fails while bytes are put, the output has taken all of some number of full buffers and what it took of the next, in order |
| Output.PutKeepsOrder | RealSocial/Pods/Protobuf/objectivec/GPBCodedOutputStream.m:79-110 | If nothing is raised, all bytes are taken, in order, by output and buffer together |
| Output.PlainBufferExactly | RealSocial/Pods/Protobuf/objectivec/GPBCodedOutputStream.m:64-84 | Writing to a plain buffer succeeds if and only if there is space for all bytes; if not, the first of them fill it |
| Output.OutputExactly | RealSocial/Pods/Protobuf/objectivec/GPBCodedOutputStream.m:64-84 | Writing with an output, whatever that takes of each write, succeeds if and only if it takes all of every full buffer; otherwise WriteFailed is raised |
| Output.WritesExactly | RealSocial/Pods/Protobuf/objectivec/GPBCodedOutputStream.m:64-84 | The buffer goes out as often as leaves at least one byte and at most a whole buffer behind |
| Output.RawVarint32SizeExact | RealSocial/Pods/Protobuf/objectivec/GPBCodedOutputStream.m:1182-1189 | The computed size is the number of bytes written |
| Output.RawVarint64SizeExact | RealSocial/Pods/Protobuf/objectivec/GPBCodedOutputStream.m:1196-1207 | The computed size is the number of bytes written |
| Output.SizesAreExact | RealSocial/Pods/Protobuf/objectivec/GPBCodedOutputStream.m:997-1072 | The computed sizes of int32, sint32 and sint64 are what their writers put out |
| Output.ComputedSizesSuffice | RealSocial/Pods/Protobuf/objectivec/GPBCodedOutputStream.m:997-1072 | Such an integer can be written to a plain buffer if and only if its computed size fits in what is left |
| Varint.InputStream.ReadRawByte | RealSocial/Pods/Protobuf/objectivec/GPBCodedInputStream.m:77-92 | Reads a byte, or fails in the order of the size checks and moves to the limit of the subsection |
| Varint.InputStream.ReadRawVarint64 | RealSocial/Pods/Protobuf/objectivec/GPBCodedInputStream.m:108-121 | The reading loop, with the shift and or of the source on words, computes ReadVarint |
| Varint.JoinWordIsJoin | RealSocial/Pods/Protobuf/objectivec/GPBCodedInputStream.m:113 | Joining a group by shift and or is adding its value in its place modulo 2^64 |
| Varint.EndsVarintExactly | RealSocial/Pods/Protobuf/objectivec/GPBCodedInputStream.m:114 | The test of the high bit is whether the byte is below 128 |
| Varint.InputStream.ReadInt32 | RealSocial/Pods/Protobuf/objectivec/GPBCodedInputStream.m:157-160 | Reads a varint and truncates it |
| Varint.InputStream.ReadSInt32 | RealSocial/Pods/Protobuf/objectivec/GPBCodedInputStream.m:187-190 | Reads a varint, truncates and decodes it |
| Varint.InputStream.ReadSInt64 | RealSocial/Pods/Protobuf/objectivec/GPBCodedInputStream.m:192-195 | Reads a varint and decodes it |
| Varint.ReadOutcome | RealSocial/Pods/Protobuf/objectivec/GPBCodedInputStream.m:108-121 | Reading succeeds if and only if one of the next ten bytes ends the varint inside buffer and subsection; it stops behind that byte |
| Varint.ReadValue | RealSocial/Pods/Protobuf/objectivec/GPBCodedInputStream.m:108-121 | Whatever is read, overlong and otherwise non-canonical input included, is what its groups stand for modulo 2^64 |
| Varint.InvalidVarintExactly | RealSocial/Pods/Protobuf/objectivec/GPBCodedInputStream.m:108-121 | The varint is invalid if and only if ten readable bytes all have continuation bits |
| Varint.ReadEndsExactly | RealSocial/Pods/Protobuf/objectivec/GPBCodedInputStream.m:77-121 | With what reading ends in all cases, and where the reader then stands: after ten bytes with continuation bits the varint is invalid; if the buffer ends before, the size is invalid and the reader stays at the end; if only the subsection ends, the reader goes to its limit; otherwise the first byte without continuation bit ends the varint |
| Varint.ReadersExactly | RealSocial/Pods/Protobuf/objectivec/GPBCodedInputStream.m:157-195 | Of any integer that is read, canonical or not, the three readers make its remainder by 2^32, the integer with that remainder as its ZigZag number, and the integer with it as its ZigZag number |
| Varint.ReadBack | RealSocial/Pods/Protobuf/objectivec/GPBCodedInputStream.m:108-121 | Reading the groups of any 64-bit integer gives the integer and stops right behind them |
| Varint.SInt64RoundTrip | RealSocial/Pods/Protobuf/objectivec/GPBCodedInputStream.m:192-195 | What WriteSInt64NoTag writes for n, ReadSInt64 reads as n |
| Varint.SInt32RoundTrip | RealSocial/Pods/Protobuf/objectivec/GPBCodedInputStream.m:187-190 | What WriteSInt32NoTag writes for n, ReadSInt32 reads as n |
| Varint.Int32RoundTrip | RealSocial/Pods/Protobuf/objectivec/GPBCodedInputStream.m:157-160 | What WriteInt32NoTag writes for n, ReadInt32 reads as n |
| Varint.ZigZagSize | RealSocial/Pods/Protobuf/objectivec/GPBUtilities_PackagePrivate.h:121-137 | A ZigZag number takes at most k bytes if and only if the integer lies from -2^(7k-1) to 2^(7k-1)-1 |
| Varint.SIntSizes | RealSocial/Pods/Protobuf/objectivec/GPBCodedOutputStream.m:403-414 | At most 5 bytes for an sint32, 10 for an sint64 |
| Varint.Int32Size | RealSocial/Pods/Protobuf/objectivec/GPBCodedOutputStream.m:112-119 | A negative int32 takes exactly 10 bytes, any other at most 5 |
| Varint.NegativeSize | RealSocial/Pods/Protobuf/objectivec/GPBCodedOutputStream.m:99-110 | A negative int64 takes exactly 10 bytes |
| Geometry.FitAndFillEnclose | RealSocial/RealSocial/Constants/RSUtilMacro.h:78-90 | Fit and fill have the child's proportions and lie within and around the parent |
| Geometry.FitAndFillTouch | RealSocial/RealSocial/Constants/RSUtilMacro.h:78-90 | Each agrees with the parent in width or in height |
| Geometry.FitIsLargestAndFillSmallest | RealSocial/RealSocial/Constants/RSUtilMacro.h:78-90 | A size with the child's proportions lies within the parent if and only if it lies within fit, and covers the parent if and only if it covers fill |
| Geometry.FitTimesFill | RealSocial/RealSocial/Constants/RSUtilMacro.h:78-90 | fit.w * fill.h = fit.h * fill.w = parent.w * parent.h |
| Geometry.OnlyProportionsMatter | RealSocial/RealSocial/Constants/RSUtilMacro.h:78-90 | The results depend on the child's proportions only, and are the parent if and only if it has them |
| Geometry.RectsNest | RealSocial/RealSocial/Constants/RSUtilMacro.h:92-106 | The rectangles nest around one centre |
| Geometry.RectFitIsLargestAndFillSmallest | RealSocial/RealSocial/Constants/RSUtilMacro.h:92-106 | No rectangle with the child's proportions that lies in the parent is larger than fit, and none that contains the parent is smaller than fill |
| Geometry.RectFitExactly | RealSocial/RealSocial/Constants/RSUtilMacro.h:92-98 | Fit is the only rectangle around the parent's centre that has the child's proportions, lies in the parent and touches it in one direction |
| Geometry.RectFillExactly | RealSocial/RealSocial/Constants/RSUtilMacro.h:100-106 | Fill is the only one that contains the parent and agrees with it in one direction |

## Left out

- dyld and the Mach-O file format proper: an image is a map from addresses to the commands and tables found there, `dladdr` is a boolean, and the callback's behaviour (once for each existing image at registration, once for each later one) is taken from the comment in the source.
- The 32-bit layout of headers, commands and words: only the 64-bit branch of the type definitions is modelled.
- Memory is one array of pointer-sized words over the whole 64-bit address space; slots and cells are taken to be aligned, and where a slot is (`ImageLayout.SlotsExactly`) is only said of aligned sections. Write protection of `__DATA_CONST`, lazy binding by dyld, unloading of images, and concurrent calls are not modelled.
- Load-time pointers of an image are in memory from the start of a run; loading an image only shows it to dyld.
- The load-command cursor is an unbounded integer: a wrap-around of the address space within the command area is not modelled. (Slot and table addresses do wrap.)
- Results of malloc are inputs of the calls. The overflow of `sizeof * nel` in `size_t` is not modelled.
- Engine.Process.RebindSymbols: requires at most 2^32 - 1 rebindings, because the C loops count with `uint`, which would wrap around and not end on a longer array without a match.
- Engine.Process.PrependGlobal: the same bound, so that the search in the list ends.
- Engine.Process.RebindWithLocalList: the same bound.
- Engine.Process.RebindSymbolsImage: the same bound.
- Engine.PerformRebindingWithSection: the same for sections with more than 2^32 - 1 slots, which no well-formed image has.
- Engine.RebindSymbolsForImage: one C function, here with its first walk, its second walk and the steps of that as methods of their own.
- Engine.FindRebinding: returns what it found, where the C code rebinds the slot inside the loops and leaves them by `goto`; the write follows in RebindSlot.
- The bytes of a rebinding's name are part of its value. The C code copies only the pointer to them, so a caller that overwrites a name after the call is not modelled.
- Segment names are strings: a name that fills its 16 bytes without a terminator, past which `strcmp` would read, is not modelled.
- Name buffers and symbol strings are terminated; an image is readable wherever the engine reads it. What the C code does otherwise is undefined.
- Binding.CellsAfterImages: does not say which of the savers is the last one; Binding.CellAfterImagesExactly does.
- Runs.AnotherPassChangesNothing: leaves out single-image calls, after which it can fail; SingleImage.AnotherPassChangesNothingExactly says exactly when it holds.
- SavedPointers.CellContents: leaves out single-image calls, after which a cell may hold a newer hook; SingleImage.CellsStayWithTheirName and SingleImage.CellHoldsLatestSave are about every run.
- Chains.SlotsLeadToOriginals: leaves out single-image calls, after which it can fail; ChainSteps.RunEndsExactly says exactly when following ends, and ChainSteps.EndsAtOriginal where.
- Chains.EveryChainEnds: likewise.
- Chains.HooksReachAnOriginal: the chain may also end at a hook for the name that passed no `replaced`, because such a hook has nothing to call. Single-image calls are left out as above.
- Cycles.SingleImageCycleExactly: is about one single-image call and the next global call; ChainSteps.EventEndsExactly and ChainSteps.RunEndsExactly are about all events and all runs.
- HookHistories.HooksInForce: assumes that the hook itself is neither a load-time pointer of a slot for the name nor the initial value of the variable for the original.
- The association manager's mutexes, the values it looks up for the keys it tracks, and what the originals do when called.
- Output.OutputStream.constructor: requires a buffer that is not empty if there is an output; the source would write past an empty one.
- The coded streams' tags, raw bytes, and all other field types.
- Rounding of CGFloat, and sizes that are zero or negative: the geometry is over positive reals.
- Header-only pods, generated message classes, the app's services and views: their bodies are not in the repository, or hold no logic of this kind.
