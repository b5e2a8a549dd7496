/** The rebinding engine as a state machine: what each call and each image load does to the
    process, and the states that sequences of them reach. */
module Protocol {
  import opened MachO
  import opened Binding

  /** `calls` is the global list, newest call first; `callbacks` counts the times the engine has
      registered its add-image callback with dyld. Memory holds the load-time pointers of an
      image from the start: loading it only shows it to dyld. */
  datatype State = State(mem: Memory, calls: Calls, images: seq<Image>, callbacks: nat)

  datatype Event =
    | Register(rebindings: seq<Rebinding>, nodeAllocated: bool, copyAllocated: bool)
    | LoadImage(image: Image)
    | RebindImage(image: Image, rebindings: seq<Rebinding>, nodeAllocated: bool, copyAllocated: bool)

  predicate Succeeds(e: Event)
  {
    e.LoadImage? || (e.nodeAllocated && e.copyAllocated)
  }

  /** dyld calls every registered callback on a new image. */
  ghost function Notify(mem: Memory, list: seq<Rebinding>, img: Image, callbacks: nat): Memory
  {
    if callbacks == 0 then mem else BindSlots(Notify(mem, list, img, callbacks - 1), list, ImageSlots(img))
  }

  ghost function Step(st: State, e: Event): State
  {
    match e
    case Register(rebindings, _, _) =>
      if !Succeeds(e) then st
      else
        var calls := [rebindings] + st.calls;
        State(BindImages(st.mem, Flatten(calls), st.images), calls, st.images,
              if |calls| == 1 then st.callbacks + 1 else st.callbacks)
    case LoadImage(img) =>
      st.(mem := Notify(st.mem, Flatten(st.calls), img, st.callbacks), images := st.images + [img])
    case RebindImage(img, rebindings, _, _) =>
      if !Succeeds(e) then st
      else st.(mem := BindSlots(st.mem, rebindings, ImageSlots(img)))
  }

  /** The state after a sequence of events, from a process that has loaded no image yet. */
  ghost function Run(mem: Memory, events: seq<Event>): State
  {
    if events == [] then State(mem, [], [], 0)
    else Step(Run(mem, events[..|events| - 1]), events[|events| - 1])
  }
}
