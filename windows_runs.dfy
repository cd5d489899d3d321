/** Sequences of user intents applied to the registry from its initial state:
    what holds of every state the UI can reach. */
module WindowsRuns {
  import opened Windows
  import opened WindowsProperties

  /** One intent forwarded by the window chrome or the taskbar. */
  datatype Intent =
    | Open(id: string, title: string)
    | Focus(id: string)
    | Minimize(id: string, value: Option<bool>)
    | TaskbarClick(id: string)
    | Close(id: string)

  function Step(st: State, a: Intent): State
  {
    match a
    case Open(id, title) => OpenWindow(st, id, title)
    case Focus(id) => FocusWindow(st, id)
    case Minimize(id, value) => MinimizeWindow(st, id, value)
    case TaskbarClick(id) => ToggleTaskbarClick(st, id)
    case Close(id) => CloseWindow(st, id)
  }

  function Run(st: State, acts: seq<Intent>): State
    decreases |acts|
  {
    if |acts| == 0 then st else Run(Step(st, acts[0]), acts[1..])
  }

  /** Every intent keeps the registry invariant and never lowers the counter. */
  lemma StepKeepsWf(st: State, a: Intent)
    requires Wf(st)
    ensures Wf(Step(st, a)) && st.nextZ <= Step(st, a).nextZ
  {
    match a
    case Open(id, title) => OpenKeepsWf(st, id, title);
    case Focus(id) => FocusKeepsWf(st, id);
    case Minimize(id, value) => MinimizeKeepsWf(st, id, value);
    case TaskbarClick(id) => ToggleKeepsWf(st, id);
    case Close(id) => CloseKeepsWf(st, id);
  }

  /** From a well-formed state, and so from the initial one, any sequence of
      intents ends in a well-formed state: ids and stacking orders pairwise
      distinct, every stacking order below the counter, and the counter not lower. */
  lemma {:induction false} RunKeepsWf(st: State, acts: seq<Intent>)
    requires Wf(st)
    ensures Wf(Run(st, acts)) && st.nextZ <= Run(st, acts).nextZ
    decreases |acts|
  {
    if |acts| > 0 {
      StepKeepsWf(st, acts[0]);
      RunKeepsWf(Step(st, acts[0]), acts[1..]);
    }
  }

  lemma ReachableWf(acts: seq<Intent>)
    ensures Wf(Run(Initial(), acts)) && 1 <= Run(Initial(), acts).nextZ
  {
    InitialWf();
    RunKeepsWf(Initial(), acts);
  }

  /** An intent that cannot leave the active id dangling or minimized:
      anything but a close, and a focus only of a registered id. */
  predicate KeepsShown(st: State, a: Intent)
  {
    match a
    case Close(_) => false
    case Focus(id) => HasId(st.windows, id)
    case _ => true
  }

  predicate ShownRun(st: State, acts: seq<Intent>)
    decreases |acts|
  {
    |acts| == 0 || (KeepsShown(st, acts[0]) && ShownRun(Step(st, acts[0]), acts[1..]))
  }

  lemma StepKeepsActiveShown(st: State, a: Intent)
    requires ActiveShown(st) && KeepsShown(st, a)
    ensures ActiveShown(Step(st, a))
  {
    match a
    case Open(id, title) =>
      if Find(st.windows, id).None? {
        var r := OpenWindow(st, id, title);
        assert r.windows[|st.windows|].id == id;
      } else {
        FocusKnownShowsActive(st, id);
      }
    case Focus(id) => FocusKnownShowsActive(st, id);
    case Minimize(id, value) => MinimizeKeepsActiveShown(st, id, value);
    case TaskbarClick(id) => ToggleKeepsActiveShown(st, id);
  }

  /** Along open, minimize and taskbar intents, and focus of registered ids,
      the active id always names a registered window that is not minimized. */
  lemma {:induction false} ShownRunKeepsActiveShown(st: State, acts: seq<Intent>)
    requires ActiveShown(st) && ShownRun(st, acts)
    ensures ActiveShown(Run(st, acts))
    decreases |acts|
  {
    if |acts| > 0 {
      StepKeepsActiveShown(st, acts[0]);
      ShownRunKeepsActiveShown(Step(st, acts[0]), acts[1..]);
    }
  }
}
