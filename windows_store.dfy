/** The store object itself: three mutable fields that every action overwrites.
    Each method's new state is the pure function of the old state given in
    module Windows, and each keeps the registry invariant. */
module WindowsStore {
  import opened Windows
  import opened WindowsProperties

  class Store {
    var windows: seq<WindowData>
    var activeId: Option<string>
    var nextZ: int

    function Snapshot(): State
      reads this
    {
      State(windows, activeId, nextZ)
    }

    ghost predicate Valid()
      reads this
    {
      Wf(Snapshot())
    }

    constructor ()
      ensures Valid() && Snapshot() == Initial()
    {
      windows := [];
      activeId := None;
      nextZ := 1;
    }

    method OpenWindow(id: string, title: string)
      requires Valid()
      modifies this
      ensures Valid() && Snapshot() == Windows.OpenWindow(old(Snapshot()), id, title)
    {
      if Find(windows, id).None? {
        windows, activeId, nextZ := windows + [WindowData(id, title, false, nextZ)], Some(id), nextZ + 1;
        OpenKeepsWf(old(Snapshot()), id, title);
      } else {
        FocusWindow(id);
      }
    }

    method FocusWindow(id: string)
      requires Valid()
      modifies this
      ensures Valid() && Snapshot() == Windows.FocusWindow(old(Snapshot()), id)
    {
      FocusKeepsWf(Snapshot(), id);
      windows, activeId, nextZ := Raised(windows, id, nextZ), Some(id), nextZ + 1;
    }

    method MinimizeWindow(id: string, value: Option<bool>)
      requires Valid()
      modifies this
      ensures Valid() && Snapshot() == Windows.MinimizeWindow(old(Snapshot()), id, value)
    {
      MinimizeKeepsWf(Snapshot(), id, value);
      var minimized := ResolvedFlag(windows, id, value);
      windows := WithMinimized(windows, id, minimized);
      activeId := if minimized && activeId == Some(id) then None else activeId;
    }

    method ToggleTaskbarClick(id: string)
      requires Valid()
      modifies this
      ensures Valid() && Snapshot() == Windows.ToggleTaskbarClick(old(Snapshot()), id)
    {
      var w := Find(windows, id);
      if w.None? {
        return;
      }
      if activeId == Some(id) && !w.value.minimized {
        MinimizeWindow(id, Some(true));
      } else {
        FocusWindow(id);
      }
    }

    method CloseWindow(id: string)
      requires Valid()
      modifies this
      ensures Valid() && Snapshot() == Windows.CloseWindow(old(Snapshot()), id)
    {
      CloseKeepsWf(Snapshot(), id);
      var rest := Without(windows, id);
      var nextActive := NextActive(rest);
      windows := rest;
      activeId := if activeId == Some(id) then nextActive else activeId;
    }
  }
}
