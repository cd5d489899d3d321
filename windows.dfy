/** The window registry of the retro desktop: its records, its state and the
    five actions, each as a pure function from the old state to the new one.
    The class in windows_store.dfy applies these functions to its fields. */
module Windows {

  datatype Option<T> = None | Some(value: T)

  /** One registered window. `z` is its stacking order: higher paints above. */
  datatype WindowData = WindowData(id: string, title: string, minimized: bool, z: int)

  /** The three fields of the store. */
  datatype State = State(windows: seq<WindowData>, activeId: Option<string>, nextZ: int)

  /** The store as it is created: no windows, nothing active, counter at 1. */
  function Initial(): State
  {
    State([], None, 1)
  }

  predicate HasId(ws: seq<WindowData>, id: string)
  {
    exists i :: 0 <= i < |ws| && ws[i].id == id
  }

  /** `windows.find(w => w.id === id)`: the first record with that id, if any. */
  function Find(ws: seq<WindowData>, id: string): (r: Option<WindowData>)
    ensures r.None? <==> !HasId(ws, id)
    ensures r.Some? ==> exists k :: 0 <= k < |ws| && ws[k] == r.value && ws[k].id == id &&
                          forall j :: 0 <= j < k ==> ws[j].id != id
    decreases |ws|
  {
    if |ws| == 0 then None
    else if ws[0].id == id then Some(ws[0])
    else
      var r := Find(ws[1..], id);
      assert r.Some? ==> exists k :: 0 <= k < |ws[1..]| && ws[1..][k] == r.value && ws[1..][k].id == id &&
                          forall j :: 0 <= j < k ==> ws[1..][j].id != id;
      assert HasId(ws, id) ==> HasId(ws[1..], id) by {
        if HasId(ws, id) {
          var i :| 0 <= i < |ws| && ws[i].id == id;
          assert ws[1..][i - 1].id == id;
        }
      }
      assert r.Some? ==> exists k :: 0 <= k < |ws| && ws[k] == r.value && ws[k].id == id &&
                          forall j :: 0 <= j < k ==> ws[j].id != id by {
        if r.Some? {
          var k :| 0 <= k < |ws[1..]| && ws[1..][k] == r.value && ws[1..][k].id == id &&
                   forall j :: 0 <= j < k ==> ws[1..][j].id != id;
          assert forall j :: 0 <= j < k + 1 ==> ws[j].id != id by {
            forall j | 0 <= j < k + 1 ensures ws[j].id != id {
              if j > 0 { assert ws[j] == ws[1..][j - 1]; }
            }
          }
          assert ws[k + 1] == ws[1..][k];
        }
      }
      r
  }

  /** The record mapping of focusWindow: every record with `id` is restored and
      given stacking order `z`; the others are kept as they are. */
  function Raised(ws: seq<WindowData>, id: string, z: int): seq<WindowData>
  {
    seq(|ws|, i requires 0 <= i < |ws| =>
      if ws[i].id == id then ws[i].(minimized := false, z := z) else ws[i])
  }

  /** The record mapping of minimizeWindow: every record with `id` gets flag `m`. */
  function WithMinimized(ws: seq<WindowData>, id: string, m: bool): seq<WindowData>
  {
    seq(|ws|, i requires 0 <= i < |ws| =>
      if ws[i].id == id then ws[i].(minimized := m) else ws[i])
  }

  /** `windows.filter(w => w.id !== id)`: the records whose id differs, in order. */
  function Without(ws: seq<WindowData>, id: string): (r: seq<WindowData>)
    ensures forall w :: w in r <==> w in ws && w.id != id
    ensures |r| <= |ws|
    decreases |ws|
  {
    if |ws| == 0 then []
    else (if ws[0].id == id then [] else [ws[0]]) + Without(ws[1..], id)
  }

  /** `rest.reduce((a, b) => a.z > b.z ? a : b)`: a left fold that replaces the
      accumulator unless it is strictly higher, so among equal maxima the
      LAST one in list order wins. */
  function ReduceMaxZ(s: seq<WindowData>): (r: WindowData)
    requires |s| > 0
    ensures r in s
    ensures forall w :: w in s ==> w.z <= r.z
    ensures exists k :: 0 <= k < |s| && s[k] == r && forall j :: k < j < |s| ==> s[j].z < r.z
    decreases |s|
  {
    if |s| == 1 then s[0]
    else
      var front := s[..|s| - 1];
      var a := ReduceMaxZ(front);
      var b := s[|s| - 1];
      assert s == front + [b];
      assert forall w :: w in s ==> w in front || w == b;
      if a.z > b.z then
        assert exists k :: 0 <= k < |s| && s[k] == a && forall j :: k < j < |s| ==> s[j].z < a.z by {
          var k :| 0 <= k < |front| && front[k] == a && forall j :: k < j < |front| ==> front[j].z < a.z;
          assert s[k] == a;
          assert forall j :: k < j < |s| ==> s[j].z < a.z by {
            forall j | k < j < |s| ensures s[j].z < a.z {
              if j < |front| { assert s[j] == front[j]; }
            }
          }
        }
        a
      else
        assert s[|s| - 1] == b;
        b
  }

  /** openWindow: a fresh id is appended as a restored, active, top-most window;
      a known id is focused instead. */
  function OpenWindow(st: State, id: string, title: string): State
  {
    if Find(st.windows, id).None? then
      State(st.windows + [WindowData(id, title, false, st.nextZ)], Some(id), st.nextZ + 1)
    else
      FocusWindow(st, id)
  }

  /** focusWindow: no check that `id` exists. */
  function FocusWindow(st: State, id: string): State
  {
    State(Raised(st.windows, id, st.nextZ), Some(id), st.nextZ + 1)
  }

  /** The flag minimizeWindow applies: `value` when given, otherwise
      `!windows.find(w => w.id === id)?.minimized`, which is true for an unknown id. */
  function ResolvedFlag(ws: seq<WindowData>, id: string, value: Option<bool>): bool
  {
    match value
    case Some(v) => v
    case None =>
      match Find(ws, id)
      case None => true
      case Some(w) => !w.minimized
  }

  /** minimizeWindow: set (or toggle) the flag; a window that is minimized
      while active stops being active. */
  function MinimizeWindow(st: State, id: string, value: Option<bool>): State
  {
    var m := ResolvedFlag(st.windows, id, value);
    State(WithMinimized(st.windows, id, m),
          if m && st.activeId == Some(id) then None else st.activeId,
          st.nextZ)
  }

  /** toggleTaskbarClick: ignore unknown ids; hide the active visible window;
      bring any other window to the front. */
  function ToggleTaskbarClick(st: State, id: string): State
  {
    match Find(st.windows, id)
    case None => st
    case Some(w) =>
      if st.activeId == Some(id) && !w.minimized then MinimizeWindow(st, id, Some(true))
      else FocusWindow(st, id)
  }

  /** The window that becomes active when the active one is closed. */
  function NextActive(rest: seq<WindowData>): Option<string>
  {
    if |rest| > 0 then Some(ReduceMaxZ(rest).id) else None
  }

  /** closeWindow: drop every record with `id`; if it was active, activate the
      remaining window the fold picks (possibly a minimized one). */
  function CloseWindow(st: State, id: string): State
  {
    var rest := Without(st.windows, id);
    State(rest, if st.activeId == Some(id) then NextActive(rest) else st.activeId, st.nextZ)
  }
}
