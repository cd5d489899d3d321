/** What the actions of the window registry promise, one group per action, and
    the registry invariant they keep. */
module WindowsProperties {
  import opened Windows

  /** No two records share an id. */
  predicate IdsDistinct(ws: seq<WindowData>)
  {
    forall i, j :: 0 <= i < j < |ws| ==> ws[i].id != ws[j].id
  }

  /** No two records share a stacking order. */
  predicate ZDistinct(ws: seq<WindowData>)
  {
    forall i, j :: 0 <= i < j < |ws| ==> ws[i].z != ws[j].z
  }

  /** Every stacking order was handed out by the counter before it reached `nextZ`. */
  predicate ZBelow(ws: seq<WindowData>, nextZ: int)
  {
    forall w :: w in ws ==> 1 <= w.z < nextZ
  }

  /** The registry invariant: it holds of the initial state and every action keeps it. */
  predicate Wf(st: State)
  {
    1 <= st.nextZ && IdsDistinct(st.windows) && ZDistinct(st.windows) && ZBelow(st.windows, st.nextZ)
  }

  /** The active id, when set, names a registered window that is not minimized.
      The actions keep this only in part: see FocusUnknownId and CloseCanActivateMinimized. */
  predicate ActiveShown(st: State)
  {
    st.activeId.Some? ==>
      exists i :: 0 <= i < |st.windows| && st.windows[i].id == st.activeId.value && !st.windows[i].minimized
  }

  lemma InitialWf()
    ensures Wf(Initial()) && ActiveShown(Initial())
    ensures Initial().windows == [] && Initial().activeId == None && Initial().nextZ == 1
  {
  }

  /** With distinct ids, `Find` returns the one record with that id. */
  lemma FindUnique(ws: seq<WindowData>, id: string, i: int)
    requires IdsDistinct(ws) && 0 <= i < |ws| && ws[i].id == id
    ensures Find(ws, id) == Some(ws[i])
  {
  }

  // ---------------------------------------------------------------- openWindow

  /** A fresh id appends exactly one record, restored and stacked at the old counter,
      makes it active and advances the counter by one. */
  lemma OpenFresh(st: State, id: string, title: string)
    requires !HasId(st.windows, id)
    ensures var r := OpenWindow(st, id, title);
      |r.windows| == |st.windows| + 1 &&
      r.windows[..|st.windows|] == st.windows &&
      r.windows[|st.windows|] == WindowData(id, title, false, st.nextZ) &&
      r.activeId == Some(id) && r.nextZ == st.nextZ + 1
  {
  }

  /** A known id adds nothing: the call is focusWindow with the same id, and
      the title passed in is ignored. */
  lemma OpenExisting(st: State, id: string, title: string)
    requires HasId(st.windows, id)
    ensures OpenWindow(st, id, title) == FocusWindow(st, id)
    ensures |OpenWindow(st, id, title).windows| == |st.windows|
  {
  }

  /** Opening an id a second time never duplicates it. */
  lemma OpenTwiceNoDuplicate(st: State, id: string, t1: string, t2: string)
    requires Wf(st)
    ensures var once := OpenWindow(st, id, t1);
      OpenWindow(once, id, t2) == FocusWindow(once, id) &&
      |OpenWindow(once, id, t2).windows| == |once.windows| &&
      IdsDistinct(OpenWindow(once, id, t2).windows)
  {
    var once := OpenWindow(st, id, t1);
    OpenKeepsWf(st, id, t1);
    OpenHasId(st, id, t1);
    FocusKeepsWf(once, id);
  }

  lemma OpenHasId(st: State, id: string, title: string)
    ensures HasId(OpenWindow(st, id, title).windows, id)
  {
    var r := OpenWindow(st, id, title);
    if Find(st.windows, id).None? {
      assert r.windows[|st.windows|].id == id;
    } else {
      var i :| 0 <= i < |st.windows| && st.windows[i].id == id;
      assert r.windows[i].id == id;
    }
  }

  lemma OpenKeepsWf(st: State, id: string, title: string)
    requires Wf(st)
    ensures Wf(OpenWindow(st, id, title))
  {
  }

  /** Opening fresh ids keeps the records in increasing order of stacking. */
  lemma OpenFreshKeepsZOrder(st: State, id: string, title: string)
    requires Wf(st) && !HasId(st.windows, id)
    requires forall i, j :: 0 <= i < j < |st.windows| ==> st.windows[i].z < st.windows[j].z
    ensures var ws := OpenWindow(st, id, title).windows;
      forall i, j :: 0 <= i < j < |ws| ==> ws[i].z < ws[j].z
  {
  }

  // --------------------------------------------------------------- focusWindow

  /** Only the records with `id` change: they are restored and stacked at the old
      counter. Length and order are kept; the id becomes active and the counter
      advances, whether or not any record has that id. */
  lemma FocusChangesOnlyTarget(st: State, id: string)
    ensures var r := FocusWindow(st, id);
      |r.windows| == |st.windows| && r.activeId == Some(id) && r.nextZ == st.nextZ + 1 &&
      forall i :: 0 <= i < |st.windows| ==>
        r.windows[i].id == st.windows[i].id && r.windows[i].title == st.windows[i].title &&
        (st.windows[i].id == id ==> !r.windows[i].minimized && r.windows[i].z == st.nextZ) &&
        (st.windows[i].id != id ==> r.windows[i] == st.windows[i])
  {
  }

  /** In a well-formed registry the focused window ends strictly above every other. */
  lemma FocusOnTop(st: State, id: string)
    requires Wf(st)
    ensures var ws := FocusWindow(st, id).windows;
      forall i, j :: 0 <= i < |ws| && 0 <= j < |ws| && ws[i].id == id && ws[j].id != id ==>
        ws[j].z < ws[i].z
  {
  }

  /** Focusing an unregistered id leaves the records alone but still activates the
      id and spends a stacking value: the active id then names no window. */
  lemma FocusUnknownId(st: State, id: string)
    requires !HasId(st.windows, id)
    ensures var r := FocusWindow(st, id);
      r.windows == st.windows && r.activeId == Some(id) && r.nextZ == st.nextZ + 1 &&
      !ActiveShown(r)
  {
  }

  lemma FocusKeepsWf(st: State, id: string)
    requires Wf(st)
    ensures Wf(FocusWindow(st, id))
  {
  }

  /** Focusing a registered id makes the active id name a restored window. */
  lemma FocusKnownShowsActive(st: State, id: string)
    requires HasId(st.windows, id)
    ensures ActiveShown(FocusWindow(st, id))
  {
    var i :| 0 <= i < |st.windows| && st.windows[i].id == id;
    assert FocusWindow(st, id).windows[i].id == id;
  }

  // ------------------------------------------------------------ minimizeWindow

  /** The flag: the given value, else the negation of the first matching record's
      flag, else (unknown id) true. */
  lemma MinimizeFlag(ws: seq<WindowData>, id: string, value: Option<bool>)
    ensures value.Some? ==> ResolvedFlag(ws, id, value) == value.value
    ensures value.None? && !HasId(ws, id) ==> ResolvedFlag(ws, id, value)
    ensures forall i :: value.None? && IdsDistinct(ws) && 0 <= i < |ws| && ws[i].id == id ==>
      ResolvedFlag(ws, id, value) == !ws[i].minimized
  {
  }

  /** Only the records with `id` change, and only in their flag; the counter is
      untouched; the active id is cleared exactly when the flag resolves to true
      for the active window, and is never set. */
  lemma MinimizeChangesOnlyTarget(st: State, id: string, value: Option<bool>)
    ensures var r := MinimizeWindow(st, id, value);
      var m := ResolvedFlag(st.windows, id, value);
      |r.windows| == |st.windows| && r.nextZ == st.nextZ &&
      (forall i :: 0 <= i < |st.windows| ==>
        (st.windows[i].id == id ==> r.windows[i] == st.windows[i].(minimized := m)) &&
        (st.windows[i].id != id ==> r.windows[i] == st.windows[i])) &&
      (r.activeId != st.activeId <==> m && st.activeId == Some(id)) &&
      (r.activeId.Some? ==> r.activeId == st.activeId)
  {
  }

  /** Restoring with an explicit false never touches the active id. */
  lemma RestoreKeepsActive(st: State, id: string)
    ensures MinimizeWindow(st, id, Some(false)).activeId == st.activeId
  {
  }

  /** Toggling an unknown id resolves to true, changes no record, and still
      clears the active id if it was that id. */
  lemma MinimizeUnknownId(st: State, id: string)
    requires !HasId(st.windows, id)
    ensures var r := MinimizeWindow(st, id, None);
      r.windows == st.windows &&
      r.activeId == (if st.activeId == Some(id) then None else st.activeId)
  {
  }

  /** Minimizing with true twice is the same as once. */
  lemma MinimizeIdempotent(st: State, id: string)
    ensures var once := MinimizeWindow(st, id, Some(true));
      MinimizeWindow(once, id, Some(true)) == once
  {
  }

  lemma MinimizeKeepsWf(st: State, id: string, value: Option<bool>)
    requires Wf(st)
    ensures Wf(MinimizeWindow(st, id, value))
  {
  }

  /** Minimizing never breaks "the active window is shown". */
  lemma MinimizeKeepsActiveShown(st: State, id: string, value: Option<bool>)
    requires ActiveShown(st)
    ensures ActiveShown(MinimizeWindow(st, id, value))
  {
    var r := MinimizeWindow(st, id, value);
    var m := ResolvedFlag(st.windows, id, value);
    if r.activeId.Some? {
      var a := r.activeId.value;
      var i :| 0 <= i < |st.windows| && st.windows[i].id == a && !st.windows[i].minimized;
      if a == id {
        assert !m;
      }
      assert r.windows[i].id == a && !r.windows[i].minimized;
    }
  }

  // -------------------------------------------------------- toggleTaskbarClick

  /** The three cases of a taskbar click on the registered window at index `i`. */
  lemma ToggleCases(st: State, id: string, i: int)
    requires IdsDistinct(st.windows) && 0 <= i < |st.windows| && st.windows[i].id == id
    ensures st.activeId == Some(id) && !st.windows[i].minimized ==>
      ToggleTaskbarClick(st, id) == MinimizeWindow(st, id, Some(true))
    ensures !(st.activeId == Some(id) && !st.windows[i].minimized) ==>
      ToggleTaskbarClick(st, id) == FocusWindow(st, id)
  {
  }

  /** A click on an unregistered id does nothing. */
  lemma ToggleUnknownId(st: State, id: string)
    requires !HasId(st.windows, id)
    ensures ToggleTaskbarClick(st, id) == st
  {
  }

  /** Clicking the active, visible window hides it and clears the active id. */
  lemma ToggleHidesActive(st: State, id: string, i: int)
    requires IdsDistinct(st.windows) && 0 <= i < |st.windows| && st.windows[i].id == id
    requires st.activeId == Some(id) && !st.windows[i].minimized
    ensures var r := ToggleTaskbarClick(st, id);
      r.windows[i].minimized && r.activeId == None && r.nextZ == st.nextZ
  {
  }

  /** Clicking a minimized window restores it, activates it and puts it on top. */
  lemma ToggleRestoresMinimized(st: State, id: string, i: int)
    requires Wf(st) && 0 <= i < |st.windows| && st.windows[i].id == id
    requires st.windows[i].minimized
    ensures var r := ToggleTaskbarClick(st, id);
      !r.windows[i].minimized && r.activeId == Some(id) &&
      forall j :: 0 <= j < |r.windows| && j != i ==> r.windows[j].z < r.windows[i].z
  {
  }

  lemma ToggleKeepsWf(st: State, id: string)
    requires Wf(st)
    ensures Wf(ToggleTaskbarClick(st, id))
  {
  }

  lemma ToggleKeepsActiveShown(st: State, id: string)
    requires ActiveShown(st)
    ensures ActiveShown(ToggleTaskbarClick(st, id))
  {
    if HasId(st.windows, id) {
      MinimizeKeepsActiveShown(st, id, Some(true));
      FocusKnownShowsActive(st, id);
    }
  }

  // --------------------------------------------------------------- closeWindow

  /** Filtering distributes over concatenation: together with the one-record
      case this fixes the result, so the kept records keep their relative order. */
  lemma {:induction false} WithoutAppend(a: seq<WindowData>, b: seq<WindowData>, id: string)
    ensures Without(a + b, id) == Without(a, id) + Without(b, id)
    decreases |a|
  {
    if |a| == 0 {
      assert a + b == b;
    } else {
      assert (a + b)[1..] == a[1..] + b;
      WithoutAppend(a[1..], b, id);
    }
  }

  lemma WithoutSingle(w: WindowData, id: string)
    ensures Without([w], id) == if w.id == id then [] else [w]
  {
  }

  /** Filtering out an absent id gives the same records back. */
  lemma {:induction false} WithoutAbsent(ws: seq<WindowData>, id: string)
    requires !HasId(ws, id)
    ensures Without(ws, id) == ws
    decreases |ws|
  {
    if |ws| > 0 {
      assert !HasId(ws[1..], id) by {
        forall i | 0 <= i < |ws[1..]| ensures ws[1..][i].id != id {
          assert ws[1..][i] == ws[i + 1];
        }
      }
      assert ws[0].id != id;
      WithoutAbsent(ws[1..], id);
      assert [ws[0]] + ws[1..] == ws;
    }
  }

  /** Filtering keeps ids and stacking orders pairwise distinct. */
  lemma {:induction false} WithoutKeepsDistinct(ws: seq<WindowData>, id: string)
    requires IdsDistinct(ws) && ZDistinct(ws)
    ensures IdsDistinct(Without(ws, id)) && ZDistinct(Without(ws, id))
    decreases |ws|
  {
    if |ws| > 0 {
      var t := ws[1..];
      assert IdsDistinct(t) && ZDistinct(t) by {
        forall i, j | 0 <= i < j < |t| ensures t[i].id != t[j].id && t[i].z != t[j].z {
          assert t[i] == ws[i + 1] && t[j] == ws[j + 1];
        }
      }
      WithoutKeepsDistinct(t, id);
      var rt := Without(t, id);
      if ws[0].id != id {
        var r := [ws[0]] + rt;
        assert r == Without(ws, id);
        forall x | x in rt ensures ws[0].id != x.id && ws[0].z != x.z {
          var j :| 0 <= j < |t| && t[j] == x;
          assert ws[j + 1] == x;
        }
        forall i, j | 0 <= i < j < |r| ensures r[i].id != r[j].id && r[i].z != r[j].z {
          assert r[j] == rt[j - 1];
          if i > 0 { assert r[i] == rt[i - 1]; } else { assert rt[j - 1] in rt; }
        }
      } else {
        assert Without(ws, id) == rt;
      }
    }
  }

  /** closeWindow removes exactly the records with `id`, keeps the rest untouched
      and the counter as it was; the active id changes only if it was `id`. */
  lemma CloseRemovesOnlyTarget(st: State, id: string)
    ensures var r := CloseWindow(st, id);
      r.nextZ == st.nextZ &&
      (forall w :: w in r.windows <==> w in st.windows && w.id != id) &&
      !HasId(r.windows, id) &&
      (st.activeId != Some(id) ==> r.activeId == st.activeId)
  {
  }

  /** Closing an unregistered id keeps the records; the active id still moves
      if it was that (dangling) id. */
  lemma CloseUnknownId(st: State, id: string)
    requires !HasId(st.windows, id)
    ensures CloseWindow(st, id).windows == st.windows
    ensures st.activeId != Some(id) ==> CloseWindow(st, id) == st
  {
    WithoutAbsent(st.windows, id);
  }

  /** When the active window is closed, the new active id is that of a remaining
      window of highest stacking order, the last of them in list order, minimized
      or not; with nothing left, none. */
  lemma CloseActivePicksTop(st: State, id: string)
    requires st.activeId == Some(id)
    ensures var r := CloseWindow(st, id);
      (r.windows == [] ==> r.activeId == None) &&
      (r.windows != [] ==>
         (exists k :: 0 <= k < |r.windows| && r.activeId == Some(r.windows[k].id) &&
            (forall w :: w in r.windows ==> w.z <= r.windows[k].z) &&
            (forall j :: k < j < |r.windows| ==> r.windows[j].z < r.windows[k].z)))
  {
  }

  lemma CloseKeepsWf(st: State, id: string)
    requires Wf(st)
    ensures Wf(CloseWindow(st, id))
  {
    WithoutKeepsDistinct(st.windows, id);
  }

  /** The window activated on close may be a minimized one. */
  lemma CloseCanActivateMinimized()
    ensures var st := State([WindowData("a", "A", false, 3), WindowData("b", "B", true, 2)], Some("a"), 4);
      Wf(st) && ActiveShown(st) && !ActiveShown(CloseWindow(st, "a"))
  {
    var st := State([WindowData("a", "A", false, 3), WindowData("b", "B", true, 2)], Some("a"), 4);
    var rest := Without(st.windows, "a");
    assert rest == [WindowData("b", "B", true, 2)] by {
      WithoutAppend([st.windows[0]], [st.windows[1]], "a");
      WithoutSingle(st.windows[0], "a");
      WithoutSingle(st.windows[1], "a");
      assert st.windows == [st.windows[0]] + [st.windows[1]];
    }
    assert st.windows[0].id == "a";
  }

  /** On equal stacking orders the later record wins, not the earlier one. */
  lemma CloseTieKeepsLater()
    ensures var st := State([WindowData("x", "X", false, 5), WindowData("a", "A", false, 2),
                             WindowData("b", "B", false, 2)], Some("x"), 6);
      CloseWindow(st, "x").activeId == Some("b")
  {
  }
}
