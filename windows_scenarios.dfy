/** Concrete sequences of intents on a fresh store, with their outcomes. */
module WindowsScenarios {
  import opened Windows
  import opened WindowsStore

  /** open a, open b, focus a: both stay registered in opening order, a is
      stacked above b and is active. */
  method FocusAfterTwoOpens()
  {
    var s := new Store();
    s.OpenWindow("a", "A");
    s.OpenWindow("b", "B");
    assert s.windows == [WindowData("a", "A", false, 1), WindowData("b", "B", false, 2)];
    s.FocusWindow("a");
    assert s.windows == [WindowData("a", "A", false, 3), WindowData("b", "B", false, 2)];
    assert s.activeId == Some("a") && s.nextZ == 4;
  }

  /** open a, open b, then two taskbar clicks on b: b is active and visible
      after opening, so the first click hides it and the second brings it back. */
  method TaskbarClicksOnActive()
  {
    var s := new Store();
    s.OpenWindow("a", "A");
    s.OpenWindow("b", "B");
    s.ToggleTaskbarClick("b");
    assert s.windows == [WindowData("a", "A", false, 1), WindowData("b", "B", true, 2)];
    assert s.activeId == None;
    s.ToggleTaskbarClick("b");
    assert s.windows == [WindowData("a", "A", false, 1), WindowData("b", "B", false, 3)];
    assert s.activeId == Some("b");
  }

  /** open a, open b, focus b, close b: a is the only window left and becomes active. */
  method CloseActiveFallsBack()
  {
    var s := new Store();
    s.OpenWindow("a", "A");
    s.OpenWindow("b", "B");
    s.FocusWindow("b");
    s.CloseWindow("b");
    assert s.windows == [WindowData("a", "A", false, 1)];
    assert s.activeId == Some("a");
  }

  /** Opening an id twice keeps one record, with the first title. */
  method ReopenFocuses()
  {
    var s := new Store();
    s.OpenWindow("a", "A");
    s.OpenWindow("a", "Other");
    assert s.windows == [WindowData("a", "A", false, 2)];
    assert s.activeId == Some("a") && s.nextZ == 3;
  }
}
