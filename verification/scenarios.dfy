/** Event sequences replayed against the inline-editor controller. Each
    method drives one controller through the handlers in the order the
    browser would call them and asserts what the source then does; the
    intermediate assertions record the state between two events. */
module Scenarios {
  import opened Common
  import opened InlineEditor

  const Wide := Geometry(100, 40, 0, 300, 1280)

  /** Click a target, edit, save: the sanitized edit lands in the target
      and the overlay is torn down. */
  method ClickEditSave()
  {
    var el := new Element("<b>Hello</b>");
    var c := new Controller(s => s);
    c.TriggerClick(el, Wide);
    assert c.focusRequest && c.left == 100 && c.top == 348;
    c.Commit(true);
    assert c.contentHtml == Some("<b>Hello</b>");
    c.EditorInput("<i>Bye</i>");
    c.Save();
    assert el.html == "<i>Bye</i>";
    assert c.Closed() && c.liveInstances == {};
  }

  /** Cancel leaves the target as it was. */
  method EditCancel()
  {
    var el := new Element("text");
    var c := new Controller(s => s);
    c.TriggerEnter(el, Wide);
    c.Commit(true);
    c.EditorInput("changed");
    c.Cancel();
    assert el.html == "text";
    assert c.Closed();
  }

  /** Saving before the editor is mounted writes the draft, which is the
      sanitized content captured on opening. */
  method SaveWithoutEditor()
  {
    var el := new Element("a<script>");
    var c := new Controller(s => if |s| > 1 then s[..1] else s);
    c.TriggerEnter(el, Wide);
    c.Commit(false);
    assert c.dispose.None?;
    c.Save();
    assert el.html == "a";
  }

  /** Moving from one target to another while the overlay is open keeps
      the editor mounted for the first: the draft becomes the second
      target's content, the content node still holds the first one's, and
      save writes the first target's edit into the second target. */
  method SwitchTargetWhileOpen()
  {
    var a := new Element("A");
    var b := new Element("B");
    var c := new Controller(s => s);
    c.TriggerEnter(a, Wide);
    c.Commit(true);
    assert c.openRef && c.target == a && c.dispose.Some?;
    var first := c.dispose;
    c.EditorInput("A edited");
    assert c.openRef && c.target == a && c.dispose == first;
    c.TriggerEnter(b, Wide);
    assert c.target == b && c.draft == "B" && c.open && c.openRef;
    assert c.dispose == first && c.contentHtml == Some("A edited");
    c.Commit(true);
    assert c.dispose == first && c.contentHtml == Some("A edited") && c.target == b;
    c.Save();
    assert b.html == "A edited" && a.html == "A";
  }

  /** Entering the same target again while the hide timer is pending does
      not cancel it: the timer fires and closes the overlay although the
      pointer rests on the target. */
  method ReenterTargetKeepsTimer()
  {
    var el := new Element("x");
    var c := new Controller(s => s);
    c.TriggerEnter(el, Wide);
    c.Commit(true);
    assert c.openRef && c.target == el && !c.Pinned();
    var id := c.nextTimerId;
    c.ScheduleHide();
    assert c.openRef && c.target == el && c.pendingTimers == {id};
    c.TriggerEnter(el, Wide);
    assert c.pendingTimers == {id} && !c.Pinned();
    c.FireHideTimer(id);
    assert c.Closed();
  }

  /** Leaving the target twice schedules twice, but the second schedule
      cancels the first timeout: only the newest is pending, and it is the
      one that closes the overlay. */
  method RescheduleKeepsOneTimer()
  {
    var el := new Element("x");
    var c := new Controller(s => s);
    c.TriggerEnter(el, Wide);
    var first := c.nextTimerId;
    c.ScheduleHide();
    assert c.pendingTimers == {first};
    c.ScheduleHide();
    assert c.pendingTimers == {first + 1} && first !in c.pendingTimers;
    c.FireHideTimer(first + 1);
    assert c.Closed();
  }

  /** Focus inside the overlay holds it open after the pointer leaves;
      the blur that takes focus elsewhere starts the hide timer, which
      then closes the overlay. */
  method FocusHoldsOverlay()
  {
    var el := new Element("x");
    var c := new Controller(s => s);
    c.TriggerEnter(el, Wide);
    c.OverlayFocus();
    assert c.focus && !c.hover && !c.pointerDown && !c.selectionActive;
    c.OverlayLeave();
    assert c.pendingTimers == {} && c.focus && !c.pointerDown;
    var id := c.nextTimerId;
    c.OverlayBlur(false);
    assert c.pendingTimers == {id} && !c.Pinned();
    c.FireHideTimer(id);
    assert c.Closed();
  }

  /** A drag-select released outside the overlay within 250 ms of the
      last hover-enter, with nothing selected, keeps the overlay pinned by
      hover and schedules nothing. */
  method QuickRelease()
  {
    var el := new Element("x");
    var c := new Controller(s => s);
    c.TriggerEnter(el, Wide);
    c.OverlayEnter(1000);
    c.OverlayPointerDown();
    assert c.pointerUpListeners == 1 && c.lastHover == 1000 && !c.focus;
    c.PointerUp(true, false, false, 1249);
    assert c.hover && !c.pointerDown && !c.selectionActive && c.pendingTimers == {};
  }

  /** The same release 250 ms after the hover-enter drops the hover pin
      and schedules the hide. */
  method LateRelease()
  {
    var el := new Element("x");
    var c := new Controller(s => s);
    c.TriggerEnter(el, Wide);
    c.OverlayEnter(1000);
    c.OverlayPointerDown();
    assert c.pointerUpListeners == 1 && c.lastHover == 1000 && !c.focus;
    c.PointerUp(true, false, false, 1250);
    assert !c.hover && c.pendingTimers != {} && c.pointerUpListeners == 0;
  }

  /** The mount loop checks for the host six times, the effect's own
      check and five animation frames, and then stops; the editor is
      mounted exactly when the host is there at the sixth. */
  method MountRetries(hostAtSixth: bool)
  {
    var el := new Element("x");
    var c := new Controller(s => s);
    c.TriggerClick(el, Wide);
    c.Commit(false);
    assert c.openRef && c.mountRetries == 1 && c.pendingFrames == 1 && c.hostChecks == 1;
    c.FireMountFrame(false);
    c.FireMountFrame(false);
    assert c.openRef && c.mountRetries == 3 && c.pendingFrames == 1 && c.hostChecks == 3;
    c.FireMountFrame(false);
    c.FireMountFrame(false);
    assert c.openRef && c.mountRetries == 5 && c.pendingFrames == 1 && c.hostChecks == 5;
    assert c.dispose.None?;
    c.FireMountFrame(hostAtSixth);
    assert c.pendingFrames == 0 && c.hostChecks == 6;
    assert c.dispose.Some? <==> hostAtSixth;
  }

  /** The overlay is clamped into the viewport; on a narrow viewport the
      right bound wins over the 16 px margin. */
  method Clamping()
  {
    assert OverlayLeft(Geometry(-50, 0, 0, 0, 1280)) == 16;
    assert OverlayLeft(Geometry(1100, 0, 0, 0, 1280)) == 920;
    assert OverlayLeft(Geometry(300, 0, 0, 0, 370)) == 10;
  }
}
