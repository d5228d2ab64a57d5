/** The inline-editor overlay: hovering or clicking an element marked
    `data-ds-inline-edit` opens a floating rich-text editor below it; four
    "pin" signals (hover, pointer down, focus, active selection) keep the
    overlay open, and once none holds a 120 ms hide timer closes it, after
    checking the signals again when it fires. Save writes the sanitized
    content back into the element; cancel discards it.

    The controller's state lives in React refs and state that every handler
    updates in place, so it is a class here with one method per handler.
    Browser scheduling becomes explicit events: `FireHideTimer` for the
    timeout, `FireMountFrame` for an animation frame of the mount-retry
    loop, `PointerUp` for the one-shot pointer-up listener, and `Commit`
    for React rendering the pending state and running its effects. DOM
    queries become boolean inputs. */
module InlineEditor {
  import opened Common

  /** The overlay's left edge stays this far from the page's left edge. */
  const EdgeMargin := 16
  /** Room kept for the overlay's width at the right of the viewport. */
  const OverlayWidth := 360
  /** Gap between the bottom of the target and the top of the overlay. */
  const OverlayGap := 8
  /** A pointer released this soon after the last hover-enter still counts
      as hovering. */
  const GraceMs := 250
  /** Animation frames the mount loop may wait for the overlay's host. */
  const MaxMountRetries := 5

  /** A page element marked editable; the overlay edits its inner HTML. */
  class Element {
    var html: string

    constructor (html: string)
      ensures this.html == html
    {
      this.html := html;
    }
  }

  /** The target's bounding box, the page scroll and the viewport width,
      in whole pixels. */
  datatype Geometry = Geometry(rectLeft: int, rectBottom: int, scrollX: int, scrollY: int, innerWidth: int)

  /** `Math.min(Math.max(16, rect.left + scrollX), innerWidth - 360)`: the
      target's page x, moved right to the margin and then left so that the
      overlay fits; on a viewport narrower than 376 the right bound wins. */
  function OverlayLeft(g: Geometry): (left: int)
    ensures left <= g.innerWidth - OverlayWidth
    ensures EdgeMargin + OverlayWidth <= g.innerWidth ==> EdgeMargin <= left
    ensures EdgeMargin <= g.rectLeft + g.scrollX <= g.innerWidth - OverlayWidth ==> left == g.rectLeft + g.scrollX
    ensures g.rectLeft + g.scrollX < EdgeMargin ==> left == Min(EdgeMargin, g.innerWidth - OverlayWidth)
    ensures g.rectLeft + g.scrollX > g.innerWidth - OverlayWidth ==> left == g.innerWidth - OverlayWidth
    ensures left == EdgeMargin || left == g.rectLeft + g.scrollX || left == g.innerWidth - OverlayWidth
  {
    Min(Max(EdgeMargin, g.rectLeft + g.scrollX), g.innerWidth - OverlayWidth)
  }

  class Controller {
    /** The external HTML sanitizer, an uninterpreted collaborator. */
    const sanitize: string -> string

    // React state: the pending value of `inlineEditorOpen`, the draft
    // (state and ref hold the same value, they are always written
    // together) and the overlay's position.
    var open: bool
    var draft: string
    var left: int
    var top: int

    // Refs.
    /** `inlineEditorOpenRef`: the value of `open` at the last commit. */
    var openRef: bool
    var target: Element?
    /** The dispose handle of the mounted editor instance, by instance id. */
    var dispose: Option<nat>
    var hover: bool
    var pointerDown: bool
    var focus: bool
    var selectionActive: bool
    var lastHover: int
    /** The hide-timer ref; it keeps the id of a timer that fired without
        closing until something clears it. */
    var hideTimer: Option<nat>
    var mountRetries: nat
    var focusRequest: bool

    // The browser and the editor library, as far as the handlers affect them.
    /** The ids of the hide timeouts scheduled with the browser that have
        neither fired nor been cleared. */
    var pendingTimers: set<nat>
    var nextTimerId: nat
    /** Editor instances created and not yet disposed. */
    var liveInstances: set<nat>
    var nextInstanceId: nat
    /** The HTML of the mounted editor's content node. */
    var contentHtml: Option<string>
    /** Mount-loop animation-frame callbacks requested and not yet run. */
    var pendingFrames: nat
    /** One-shot pointer-up listeners registered and not yet run. */
    var pointerUpListeners: nat

    // Bookkeeping for the bound on host checks per opening.
    ghost var hostChecks: nat
    ghost var staleFrames: nat
    ghost var mountEffectRan: bool

    /** The invariants every handler keeps: the dispose handle names the
        only live editor instance, the content node exists exactly while an
        instance is live, no timeout is pending except the one the ref
        names (so at most one), and the retry counter stays within its
        bound. */
    ghost predicate Consistent()
      reads this
    {
      && liveInstances == OptionSet(dispose)
      && (contentHtml.Some? <==> dispose.Some?)
      && (dispose.Some? ==> dispose.value < nextInstanceId)
      && pendingTimers <= OptionSet(hideTimer)
      && (hideTimer.Some? ==> hideTimer.value < nextTimerId)
      && mountRetries <= MaxMountRetries
      && (mountEffectRan ==> openRef || !open)
    }

    /** Since the last opening, every host check was either the mount
        effect's own or is paid for by a frame that existed at the opening
        or was scheduled with a retry. */
    ghost predicate WithinBudget(slack: nat)
      reads this
    {
      hostChecks + pendingFrames + slack + (if mountEffectRan then 0 else 1) <= staleFrames + mountRetries + 1
    }

    ghost predicate Valid()
      reads this
    {
      Consistent() && WithinBudget(0)
    }

    /** At most one editor instance is ever live. */
    lemma AtMostOneInstance()
      requires Consistent()
      ensures |liveInstances| <= 1
    {
    }

    /** Any of the four signals keeps the overlay open. */
    predicate Pinned()
      reads this
    {
      hover || pointerDown || focus || selectionActive
    }

    /** `resetInlineEditorInteraction` has run: no signal, no timer. */
    predicate InteractionReset()
      reads this
    {
      && !hover && !pointerDown && !focus && !selectionActive
      && lastHover == 0
      && hideTimer.None? && pendingTimers == {}
    }

    /** The overlay is closed and torn down. */
    predicate Closed()
      reads this
    {
      && !open && target == null
      && dispose.None? && liveInstances == {} && contentHtml.None?
      && InteractionReset()
    }

    /** A fresh hide timer with the given id is the only pending one. */
    predicate HideScheduled(id: nat)
      reads this
    {
      pendingTimers == {id} && hideTimer == Some(id) && nextTimerId == id + 1
    }

    /** The overlay has just been opened on `el`. */
    predicate OpenedOn(el: Element, focusOnOpen: bool, g: Geometry)
      reads this, el
    {
      && InteractionReset()
      && target == el && open
      && draft == sanitize(el.html)
      && left == OverlayLeft(g) && top == g.rectBottom + g.scrollY + OverlayGap
      && mountRetries == 0 && focusRequest == focusOnOpen
    }

    /** A new editor instance with the given id is mounted, showing the
        draft. */
    predicate Mounted(id: nat)
      reads this
    {
      dispose == Some(id) && liveInstances == {id} && contentHtml == Some(draft) && nextInstanceId == id + 1
    }

    twostate predicate TimerUnchanged()
      reads this
    {
      hideTimer == old(hideTimer) && pendingTimers == old(pendingTimers) && nextTimerId == old(nextTimerId)
    }

    twostate predicate InstanceUnchanged()
      reads this
    {
      && dispose == old(dispose) && liveInstances == old(liveInstances)
      && contentHtml == old(contentHtml) && nextInstanceId == old(nextInstanceId)
    }

    /** One run of `ensureMounted` while the committed open flag is
        `committedOpen`: nothing when closed; without a host, a retry while
        the counter is below its bound; with a host, a mount. */
    twostate predicate HostCheck(committedOpen: bool, hostPresent: bool)
      reads this
    {
      if !committedOpen then
        InstanceUnchanged() && mountRetries == old(mountRetries) && hostChecks == old(hostChecks)
      else if !hostPresent then
        && InstanceUnchanged()
        && hostChecks == old(hostChecks) + 1
        && mountRetries == if old(mountRetries) < MaxMountRetries then old(mountRetries) + 1 else old(mountRetries)
      else
        && Mounted(old(nextInstanceId))
        && (old(dispose).Some? ==> old(dispose).value !in liveInstances)
        && hostChecks == old(hostChecks) + 1
        && mountRetries == old(mountRetries)
    }

    constructor (sanitize: string -> string)
      ensures Valid() && Closed()
      ensures this.sanitize == sanitize
      ensures !openRef && draft == "" && left == 0 && top == 0
      ensures mountRetries == 0 && !focusRequest
      ensures pendingFrames == 0 && pointerUpListeners == 0
    {
      this.sanitize := sanitize;
      open, draft, left, top := false, "", 0, 0;
      openRef, target, dispose := false, null, None;
      hover, pointerDown, focus, selectionActive, lastHover := false, false, false, false, 0;
      hideTimer, mountRetries, focusRequest := None, 0, false;
      pendingTimers, nextTimerId := {}, 0;
      liveInstances, nextInstanceId, contentHtml := {}, 0, None;
      pendingFrames, pointerUpListeners := 0, 0;
      hostChecks, staleFrames, mountEffectRan := 0, 0, false;
    }

    // -------------------------------------------------------------------
    // Timer and teardown helpers
    // -------------------------------------------------------------------

    /** `clearInlineEditorHideTimer`: cancel the timeout the ref names
        and forget it; afterwards nothing is pending. */
    method ClearHideTimer()
      requires Consistent()
      modifies this`hideTimer, this`pendingTimers
      ensures Consistent()
      ensures hideTimer.None? && pendingTimers == {}
    {
      if hideTimer.Some? {
        pendingTimers := pendingTimers - {hideTimer.value};
        hideTimer := None;
      }
    }

    /** `resetInlineEditorInteraction`. */
    method ResetInteraction()
      requires Consistent()
      modifies this`hover, this`pointerDown, this`focus, this`selectionActive, this`lastHover
      modifies this`hideTimer, this`pendingTimers
      ensures Consistent() && InteractionReset()
    {
      hover, pointerDown, focus, selectionActive := false, false, false, false;
      lastHover := 0;
      ClearHideTimer();
    }

    /** `inlineEditorDisposeRef.current?.(); inlineEditorDisposeRef.current = null`. */
    method DisposeInstance()
      requires Consistent()
      modifies this`dispose, this`liveInstances, this`contentHtml
      ensures Consistent()
      ensures dispose.None? && liveInstances == {} && contentHtml.None?
    {
      if dispose.Some? {
        liveInstances := liveInstances - {dispose.value};
        dispose := None;
        contentHtml := None;
      }
    }

    /** The close sequence shared by the hide timer, save and cancel. */
    method CloseOverlay()
      requires Consistent()
      modifies this`dispose, this`liveInstances, this`contentHtml, this`open, this`target
      modifies this`hover, this`pointerDown, this`focus, this`selectionActive, this`lastHover
      modifies this`hideTimer, this`pendingTimers
      ensures Consistent() && Closed()
    {
      DisposeInstance();
      open := false;
      target := null;
      ResetInteraction();
    }

    /** `scheduleInlineEditorHide`, also the target's mouseleave handler:
        nothing while pinned; otherwise clear the current timer and start
        a new one, so at most one is ever pending. */
    method ScheduleHide()
      requires Valid()
      modifies this`hideTimer, this`pendingTimers, this`nextTimerId
      ensures Valid()
      ensures Pinned() ==> TimerUnchanged()
      ensures !Pinned() ==> HideScheduled(old(nextTimerId))
      ensures !Pinned() ==> old(pendingTimers) !! pendingTimers
    {
      if Pinned() {
        return;
      }
      ClearHideTimer();
      var id := nextTimerId;
      hideTimer := Some(id);
      pendingTimers := pendingTimers + {id};
      nextTimerId := id + 1;
    }

    /** The pending hide timeout `id` fires: it closes only if no signal
        pins the overlay now, whatever held when it was scheduled. A fired
        timeout that does not close leaves its id in the ref. */
    method FireHideTimer(id: nat)
      requires Valid() && id in pendingTimers
      modifies this`pendingTimers
      modifies this`dispose, this`liveInstances, this`contentHtml, this`open, this`target
      modifies this`hover, this`pointerDown, this`focus, this`selectionActive, this`lastHover
      modifies this`hideTimer
      ensures Valid()
      ensures old(Pinned()) ==> pendingTimers == {} && hideTimer == old(hideTimer) && unchanged(this`dispose, this`liveInstances, this`contentHtml, this`open, this`target, this`hover, this`pointerDown, this`focus, this`selectionActive, this`lastHover)
      ensures !old(Pinned()) ==> Closed()
    {
      pendingTimers := pendingTimers - {id};
      if !Pinned() {
        CloseOverlay();
      }
    }

    /** Component unmount: clear the timer and dispose the instance. */
    method Teardown()
      requires Valid()
      modifies this`hideTimer, this`pendingTimers, this`dispose, this`liveInstances, this`contentHtml
      ensures Valid()
      ensures hideTimer.None? && pendingTimers == {}
      ensures dispose.None? && liveInstances == {} && contentHtml.None?
    {
      ClearHideTimer();
      DisposeInstance();
    }

    // -------------------------------------------------------------------
    // Opening and the trigger handlers
    // -------------------------------------------------------------------

    /** `openInlineEditor`: reset the signals, take the target's sanitized
        content as the draft, place the overlay and request it open. It
        does not dispose a mounted instance. */
    method Open(el: Element, focusOnOpen: bool, g: Geometry)
      requires Valid()
      modifies this`hover, this`pointerDown, this`focus, this`selectionActive, this`lastHover
      modifies this`hideTimer, this`pendingTimers
      modifies this`target, this`draft, this`left, this`top, this`open, this`mountRetries, this`focusRequest
      modifies this`hostChecks, this`staleFrames, this`mountEffectRan
      ensures Valid()
      ensures OpenedOn(el, focusOnOpen, g)
      ensures hostChecks == 0 && !mountEffectRan
    {
      ResetInteraction();
      Retarget(el, focusOnOpen, g);
      ClearHideTimer();
    }

    /** The middle of `openInlineEditor`: target, draft, position, the open
        request and the retry counter; the signals are left alone. */
    method Retarget(el: Element, focusOnOpen: bool, g: Geometry)
      requires Valid()
      modifies this`target, this`draft, this`left, this`top, this`open, this`mountRetries, this`focusRequest
      modifies this`hostChecks, this`staleFrames, this`mountEffectRan
      ensures Valid()
      ensures target == el && open && draft == sanitize(el.html)
      ensures left == OverlayLeft(g) && top == g.rectBottom + g.scrollY + OverlayGap
      ensures mountRetries == 0 && focusRequest == focusOnOpen
      ensures hostChecks == 0 && !mountEffectRan
    {
      var safeHtml := sanitize(el.html);
      var x := OverlayLeft(g);
      var y := g.rectBottom + g.scrollY + OverlayGap;
      target, draft := el, safeHtml;
      left, top := x, y;
      open, mountRetries, focusRequest := true, 0, focusOnOpen;
      hostChecks, staleFrames, mountEffectRan := 0, pendingFrames, false;
    }

    /** The target's mouseenter: open in hover mode unless the overlay is
        already open, as of the last commit, on this very element. */
    method TriggerEnter(el: Element, g: Geometry)
      requires Valid()
      modifies this`hover, this`pointerDown, this`focus, this`selectionActive, this`lastHover
      modifies this`hideTimer, this`pendingTimers
      modifies this`target, this`draft, this`left, this`top, this`open, this`mountRetries, this`focusRequest
      modifies this`hostChecks, this`staleFrames, this`mountEffectRan
      ensures Valid()
      ensures old(openRef && target == el) ==> unchanged(this)
      ensures !old(openRef && target == el) ==> OpenedOn(el, false, g)
      ensures InstanceUnchanged()
    {
      if openRef && target == el {
        return;
      }
      Open(el, false, g);
    }

    /** The target's click: open in click mode, asking for focus. */
    method TriggerClick(el: Element, g: Geometry)
      requires Valid()
      modifies this`hover, this`pointerDown, this`focus, this`selectionActive, this`lastHover
      modifies this`hideTimer, this`pendingTimers
      modifies this`target, this`draft, this`left, this`top, this`open, this`mountRetries, this`focusRequest
      modifies this`hostChecks, this`staleFrames, this`mountEffectRan
      ensures Valid()
      ensures OpenedOn(el, true, g)
      ensures InstanceUnchanged()
      ensures hostChecks == 0
    {
      Open(el, true, g);
    }

    // -------------------------------------------------------------------
    // Rendering and the mount-retry loop
    // -------------------------------------------------------------------

    /** `mountInlineEditor`: with a host, dispose any instance first, then
        mount a new one; the post-mount microtask fills its content node
        with the draft. */
    method MountEditor(hostPresent: bool)
      requires Consistent()
      modifies this`dispose, this`liveInstances, this`contentHtml, this`nextInstanceId
      ensures Consistent()
      ensures !hostPresent ==> InstanceUnchanged()
      ensures hostPresent ==> Mounted(old(nextInstanceId))
      ensures hostPresent && old(dispose).Some? ==> old(dispose).value !in liveInstances
    {
      if !hostPresent {
        return;
      }
      DisposeInstance();
      var id := nextInstanceId;
      nextInstanceId := nextInstanceId + 1;
      liveInstances := liveInstances + {id};
      dispose := Some(id);
      contentHtml := Some(draft);
    }

    /** One run of `ensureMounted`, from the effect or from a frame. */
    method EnsureMounted(hostPresent: bool)
      requires Consistent() && WithinBudget(1)
      modifies this`mountRetries, this`pendingFrames, this`hostChecks
      modifies this`dispose, this`liveInstances, this`contentHtml, this`nextInstanceId
      ensures Valid()
      ensures HostCheck(openRef, hostPresent)
      ensures pendingFrames == old(pendingFrames) + (if mountRetries > old(mountRetries) then 1 else 0)
    {
      if !openRef {
        return;
      }
      hostChecks := hostChecks + 1;
      if !hostPresent {
        if mountRetries < MaxMountRetries {
          mountRetries := mountRetries + 1;
          pendingFrames := pendingFrames + 1;
        }
        return;
      }
      MountEditor(hostPresent);
    }

    /** An animation frame runs one pending `ensureMounted` callback. */
    method FireMountFrame(hostPresent: bool)
      requires Valid() && pendingFrames > 0
      modifies this`mountRetries, this`pendingFrames, this`hostChecks
      modifies this`dispose, this`liveInstances, this`contentHtml, this`nextInstanceId
      ensures Valid()
      ensures HostCheck(openRef, hostPresent)
      ensures pendingFrames == old(pendingFrames) - 1 + (if mountRetries > old(mountRetries) then 1 else 0)
      ensures hostChecks <= staleFrames + MaxMountRetries + 1
    {
      pendingFrames := pendingFrames - 1;
      EnsureMounted(hostPresent);
    }

    /** React renders the pending state and runs its effects: the open
        ref catches up, and the mount effect runs only when the committed
        open flag turns from false to true. */
    method Commit(hostPresent: bool)
      requires Valid()
      modifies this`openRef, this`mountEffectRan
      modifies this`mountRetries, this`pendingFrames, this`hostChecks
      modifies this`dispose, this`liveInstances, this`contentHtml, this`nextInstanceId
      ensures Valid()
      ensures openRef == open && target == old(target) && draft == old(draft)
      ensures old(openRef) == open ==> unchanged(this)
      ensures old(openRef) && !open ==> InstanceUnchanged() && unchanged(this`mountRetries, this`pendingFrames, this`hostChecks)
      ensures !old(openRef) && open ==> HostCheck(true, hostPresent)
      ensures !old(openRef) && open ==> pendingFrames == old(pendingFrames) + (if mountRetries > old(mountRetries) then 1 else 0)
      ensures hostChecks <= staleFrames + MaxMountRetries + 1
    {
      if open == openRef {
        return;
      }
      openRef := open;
      if open {
        mountEffectRan := true;
        EnsureMounted(hostPresent);
      }
    }

    // -------------------------------------------------------------------
    // Overlay handlers
    // -------------------------------------------------------------------

    /** The overlay's mouseenter. */
    method OverlayEnter(now: int)
      requires Valid()
      modifies this`lastHover, this`hover, this`hideTimer, this`pendingTimers
      ensures Valid()
      ensures hover && lastHover == now
      ensures hideTimer.None? && pendingTimers == {}
    {
      lastHover := now;
      hover := true;
      ClearHideTimer();
    }

    /** The overlay's mouseleave: ignored while the pointer is down or a
        selection is active. */
    method OverlayLeave()
      requires Valid()
      modifies this`hover, this`hideTimer, this`pendingTimers, this`nextTimerId
      ensures Valid()
      ensures old(pointerDown || selectionActive) ==> unchanged(this)
      ensures !old(pointerDown || selectionActive) ==> !hover
      ensures !old(pointerDown || selectionActive) ==>
        if focus then TimerUnchanged() else HideScheduled(old(nextTimerId))
    {
      if pointerDown || selectionActive {
        return;
      }
      hover := false;
      ScheduleHide();
    }

    /** The overlay's pointerdown: pin the overlay (a drag-select may be
        starting) and register a one-shot pointer-up listener. */
    method OverlayPointerDown()
      requires Valid()
      modifies this`pointerDown, this`hover, this`selectionActive
      modifies this`hideTimer, this`pendingTimers, this`pointerUpListeners
      ensures Valid()
      ensures pointerDown && hover && selectionActive
      ensures hideTimer.None? && pendingTimers == {}
      ensures pointerUpListeners == old(pointerUpListeners) + 1
    {
      pointerDown := true;
      hover := true;
      selectionActive := true;
      ClearHideTimer();
      pointerUpListeners := pointerUpListeners + 1;
    }

    /** A registered pointer-up listener runs. `contentPresent`: the
        editor's content node exists; `selectionNonEmpty`: the document
        selection is non-empty; `pointerInside`: the element under the last
        pointer position is inside the overlay; `now`: the clock. */
    method PointerUp(contentPresent: bool, selectionNonEmpty: bool, pointerInside: bool, now: int)
      requires Valid() && pointerUpListeners > 0
      modifies this`pointerUpListeners, this`pointerDown, this`selectionActive, this`hover
      modifies this`hideTimer, this`pendingTimers, this`nextTimerId
      ensures Valid()
      ensures pointerUpListeners == old(pointerUpListeners) - 1 && !pointerDown
      ensures selectionActive == if contentPresent then selectionNonEmpty else old(selectionActive)
      ensures hover == (pointerInside || now - lastHover < GraceMs)
      ensures if !selectionActive && !hover && !focus then HideScheduled(old(nextTimerId)) else TimerUnchanged()
    {
      var selecting := if contentPresent then selectionNonEmpty else selectionActive;
      var hovering := if pointerInside then true else now - lastHover < GraceMs;
      pointerDown, selectionActive := false, selecting;
      pointerUpListeners := pointerUpListeners - 1;
      hover := hovering;
      if !selectionActive {
        ScheduleHide();
      }
    }

    /** Focus enters the overlay. */
    method OverlayFocus()
      requires Valid()
      modifies this`focus, this`hideTimer, this`pendingTimers
      ensures Valid()
      ensures focus && hideTimer.None? && pendingTimers == {}
    {
      focus := true;
      ClearHideTimer();
    }

    /** Focus leaves an element of the overlay; `staysInside`: the element
        receiving focus is inside the overlay. */
    method OverlayBlur(staysInside: bool)
      requires Valid()
      modifies this`focus, this`selectionActive, this`hideTimer, this`pendingTimers, this`nextTimerId
      ensures Valid()
      ensures staysInside ==> unchanged(this)
      ensures !staysInside ==> !focus && !selectionActive
      ensures !staysInside ==> if hover || pointerDown then TimerUnchanged() else HideScheduled(old(nextTimerId))
    {
      if staysInside {
        return;
      }
      focus := false;
      selectionActive := false;
      ScheduleHide();
    }

    /** The mounted editor reports an edit: its content node holds `html`,
        and the change callback copies it into the draft. */
    method EditorInput(html: string)
      requires Valid() && dispose.Some?
      modifies this`contentHtml, this`draft
      ensures Valid()
      ensures contentHtml == Some(html) && draft == html
    {
      contentHtml := Some(html);
      draft := html;
    }

    /** `saveInlineEditor`: write the sanitized live content (the draft when
        there is no content node) into the target, then close. */
    method Save()
      requires Valid()
      modifies this`dispose, this`liveInstances, this`contentHtml, this`open, this`target
      modifies this`hover, this`pointerDown, this`focus, this`selectionActive, this`lastHover
      modifies this`hideTimer, this`pendingTimers
      modifies target
      ensures Valid() && Closed()
      ensures old(target) != null ==>
        old(target).html == sanitize(if old(contentHtml).Some? then old(contentHtml).value else old(draft))
    {
      var html := if contentHtml.Some? then contentHtml.value else draft;
      var safeHtml := sanitize(html);
      if target != null {
        target.html := safeHtml;
      }
      CloseOverlay();
    }

    /** `cancelInlineEditor`: close without writing; no element is in its
        frame, so every element's content stays as it was. */
    method Cancel()
      requires Valid()
      modifies this`dispose, this`liveInstances, this`contentHtml, this`open, this`target
      modifies this`hover, this`pointerDown, this`focus, this`selectionActive, this`lastHover
      modifies this`hideTimer, this`pendingTimers
      ensures Valid() && Closed()
      ensures old(target) != null ==> unchanged(old(target))
    {
      CloseOverlay();
    }
  }
}
