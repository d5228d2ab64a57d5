# playground-react: inline editor, input formatters and module gate

This project is a Dafny model of three pieces of the `@org/playground-react`
micro-frontend, with proofs about each.

- **The inline-editor overlay** (`src/root.component.tsx`). Page elements
  marked `data-ds-inline-edit` open a floating rich-text editor when the
  pointer hovers over them or clicks them. Four "pin" signals keep the
  overlay open: hover, pointer down, focus and an active selection. When
  none of them holds, a 120 ms hide timer closes the overlay, and it checks
  the signals again when it fires. Save writes the sanitized content back
  into the element. Cancel discards the edit.
  - The refs and state are the fields of the class
    `InlineEditor.Controller`, and each handler is one method.
  - `Commit(hostPresent)` stands for React rendering and running its
    effects. `FireHideTimer` and `FireMountFrame` stand for the browser
    running a timeout and an animation-frame callback. `PointerUp` stands
    for the one-shot pointer-up listener.
  - DOM queries become boolean inputs: the host node exists, the pointer
    is inside the overlay, the selection is non-empty, blur stays inside.
    `Date.now()` becomes an integer clock input.
  - The sanitizer is an uninterpreted function given to the constructor.
  - Hide timeouts are numbered. `pendingTimers` holds the ones scheduled
    with the browser that have neither fired nor been cleared.
  - Editor instances are numbered. `liveInstances` holds the ones created
    and not yet disposed.
- **The input formatters** (`src/root.component.tsx`): phone, card,
  currency, CVC and quantity. They are functions over strings (module
  `Formatters`), with lemmas on layout, length, alphabet, the digits kept,
  and idempotence.
- **The module-disable gate**. The origin check and the `message` and
  `storage` listeners come from `src/org-playground.tsx`. The render-time
  check of the stored flag comes from `src/root.component.tsx`.
  - The listener's decision is a function, and a window class applies it
    to local storage and counts reloads.
  - `JSON.stringify` and `JSON.parse` are function parameters. A parse
    that throws is `None`.

`scenarios.dfy` replays event sequences against the controller. It asserts
the state after each event: save and cancel, mount retries, the hide rules
and the two behaviours below.

Behaviours of the code worth noting:

- Opening the overlay never disposes the mounted editor. Moving straight
  from one target to another while the overlay is open keeps the first
  target's editor instance. Save then writes the first target's edited
  content into the second target (`Scenarios.SwitchTargetWhileOpen`).
- After an opening, the mount loop checks for the host up to six times:
  once in the effect, then in up to five animation frames
  (`Scenarios.MountRetries`). A retry frame queued by an earlier opening
  that was cancelled still runs after the counter was reset, so the exact
  bound is six plus the retry frames still pending at the opening. The
  contracts of `Commit` and `FireMountFrame` state that bound.
- The trigger's mouseenter does nothing when the overlay is already open
  on the same target. It sets no hover flag and does not cancel a pending
  hide, so returning to the target within 120 ms does not stop the close
  (`Scenarios.ReenterTargetKeepsTimer`).
- The overlay's left edge is `min(max(16, x), innerWidth - 360)`, which
  falls below 16 on viewports narrower than 376 px (`Scenarios.Clamping`).
- The phone formatter caps countries other than "+1" at twelve digits but
  lays out only the first ten, so the country never changes the output.
- The bridge check is a substring test, so a query string holding
  `mfe-bridge=10` also suppresses the reload.

## Model

| member | source | states |
|---|---|---|
| Common.Digits | src/root.component.tsx:442 | `replace(/\D/g, "")`: the result holds only ASCII digits and is no longer than the input |
| Common.Take | src/root.component.tsx:442 | `slice(0, n)`: a prefix of the string, of length min(length, n) |
| Common.Slice | src/root.component.tsx:443-445 | `slice(i, j)` with clamped bounds: of length min(length, j) - min(length, i), and the first i characters followed by it are the first j characters |
| Formatters.FormatPhone | src/root.component.tsx:441-449 | a formatted phone number is at most 14 characters long |
| Formatters.PhoneLayout | src/root.component.tsx:441-449 | with d the first ten digits typed: d itself when there are at most 3, `(abc) d..` for 4 to 6, `(abc) def-g..` beyond |
| Formatters.PhoneKeepsDigits | src/root.component.tsx:441-449 | removing the punctuation gives back exactly the first ten digits typed, in order |
| Formatters.PhoneAlphabet | src/root.component.tsx:441-449 | the output holds only digits, parentheses, spaces and dashes |
| Formatters.PhoneCountryIrrelevant | src/root.component.tsx:442-445 | the output for any country equals the output for "+1" |
| Formatters.Group4 | src/root.component.tsx:453-454 | `match(/.{1,4}/g).join(" ")`, characterized by `Group4Layout` (length, space positions, digit positions, digits kept) |
| Formatters.Group4Layout | src/root.component.tsx:453-454 | grouping digits by four: the length is n + (n-1)/4, position i is a space iff i % 5 == 4 and otherwise digit i - i/5, and dropping the spaces gives the digits back |
| Formatters.FormatCard | src/root.component.tsx:451-455 | at most 19 characters, a space exactly at every fifth position, digits everywhere else |
| Formatters.CardKeepsDigits | src/root.component.tsx:451-455 | removing the spaces gives back the first sixteen digits typed |
| Formatters.CardIdempotent | src/root.component.tsx:451-455 | formatting a formatted card number changes nothing |
| Formatters.FilterCvc | src/root.component.tsx:1358 | the CVC is the longest prefix of the digits typed that has at most 4 characters |
| Formatters.CvcIdempotent | src/root.component.tsx:1358 | filtering a filtered CVC changes nothing |
| Formatters.DecrementQuantity | src/root.component.tsx:1371 | the minus button never goes below 0, and from 1 or more it subtracts exactly one |
| Formatters.QuantityFromInput | src/root.component.tsx:1380-1381 | no digits read as 0, and n digits give a value below 10^n |
| Formatters.NatToDecimal | src/root.component.tsx:1378 | `String(quantity)` for a non-negative integer: digits only, at least one, and no leading zero unless it is "0"; `QuantityRoundTrip` reads it back |
| Formatters.QuantityRoundTrip | src/root.component.tsx:1377-1381 | reading back the field's displayed `String(quantity)` gives the same quantity |
| Formatters.QuantityIgnoresLeadingZeroAndNoise | src/root.component.tsx:1380-1381 | a leading zero, or non-digits typed anywhere in the text, leave the quantity unchanged |
| Formatters.KeepCurrencyChars | src/root.component.tsx:458 | `replace(/[^\d.]/g, "")` keeps only digits and dots and never lengthens |
| Formatters.KeepCurrencyCharsAppend | src/root.component.tsx:458 | the filter works character by character: filtering a concatenation concatenates the filtered parts |
| Formatters.KeepCurrencyCharsOfNone | src/root.component.tsx:458 | text with no digit and no dot is removed entirely |
| Formatters.KeepCurrencyCharsOfClean | src/root.component.tsx:458 | text made of digits and dots is kept whole |
| Formatters.SplitDots | src/root.component.tsx:459 | `split(".")` yields at least one piece, and no piece holds a dot |
| Formatters.JoinSplitDots | src/root.component.tsx:459 | joining the pieces of a split with dots gives back the string |
| Formatters.WholePart | src/root.component.tsx:460 | `whole`, or "" when missing, sliced to nine: the first piece cut to nine characters; `CurrencyPartsAreDigits` shows it is digits and at most 9 long |
| Formatters.FractionPart | src/root.component.tsx:461 | `fraction`, or "" when missing, sliced to two: the second piece, or "" without a dot, cut to two characters; `CurrencyPartsAreDigits` shows it is digits and at most 2 long |
| Formatters.CurrencyPartsAreDigits | src/root.component.tsx:458-461 | the whole part is digits and at most 9 long, the fraction is digits and at most 2 long |
| Formatters.FormatCurrency | src/root.component.tsx:457-463 | at most 12 characters, only digits and dots, at most one dot, and a dot is at index 9 or lower with one or two characters after it |
| Formatters.CurrencyLayout | src/root.component.tsx:457-463 | the dot appears iff the truncated fraction is non-empty |
| Formatters.CurrencyOfDigits | src/root.component.tsx:457-463 | an amount typed as digits only becomes its first nine digits, with no dot |
| Formatters.CurrencyIdempotent | src/root.component.tsx:457-463 | formatting a formatted amount changes nothing |
| Gate.IsTrustedOrigin | src/org-playground.tsx:10-12 | the page's own origin or a local development origin; `TrustedOriginCharacterized` states which origins those are |
| Gate.MatchesLocalDev | src/org-playground.tsx:12 | the regular expression as a left-to-right matcher; `MatcherSound` and `MatcherComplete` show it accepts exactly a web scheme, a loopback host and an optional port |
| Gate.MatcherSound | src/org-playground.tsx:12 | every origin the regular expression accepts is a scheme, a loopback host and an optional port, in that order |
| Gate.MatcherComplete | src/org-playground.tsx:12 | every such origin is accepted by the regular expression |
| Gate.TrustedOriginCharacterized | src/org-playground.tsx:10-12 | an origin is trusted iff it is the page's own origin or an `http(s)://localhost` / `127.0.0.1` origin with an optional `:digits` port |
| Gate.LocalDevHasNoPath | src/org-playground.tsx:12 | an accepted local origin is at least 16 characters and holds no `/` after the scheme's `//`: no path and no trailing slash |
| Gate.Contains | src/org-playground.tsx:26 | `includes`: `ContainsCharacterized` shows it holds exactly when the needle occurs in the haystack |
| Gate.ContainsInfix | src/org-playground.tsx:26 | `includes` finds the needle wherever it occurs |
| Gate.ContainsSound | src/org-playground.tsx:26 | when `includes` reports a match, the haystack is some text, the needle, then some text |
| Gate.ContainsCharacterized | src/org-playground.tsx:26 | `includes` holds iff the needle occurs in the haystack |
| Gate.IsToggleMessage | src/org-playground.tsx:17-19 | the shape test: data truthy, `type` equal to "mfe-toggle", `disabled` an array; `DecideMessage` ignores every message that fails it |
| Gate.DecideMessage | src/org-playground.tsx:14-30 | untrusted origin or wrong shape: ignored; a failed write: no reload; otherwise persist the serialized list and reload iff the query string lacks `mfe-bridge=1` |
| Gate.ReloadUnlessBridged | src/org-playground.tsx:21-28 | a trusted toggle whose write succeeds is persisted, and it reloads iff "mfe-bridge=1" occurs nowhere in the query string |
| Gate.HostWindow.OnMessage | src/org-playground.tsx:14-30 | storage changes only by writing the serialized list under "mfe-disabled", and a reload is counted only after that write, when the bridge flag is absent |
| Gate.HostWindow.OnStorage | src/org-playground.tsx:33-37 | a reload happens exactly when the event's key is "mfe-disabled" |
| Gate.ReadStored | src/root.component.tsx:85-91 | `localStorage.getItem("mfe-disabled")`: a throwing read, a missing key, or the stored text; `ModuleDisabled` reads the first two as enabled |
| Gate.ModuleDisabled | src/root.component.tsx:83-92 | disabled iff the stored text is non-empty, parses, and is an array holding "@org/playground"; a read or parse failure means enabled |
| Gate.PersistedToggleDecidesGate | src/org-playground.tsx:21-22 | after an accepted toggle is written, the gate reads the module as disabled iff the posted list names it (given that parse undoes stringify) |
| InlineEditor.OverlayLeft | src/root.component.tsx:521 | the left edge never exceeds innerWidth - 360, is at least 16 when the viewport allows it, and is the target's page x whenever that fits; a page x left of the margin gives min(16, innerWidth - 360), and one past the right bound gives innerWidth - 360 |
| InlineEditor.Controller.constructor | src/root.component.tsx:138-151 | the refs start closed, unpinned, without a timer, an instance or a target |
| InlineEditor.Controller.AtMostOneInstance | src/root.component.tsx:533-540 | at most one editor instance is ever live |
| InlineEditor.Controller.ClearHideTimer | src/root.component.tsx:465-470 | the timeout the ref names is cancelled; afterwards the ref is empty and no hide timeout is pending |
| InlineEditor.Controller.ResetInteraction | src/root.component.tsx:472-479 | all four signals false, the last hover time 0, no timer |
| InlineEditor.Controller.DisposeInstance | src/root.component.tsx:504-505 | `dispose?.(); dispose = null`: afterwards no instance is live and no content node exists, and the invariant still holds |
| InlineEditor.Controller.CloseOverlay | src/root.component.tsx:504-508 | the close sequence shared by the hide timer, save and cancel: the overlay ends closed, with no target, no instance, no signal and no timer |
| InlineEditor.Controller.ScheduleHide | src/root.component.tsx:487-497 | pinned: nothing changes; otherwise every timeout pending before is cancelled and the fresh one is the only pending timeout (the invariant keeps the pending set within the ref) |
| InlineEditor.Controller.FireHideTimer | src/root.component.tsx:497-510 | only a pending timeout can fire; pinned at fire time: it leaves the pending set and the ref keeps its id; otherwise the instance is disposed, the target cleared, open false and the signals reset |
| InlineEditor.Controller.Open | src/root.component.tsx:513-531 | signals reset with no timer; target, sanitized draft, clamped position, open, retry counter 0 and the focus request set; the instance is left alone |
| InlineEditor.Controller.Retarget | src/root.component.tsx:516-527 | target, sanitized draft, clamped position, open request, retry counter 0 and focus request as given; a new opening starts its host-check count at zero |
| InlineEditor.Controller.TriggerEnter | src/root.component.tsx:388-391 | already open on this target as of the last render: nothing changes; otherwise the overlay opens on it without a focus request |
| InlineEditor.Controller.TriggerClick | src/root.component.tsx:395-398 | the overlay opens on the target with a focus request |
| InlineEditor.Controller.Commit | src/root.component.tsx:413-428 | the committed open flag catches up, and the host check runs only when it turns from false to true |
| InlineEditor.Controller.EnsureMounted | src/root.component.tsx:415-426 | closed: nothing; no host: one more retry frame while the counter is below 5; host: a fresh instance showing the draft replaces any old one |
| InlineEditor.Controller.FireMountFrame | src/root.component.tsx:419-421 | consumes one pending frame; while the committed open flag is set it runs one host check (none otherwise), with the retry or mount of `EnsureMounted`; the checks since the opening never exceed the frames pending then plus six |
| InlineEditor.Controller.MountEditor | src/root.component.tsx:533-570 | with a host, the old instance is disposed and a new one holding the draft becomes the only live one |
| InlineEditor.Controller.EditorInput | src/root.component.tsx:549-552 | an edit in the mounted editor updates both the content node and the draft |
| InlineEditor.Controller.OverlayEnter | src/root.component.tsx:572-576 | hover set, its time recorded, no timer |
| InlineEditor.Controller.OverlayLeave | src/root.component.tsx:578-582 | ignored while the pointer is down or a selection is active; otherwise hover is cleared and a hide is scheduled unless focus pins |
| InlineEditor.Controller.OverlayPointerDown | src/root.component.tsx:584-588 | pointer down, hover and selection set, no timer, one more pointer-up listener |
| InlineEditor.Controller.PointerUp | src/root.component.tsx:589-612 | pointer released; the selection is recomputed only when the content node exists; hover iff the pointer is inside or within 250 ms of the last hover-enter; a hide is scheduled iff nothing pins |
| InlineEditor.Controller.OverlayFocus | src/root.component.tsx:620-623 | focus set, no timer |
| InlineEditor.Controller.OverlayBlur | src/root.component.tsx:625-639 | focus moving inside the overlay changes nothing; otherwise focus and selection are cleared and a hide is scheduled unless hover or pointer down pins |
| InlineEditor.Controller.Save | src/root.component.tsx:641-654 | the target receives the sanitized live content, or the draft without a content node, and the overlay is closed and torn down |
| InlineEditor.Controller.Cancel | src/root.component.tsx:656-662 | the target is untouched, and the overlay is closed and torn down |
| InlineEditor.Controller.Teardown | src/root.component.tsx:430-439 | on unmount no timer remains and no instance is live |

## Left out

- The trigger wiring effect (`src/root.component.tsx:383-411`) adds and removes listeners. Its handlers are `TriggerEnter`, `ScheduleHide` (the mouseleave handler) and `TriggerClick`. The registration and the `preventDefault` call are not modelled.
- The pointer-move handler (`src/root.component.tsx:615-618`) only records coordinates. Their use by `elementFromPoint` is the `pointerInside` input of `PointerUp`.
- The post-mount focus and select-all sequence (`src/root.component.tsx:554-569`) is DOM plumbing. Only the copy of the draft into the content node is modelled, and it takes effect at mount. The focus request is recorded but not acted on.
- The editor library's options (placeholder, the 400-character limit, the toolbar) are configuration of code outside this model.
- The hide delay of 120 ms has no clock. A timeout fires whenever the environment calls `FireHideTimer` with its id, which is allowed only while that timeout is pending.
- The refs' mirror effects (`src/root.component.tsx:153-159`) are folded in. The open ref catches up in `Commit`. The draft state and its ref hold one value, because every write sets both.
- InlineEditor.OverlayLeft: geometry is in whole pixels. The browser's floating-point coordinates and their rounding are not modelled.
- Formatters.QuantityFromInput: the value is the exact integer of the digits. `Number` rounds strings longer than fifteen or so digits to a double, and that rounding is not modelled.
- Gate.DecideMessage: JavaScript numbers are integers in `JsValue`, so `NaN` and fractional values are not represented. Property access reads own fields of objects only, with no prototype chain.
- `JSON.stringify`, `JSON.parse`, `localStorage` failures and `location.reload` are parameters, flags and a counter. The page's own origin and query string are fixed when the window is constructed.
- The quantity field's plus button (`src/root.component.tsx:1386`) adds one with no upper bound, so there is nothing about it to model beyond the addition.
- The rest of `src/root.component.tsx` (the UI-kit initialisers, the health check, theme, locale and title effects, the markup) and the single-spa lifecycle in `src/org-playground.tsx:39-53` are outside the three pieces modelled. `webpack.config.js` is not part of this model.
