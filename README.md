# Navigation and order-review state logic, modelled in Dafny

This project models the state logic of two browser scripts of an order-management web
application.

- `ExtraNav/nav-ux.js` drives the top navigation bar. It covers:
  - the generic `Expandables` registry of open controls;
  - the hover-intent menus of the top-level triggers, with their open/close timers and keyboard handling;
  - the nested `.has-submenu` flyouts, with family-aware closing and horizontal movement;
  - the click toggle on the triggers;
  - the double-press detector of the search box;
  - the settings switch store, with load-with-defaults, save, the first-run migration of the menu switches and `setMenuEnabled`;
  - the icon-markup precedence chain;
  - `getByPath`/`resolveKeys` and the sectioning of `renderMenu`;
  - the inbox badge;
  - the pruning of paint declarations from SVG `style` attributes;
  - the hotbutton save and apply logic;
  - the search-scope lookup.
- `assets/js/orders-review.js` drives the order-review form. It covers:
  - the `doExtraChecking` validation rules, with their error lines, field highlighting and delayed submit;
  - the numeric key filter of the material fields;
  - the automatic notification e-mail rows and their remove buttons;
  - the comment kept per shipment source and re-rendered by `updateShipmentComments`;
  - `recountBox`.

The model follows the code's own form.

- **State updated in place becomes a `class`.** This covers the `active` set, the timer records, `aria-expanded` flags, `STState`, the notification table, `sourceArray` and the review form. The class fields are sequences, maps or arrays. Its methods state the whole new state.
- **Pure helpers become functions** on datatypes.
- **Loops become `while` loops with invariants.** Each is proved against a specification function, and the specification function's properties are proved as lemmas.

Timers are never real time. A pending timeout is an entry that a separate `Fire` step runs. JavaScript numbers read from data attributes are a `JsNumber` value: a finite real, an infinity or NaN, where a missing attribute reads as NaN.

Modules, one per file:

- `Text`: JavaScript-like strings, trimming, split/join and decimal digits.
- `Expandables`
- `HoverIntent`
- `Flyouts`
- `DoublePress`
- `Settings`
- `NavHelpers`
- `MenuRender`
- `OrdersReview`
- `OrderLists`

## Model

| member | source | states |
|---|---|---|
| Text.OrElse | ExtraNav/nav-ux.js:230 | `a \|\| b` on numbers: `a` when it is truthy (not 0, not NaN), otherwise `b` |
| Text.TrimStart | ExtraNav/nav-ux.js:304 | drops the leading whitespace (what `\s*` matches after a property name): the result is no longer and does not start with whitespace |
| Text.Trim | ExtraNav/nav-ux.js:1038-1040 | the result is the input with an all-whitespace head and an all-whitespace tail cut off, and it neither starts nor ends with whitespace, so exactly the leading and trailing whitespace is removed |
| Text.TrimEmptyIff | ExtraNav/nav-ux.js:1041 | a string trims to empty exactly when it is all whitespace |
| Text.TrimNoNew | ExtraNav/nav-ux.js:304 | trimming introduces no character that was not in the input |
| Text.TrimSpaced | ExtraNav/nav-ux.js:304 | a trimmed non-empty piece, with or without one leading space, trims back to itself |
| Text.Split | ExtraNav/nav-ux.js:304 | `split(sep)` gives at least one piece, no piece contains the separator, and joining the pieces with it restores the input |
| Text.SplitJoin | ExtraNav/nav-ux.js:2577 | splitting a join of separator-free pieces gives the pieces back, so split and join are inverse |
| Text.SplitNoSep | ExtraNav/nav-ux.js:2577 | a string without the separator splits into itself alone |
| Text.SplitAfter | assets/js/orders-review.js:876 | a separator-free head followed by the separator splits off as the first piece |
| Text.Join | ExtraNav/nav-ux.js:304 | `xs.join(sep)`; `Split` and `SplitJoin` state that it inverts `split` |
| Text.ReplaceAll | assets/js/orders-review.js:389 | `replace(/a/g, b)` keeps the length and swaps exactly the occurrences of `a` |
| Text.DigitsOf | ExtraNav/nav-ux.js:244 | `replace(/[^\d]/g, '')` keeps only decimal digits and never lengthens the string |
| Text.DigitsOfAppend | ExtraNav/nav-ux.js:244 | stripping non-digits distributes over concatenation |
| Text.DigitsOfDigits | ExtraNav/nav-ux.js:244 | a string of digits is left unchanged |
| Text.DigitsOfNone | ExtraNav/nav-ux.js:244 | a string with no digit strips to empty |
| Text.NatToDecimal | ExtraNav/nav-ux.js:237 | `String(n)` of a natural is a non-empty digit string, one digit exactly below 10, at most two below 100 |
| Text.DecimalValue | ExtraNav/nav-ux.js:244 | `parseInt(ds, 10)` of a digit string; `DecimalRoundTrip` states that it reads back `String(n)` |
| Text.DecimalRoundTrip | ExtraNav/nav-ux.js:237-244 | `parseInt` of `String(n)` is `n` |
| Expandables.Remove | ExtraNav/nav-ux.js:24 | `Set.delete`: the result holds exactly the other members and keeps them distinct |
| Expandables.Add | ExtraNav/nav-ux.js:24 | `Set.add`: the result holds the old members and the new one |
| Expandables.RemoveAbsent | ExtraNav/nav-ux.js:24 | deleting a non-member changes nothing |
| Expandables.RemoveHead | ExtraNav/nav-ux.js:24 | deleting the first member of a duplicate-free set drops exactly the head |
| Expandables.RemoveAfter | ExtraNav/nav-ux.js:28-30 | deleting a member not in the kept prefix leaves that prefix untouched |
| Expandables.RemoveHeadAfter | ExtraNav/nav-ux.js:28-30 | while `closeAll` iterates, deleting the current control removes exactly it from the remaining set |
| Expandables.Last | ExtraNav/nav-ux.js:41 | the last member in insertion order, None exactly for the empty set |
| Expandables.Registry.constructor | ExtraNav/nav-ux.js:20-21 | the registry starts with no active control and no attribute set |
| Expandables.Registry.IsExpanded | ExtraNav/nav-ux.js:27 | a control reads as expanded exactly when it is in the active set |
| Expandables.Registry.SetExpanded | ExtraNav/nav-ux.js:22-26 | writes the control's `aria-expanded` and adds it to or deletes it from the active set |
| Expandables.Registry.CloseAll | ExtraNav/nav-ux.js:28-30 | every active control except the exception is collapsed and leaves the set; the exception stays only if it was active; no other attribute changes |
| Expandables.Registry.OnPointerDown | ExtraNav/nav-ux.js:32-35 | a press inside an active control changes nothing; any other press collapses every active control, empties the set and leaves every other control's attribute as it was |
| Expandables.Registry.OnEscape | ExtraNav/nav-ux.js:36-43 | Escape collapses everything and, as written, restores focus to no control |
| Expandables.Registry.OnEscapeRestoringFocus | ExtraNav/nav-ux.js:36-43 | Escape collapses everything and returns focus to the most recently activated control that was expanded |
| HoverIntent.ScheduledDelay | ExtraNav/nav-ux.js:1150 | the delay is the data attribute when it is a nonzero number, else the argument when truthy, else the default |
| HoverIntent.ScheduledDelayNonzero | ExtraNav/nav-ux.js:1148-1162 | a scheduled delay is never zero; a zero attribute falls back to 140 or 270 ms |
| HoverIntent.NextIndex | ExtraNav/nav-ux.js:1221 | `(idx + 1) % n`: the next trigger, wrapping from the last to the first |
| HoverIntent.PrevIndex | ExtraNav/nav-ux.js:1220 | `(idx - 1 + n) % n`: the previous trigger, wrapping from the first to the last |
| HoverIntent.NextPrevInverse | ExtraNav/nav-ux.js:1220-1221 | moving right then left, or left then right, returns to the same trigger |
| HoverIntent.TriggerFocus | ExtraNav/nav-ux.js:1226-1229 | ArrowRight/ArrowLeft focus the wrapped neighbour, Home the first and End the last trigger; other keys leave focus alone |
| HoverIntent.ItemFocus | ExtraNav/nav-ux.js:1238-1241 | inside a menu, ArrowDown/ArrowUp move to the wrapped next or previous item, and Home/End to the first or last; an empty menu keeps focus |
| HoverIntent.ItemFocusUpFromNone | ExtraNav/nav-ux.js:1240 | with no item focused, ArrowUp as written lands on the second-to-last item, while ArrowDown lands on the first |
| HoverIntent.ItemFocusFixed | ExtraNav/nav-ux.js:1240 | ArrowUp with no item focused goes to the last item; every other case is as written |
| HoverIntent.ItemFocusFixedInverse | ExtraNav/nav-ux.js:1239-1240 | with the correction, ArrowUp after ArrowDown (and the reverse) returns to the starting item, and from no focus reaches the last item |
| HoverIntent.OnlyExpanded | ExtraNav/nav-ux.js:1138-1146 | the flag vector in which exactly trigger `t` is expanded |
| HoverIntent.TriggerBar.constructor | ExtraNav/nav-ux.js:1112-1118 | every trigger starts collapsed with no timer pending |
| HoverIntent.TriggerBar.ClearTimers | ExtraNav/nav-ux.js:1123-1129 | both timers of `t` are cancelled and nothing else changes |
| HoverIntent.TriggerBar.ForceCloseTrigger | ExtraNav/nav-ux.js:1132-1135 | `t` is collapsed and both of its timers are cancelled |
| HoverIntent.TriggerBar.ForceCloseOthers | ExtraNav/nav-ux.js:1184-1186 | every other trigger is collapsed with no timer pending; `t` is untouched |
| HoverIntent.TriggerBar.SetExpanded | ExtraNav/nav-ux.js:1138-1146 | opening leaves exactly `t` expanded and kills the others' timers; closing collapses `t` and cancels its timers; at most one trigger stays expanded |
| HoverIntent.TriggerBar.ScheduleOpen | ExtraNav/nav-ux.js:1148-1154 | clears both timers, then arms only the open timeout with the resolved delay, so open and close are never pending together |
| HoverIntent.TriggerBar.ScheduleClose | ExtraNav/nav-ux.js:1156-1162 | clears both timers, then arms only the close timeout with the resolved delay |
| HoverIntent.TriggerBar.FireOpen | ExtraNav/nav-ux.js:1151 | the open timeout firing leaves exactly `t` expanded and no timer pending anywhere |
| HoverIntent.TriggerBar.FireClose | ExtraNav/nav-ux.js:1159 | the close timeout firing collapses `t` and clears its close timer |
| HoverIntent.TriggerBar.PointerEnter | ExtraNav/nav-ux.js:1184-1187 | all other triggers are closed with no timers, and `t` has exactly an open timeout pending |
| HoverIntent.TriggerBar.Leave | ExtraNav/nav-ux.js:1189-1214 | leaving to an element inside the trigger changes nothing; otherwise only a close timeout is pending for `t` |
| HoverIntent.TriggerBar.MenuPointerEnter | ExtraNav/nav-ux.js:1195-1201 | entering a panel leaves exactly its trigger expanded and no timer pending anywhere |
| HoverIntent.TriggerBar.FocusIn | ExtraNav/nav-ux.js:1208-1211 | focus leaves exactly `t` expanded; other triggers have no timers |
| HoverIntent.TriggerBar.TriggerKeyDown | ExtraNav/nav-ux.js:1217-1231 | the hover-intent keydown on a trigger: opening keys on the focused trigger expand only it, kill the other triggers' timers, keep its own and focus its first (ArrowUp: last) item; Escape collapses it and cancels its timers; every other key and focus leaves expanded flags and all timers unchanged, moving focus as `TriggerFocus` |
| HoverIntent.TriggerBar.MenuKeyDown | ExtraNav/nav-ux.js:1234-1246 | the menu keydown alone: Escape collapses the menu, cancels its trigger's timers and focuses the trigger; every other key leaves flags and timers unchanged; item keys move as `ItemFocus`, ArrowLeft/Right to the neighbouring trigger, Enter and Space nowhere |
| HoverIntent.TriggerBar.MenuClick | ExtraNav/nav-ux.js:1249-1252 | the menu click alone: a click on a menu item collapses the menu and cancels its trigger's timers, leaving every other trigger as it was; other clicks change nothing |
| HoverIntent.TriggerBar.OutsidePointerDown | ExtraNav/nav-ux.js:1329-1332 | a press outside every trigger closes all of them and cancels every timer |
| HoverIntent.TriggerBar.CloseAllMenus | ExtraNav/nav-ux.js:2683-2707 | every trigger ends collapsed and no timer changes (the flyouts it also closes are not held here); the document-wide click listener runs exactly this on every click that is not stopped |
| HoverIntent.TriggerBar.ClickToggle | ExtraNav/nav-ux.js:2695-2701 | clicking an expanded trigger collapses all triggers; clicking a collapsed one leaves exactly it expanded |
| HoverIntent.TriggerBar.ToggleKeyDown | ExtraNav/nav-ux.js:2702-2705 | the later keydown listener: Enter and Space toggle as a click does, Escape collapses only the trigger, other keys change nothing |
| HoverIntent.TriggerBar.TriggerKeyPress | ExtraNav/nav-ux.js:1223-2705 | a keydown on a trigger runs both listeners: Enter or Space on the focused trigger leaves every trigger collapsed with the focus sent to the first item, the other triggers' timers cleared and t's own kept; unfocused, Enter and Space toggle and arrows change nothing; the other keys act as the hover-intent listener alone |
| HoverIntent.TriggerBar.TriggerKeyPressFixed | ExtraNav/nav-ux.js:1223-2705 | with the later listener skipping handled events, Enter, Space and the vertical arrows on the focused trigger leave exactly it expanded, the other triggers without timers, t's timers kept and the focus on the first (ArrowUp: last) item; unfocused Enter and Space toggle; Escape collapses t and cancels its timers; every other key leaves flags and timers unchanged and moves focus as `TriggerFocus` |
| HoverIntent.TriggerBar.MenuKeyPress | ExtraNav/nav-ux.js:1217-2705 | a keydown in a menu bubbles to the trigger: Home and End end on the first or last trigger, arrows behave as in the menu, Escape collapses and refocuses the trigger, Enter and Space toggle the menu |
| HoverIntent.TriggerBar.MenuClickPress | ExtraNav/nav-ux.js:1249-2701 | a click in a menu bubbles to the trigger's toggle: a click on an item leaves the menu expanded again, a click elsewhere in an open menu collapses every trigger |
| Flyouts.ParseDelay | ExtraNav/nav-ux.js:1262 | any finite number from zero up, including zero, is taken; anything else gives the fallback |
| Flyouts.ZeroDelayDiffers | ExtraNav/nav-ux.js:1150-1263 | a zero attribute means zero for nested flyouts but the default for top-level triggers; negative and infinite values fall back |
| Flyouts.AncestorBefore | ExtraNav/nav-ux.js:1273-1274 | an enclosing item precedes the items it contains |
| Flyouts.AncestorTrans | ExtraNav/nav-ux.js:1273-1274 | containment is transitive |
| Flyouts.FamilySymmetric | ExtraNav/nav-ux.js:1270-1278 | `a` is in the family of `b` exactly when `b` is in the family of `a` |
| Flyouts.ChildrenOf | ExtraNav/nav-ux.js:1300 | the `.has-submenu` children of a parent, all of them, in document order |
| Flyouts.IndexIn | ExtraNav/nav-ux.js:1301 | `indexOf` of a present element is a position holding it |
| Flyouts.SiblingTarget | ExtraNav/nav-ux.js:1301-1302 | fewer than two siblings give no target; otherwise the target is the wrapped neighbour, a different sibling |
| Flyouts.SiblingTargetInverse | ExtraNav/nav-ux.js:1302 | moving right then left, or left then right, returns to the same flyout |
| Flyouts.Cancel | ExtraNav/nav-ux.js:1281-1291 | `clearTimeout` removes exactly that handle's pending timeout; a null handle does nothing |
| Flyouts.FlyoutTree.constructor | ExtraNav/nav-ux.js:1256-1261 | every item starts closed with an empty timer record and nothing pending |
| Flyouts.FlyoutTree.Open | ExtraNav/nav-ux.js:1279-1288 | cancels the item's close timeout; an open item stays as it is; otherwise a new open timeout is armed (zero delay when immediate) |
| Flyouts.FlyoutTree.Close | ExtraNav/nav-ux.js:1289-1297 | cancels the item's open timeout and arms a new close timeout, overwriting the handle of any earlier one |
| Flyouts.FlyoutTree.Fire | ExtraNav/nav-ux.js:1282-1295 | a pending timeout runs once: the item opens or closes and the timeout is gone |
| Flyouts.FlyoutTree.CloseAllExceptFamily | ExtraNav/nav-ux.js:1270-1278 | every item outside the family of the exception (all items, when there is none) is closing immediately; family members' records and timeouts are untouched; the only timeouts added are immediate closes outside the family and the only ones cancelled are open timeouts their records named |
| Flyouts.FlyoutTree.OpenInFamily | ExtraNav/nav-ux.js:1306-1312 | the whole effect of closing outside the family and then opening: no `open` class changes, everything outside the family is closing at once, the rest of the family keeps its records and timeouts, the item loses only its recorded close timeout and, unless open, gets a fresh open timeout |
| Flyouts.FlyoutTree.Enter | ExtraNav/nav-ux.js:1306-1308 | pointerenter/focusin: `OpenedInFamily` with the item's open delay: no `open` class changes, the family's other timers are kept, everything outside closes immediately, and the item gets an open timeout unless already open |
| Flyouts.FlyoutTree.Leave | ExtraNav/nav-ux.js:1307-1309 | leaving to an element inside changes nothing; otherwise the item's recorded open timeout is cancelled and a new close timeout armed; `open` classes and open records are unchanged |
| Flyouts.FlyoutTree.Click | ExtraNav/nav-ux.js:1310-1312 | a click on an open item changes nothing; on a closed one, `OpenedInFamily` with zero delay |
| Flyouts.FlyoutTree.MoveHorizontal | ExtraNav/nav-ux.js:1298-1304 | no sibling target means a no-op; otherwise the target is a different sibling and `OpenedInFamily` holds for it with zero delay, so it gets an immediate open timeout and no live close |
| Flyouts.FlyoutTree.KeyDown | ExtraNav/nav-ux.js:1313-1322 | Escape cancels the recorded open timeout and arms an immediate close; ArrowDown/Up cancel the recorded close and, on a closed item, arm an immediate open; ArrowLeft/Right act as `MoveHorizontal`; other keys change nothing; no `open` class changes |
| Flyouts.FlyoutTree.Drop | ExtraNav/nav-ux.js:1281 | cancelling a handle keeps every item's record pointing only at its own live timeout |
| Flyouts.FlyoutTree.Arm | ExtraNav/nav-ux.js:1283-1291 | arming a timeout whose record slot is free records the new handle and keeps the no-orphan invariant |
| Flyouts.FlyoutTree.OpenFixed | ExtraNav/nav-ux.js:1279-1288 | corrected open: no close timeout of the item is left pending, and a closed item gets exactly one open timeout |
| Flyouts.FlyoutTree.CloseFixed | ExtraNav/nav-ux.js:1289-1297 | corrected close: the item's only pending timeout is the new close |
| Flyouts.OrphanedCloseScenario | ExtraNav/nav-ux.js:1279-1309 | two closes, then a re-entry: as written, an orphaned close timeout shuts the reopened flyout |
| Flyouts.FixedCloseScenario | ExtraNav/nav-ux.js:1279-1309 | the same events with the corrected timers leave the flyout open and nothing pending |
| Flyouts.OrphanedOpenScenario | ExtraNav/nav-ux.js:1279-1326 | pointerenter then focusin arm two open timeouts; after a press outside closes the flyout, the orphaned first open timeout reopens it |
| Flyouts.FixedOpenScenario | ExtraNav/nav-ux.js:1279-1297 | with the corrected timers the same events leave the flyout closed and nothing pending |
| DoublePress.Detector.constructor | ExtraNav/nav-ux.js:49-50 | a detector starts with the given threshold and `last` at 0 |
| DoublePress.Detector.IsDouble | ExtraNav/nav-ux.js:51-55 | a press is a double exactly when it comes within the threshold of the last recorded one; a hit resets `last` to 0, a miss records the time |
| DoublePress.Detector.PressAll | ExtraNav/nav-ux.js:51-55 | a run of presses reports what `Hits` specifies and leaves `last` where it says |
| DoublePress.Hits | ExtraNav/nav-ux.js:51-55 | one verdict per press; the first compares with the incoming `last` |
| DoublePress.NoHitAfterHit | ExtraNav/nav-ux.js:54 | with timestamps above the threshold, two presses in a row are never both doubles |
| DoublePress.PairIsDouble | ExtraNav/nav-ux.js:51-55 | a lone press followed quickly by another reports miss, then hit |
| Settings.Find | ExtraNav/nav-ux.js:1585 | `stItems.find` by key succeeds exactly for a known key and returns an item with that key |
| Settings.DefaultsOf | ExtraNav/nav-ux.js:1545 | the default map has exactly the item keys |
| Settings.SavedObject | ExtraNav/nav-ux.js:1547-1550 | missing, empty or unparsable storage yields no saved object |
| Settings.OverlayValues | ExtraNav/nav-ux.js:1550-1556 | only keys of known items present in the saved object are overridden, each by the truthiness of its saved value |
| Settings.Overlay | ExtraNav/nav-ux.js:1550-1556 | the saved values laid over a map, item by item; `OverlayValues` states it |
| Settings.LoadInitialState | ExtraNav/nav-ux.js:1544-1559 | the loop computes the loaded map |
| Settings.LoadedMeaning | ExtraNav/nav-ux.js:1544-1559 | the loaded map has exactly the item keys; without a saved object it is the defaults; a saved key wins, others keep the default |
| Settings.Loaded | ExtraNav/nav-ux.js:1544-1559 | `loadInitialState(items)`; `LoadedMeaning` and `SaveLoadRoundTrip` state it |
| Settings.Serialized | ExtraNav/nav-ux.js:1560-1563 | `saveState` writes an object with exactly the state's keys, each as a boolean |
| Settings.SaveLoadRoundTrip | ExtraNav/nav-ux.js:1544-1563 | loading what `saveState` wrote gives back the same state |
| Settings.ApplyFirstRun | ExtraNav/nav-ux.js:1640-1646 | the first run turns on s4–s7 where present and keeps every other switch |
| Settings.ItemsMenuOn | ExtraNav/nav-ux.js:1371-1379 | the shipped items default s4–s7 to on |
| Settings.MenuDefaultsOn | ExtraNav/nav-ux.js:1371-1379 | items defaulting s4–s7 on give defaults with those switches on |
| Settings.FirstRunIsDefaults | ExtraNav/nav-ux.js:1640-1646 | with such items, a first run starts from the defaults |
| Settings.StartupState | ExtraNav/nav-ux.js:1567-1646 | `STState` after loading and the first-run migration; `FirstRunIsDefaults` and `ReloadRestoresSaved` state it |
| Settings.FirstRunKeepsOn | ExtraNav/nav-ux.js:1640-1646 | when the defaults already have the menu switches on, the first-run migration changes nothing |
| Settings.ReloadRestoresSaved | ExtraNav/nav-ux.js:1544-1646 | after a save, the next start-up restores exactly the saved state and skips the migration |
| Settings.SetMenuEnabled | ExtraNav/nav-ux.js:1613-1620 | the node's attributes show the requested enablement; enabling leaves `aria-expanded` alone |
| Settings.ShowsEnabledUnique | ExtraNav/nav-ux.js:1613-1620 | the attributes determine the enablement: no node shows both states |
| Settings.SyncAllMenus | ExtraNav/nav-ux.js:1649-1653 | every menu node agrees with its switch; other nodes are untouched |
| Settings.Notify | ExtraNav/nav-ux.js:1656-1658 | a change event updates only the subscribed menu node of that key |
| Settings.NotifyKeepsSync | ExtraNav/nav-ux.js:1656-1658 | after a switch changes and its event is delivered, menus and switches still agree |
| Settings.ItemMap | ExtraNav/nav-ux.js:1371-1379 | the key-to-item map covers exactly the item keys, each with its own item |
| Settings.SwitchStore.constructor | ExtraNav/nav-ux.js:1573-1653 | start-up state is the loaded state after migration; it is saved once on a first run and not otherwise; menus are in sync |
| Settings.SwitchStore.Set | ExtraNav/nav-ux.js:1579-1589 | an unknown key changes nothing; a known one updates the value, the checkbox and the tooltip, saves only when asked and changed, and emits only when asked |
| Settings.SwitchStore.Write | ExtraNav/nav-ux.js:1582-1587 | the state part of `ST.set`: value, checkbox and tooltip updated, storage written only for a real change with saving on |
| Settings.SwitchStore.Emit | ExtraNav/nav-ux.js:1569-1572 | one change event is appended and delivered to the menus; no other state changes |
| Settings.SwitchStore.Toggle | ExtraNav/nav-ux.js:1721-1733 | a user toggle flips the switch, always saves, sets the tooltip to "label: value", emits once and keeps menus in sync |
| NavHelpers.PlaceholderTier | ExtraNav/nav-ux.js:91-95 | four width bands with boundaries at 400, 550 and 1000 pixels |
| NavHelpers.SearchPlaceholder | ExtraNav/nav-ux.js:91-97 | the placeholder is the text of the width's band |
| NavHelpers.PlaceholderMonotone | ExtraNav/nav-ux.js:91-97 | a wider bar never gets a lower band or a shorter placeholder, and two widths share a text exactly when they share a band |
| NavHelpers.ClampCount | ExtraNav/nav-ux.js:230 | `Math.max(0, Number(n) \|\| 0)` is zero exactly for non-positive or NaN input, and otherwise is the input |
| NavHelpers.SetInboxCount | ExtraNav/nav-ux.js:229-239 | the badge is hidden exactly for a zero count; otherwise its label is "Inbox (text)" with a text of one to three characters |
| NavHelpers.FirstWithDigit | ExtraNav/nav-ux.js:242 | the first span containing a digit, or none when no span does |
| NavHelpers.ReadCountRoundTrip | ExtraNav/nav-ux.js:240-246 | a first span showing `k` among digit-free text reads back as `k` |
| NavHelpers.ReadCount | ExtraNav/nav-ux.js:240-246 | `readCountFromSource()`; `ReadCountRoundTrip` states it |
| NavHelpers.SyncShowsCount | ExtraNav/nav-ux.js:229-247 | syncing from a source showing `k` hides the badge exactly for 0, shows `k` up to 99 and "99+" above |
| NavHelpers.TrimAll | ExtraNav/nav-ux.js:304 | `map(r => r.trim())` trims every piece |
| NavHelpers.KeepDecls | ExtraNav/nav-ux.js:304 | the kept declarations are exactly the non-empty ones not setting fill, stroke or color |
| NavHelpers.IsPaintDecl | ExtraNav/nav-ux.js:304 | a declaration matching `^(fill|stroke|color)\s*:` |
| NavHelpers.KeepDeclsAll | ExtraNav/nav-ux.js:304 | clean declarations are all kept |
| NavHelpers.SanitizedStyle | ExtraNav/nav-ux.js:302-306 | an absent or empty style is left alone; otherwise the attribute is the pruned text, or removed when nothing is left |
| NavHelpers.SanitizedStyleStable | ExtraNav/nav-ux.js:302-306 | sanitising an already sanitised attribute changes nothing |
| NavHelpers.JoinSpaced | ExtraNav/nav-ux.js:304 | joining with "; " is joining with ";" after a space in front of every piece but the first |
| NavHelpers.PruneStyleDecls | ExtraNav/nav-ux.js:304 | reading the declarations back out of a pruned style gives exactly the kept declarations |
| NavHelpers.PruneStyle | ExtraNav/nav-ux.js:304 | the pruned style text; `PruneStyleDecls` and `PruneStyleIdempotent` state it |
| NavHelpers.ReadBack | ExtraNav/nav-ux.js:304 | clean declarations joined with "; " split and trim back to themselves |
| NavHelpers.PruneStyleIdempotent | ExtraNav/nav-ux.js:304 | pruning twice is pruning once |
| NavHelpers.TrimOr | ExtraNav/nav-ux.js:1534 | `(x ?? '').trim()` is trimmed |
| NavHelpers.IconMarkupPrecedence | ExtraNav/nav-ux.js:1533-1541 | the inline icon wins, then the icon by name, then by key, then the on/off default; the result is never blank |
| NavHelpers.GetIconMarkup | ExtraNav/nav-ux.js:1533-1541 | `getIconMarkup(item, state)`; `IconMarkupPrecedence` states it |
| NavHelpers.SaveHotbutton | ExtraNav/nav-ux.js:1035-1050 | an all-blank form clears, an unparsable SVG aborts, and otherwise the trimmed link and label are written with the sanitised SVG exactly when one was given |
| NavHelpers.ApplySavedConfig | ExtraNav/nav-ux.js:333-360 | nothing saved restores every default; a saved label, link or icon shows on the button; blank fields return to the defaults, and an empty remembered `aria-label` is removed rather than set |
| NavHelpers.SaveThenApply | ExtraNav/nav-ux.js:333-1050 | after saving, the button shows the saved label and link, and a blank save behaves as the clear button |
| NavHelpers.ScopeOf | ExtraNav/nav-ux.js:2721-2731 | "quotes" posts to the quotes endpoint; the field scopes add an `extraOption`, and "general" and "quotes" add none |
| NavHelpers.SubmitSearch | ExtraNav/nav-ux.js:2755-2764 | a blank query posts nothing; otherwise the trimmed query is the first field posted |
| NavHelpers.SearchScopeFallback | ExtraNav/nav-ux.js:2733-2764 | a missing or unknown scope posts exactly what "general" posts; field scopes send `extraOption` |
| MenuRender.Step | ExtraNav/nav-ux.js:2577 | one reduce step over own keys: a falsy value gives undefined, an object gives its own field or undefined |
| MenuRender.Walk | ExtraNav/nav-ux.js:2577 | the `reduce` over the segments; `WalkUndef` and `WalkAppend` state its meaning |
| MenuRender.GetByPath | ExtraNav/nav-ux.js:2577 | `getByPath(root, path)`: the walk over the path's dot-separated segments; `MissingSegment` and `PathFindsNested` state its meaning |
| MenuRender.WalkUndef | ExtraNav/nav-ux.js:2577 | once undefined, every later segment keeps it undefined |
| MenuRender.WalkAppend | ExtraNav/nav-ux.js:2577 | walking a concatenated path is walking the parts in turn |
| MenuRender.MissingSegment | ExtraNav/nav-ux.js:2577 | `getByPath` is undefined as soon as a segment is not an own key of the value reached |
| MenuRender.PathFindsNested | ExtraNav/nav-ux.js:2577 | a dotted path finds the value nested under its segments |
| MenuRender.WalkNest | ExtraNav/nav-ux.js:2577 | walking the keys of a nest reaches its leaf |
| MenuRender.ResolvedIcon | ExtraNav/nav-ux.js:2584 | an explicit icon stays; otherwise the keyed icon, else the blank icon |
| MenuRender.ResolvedHref | ExtraNav/nav-ux.js:2585 | an explicit href stays; otherwise the href key is looked up by path |
| MenuRender.ResolveItem | ExtraNav/nav-ux.js:2580-2588 | a resolved entry keeps every other field and has its submenu resolved too |
| MenuRender.Resolve | ExtraNav/nav-ux.js:2578-2590 | resolution keeps the length and exactly the separator positions |
| MenuRender.ResolveAt | ExtraNav/nav-ux.js:2578-2590 | each resolved element is its item unchanged if a separator, else the resolved entry |
| MenuRender.ResolveKeepsSeparators | ExtraNav/nav-ux.js:2579 | resolution keeps the number of separators |
| MenuRender.VariantClass | ExtraNav/nav-ux.js:2557-2626 | "ok" gives "special", "warn" gives "delete", and no other variant adds a class |
| MenuRender.EntryClass | ExtraNav/nav-ux.js:2624-2626 | the class is exactly "element", then " has-submenu" for a submenu entry, then a space and the variant class when there is one |
| MenuRender.NavOf | ExtraNav/nav-ux.js:2634 | an entry navigates exactly when its href is truthy, to that href, with its own target or `_self` when it has none |
| MenuRender.OrNone | ExtraNav/nav-ux.js:2628-2629 | a colour or icon is applied exactly when present |
| MenuRender.SubOf | ExtraNav/nav-ux.js:2643-2654 | a sublist separator renders as a separator, any other item as an element |
| MenuRender.SubList | ExtraNav/nav-ux.js:2643-2655 | the sublist renders each submenu item in order |
| MenuRender.RenderSublist | ExtraNav/nav-ux.js:2638-2655 | the loop builds exactly the sublist |
| MenuRender.RenderEntry | ExtraNav/nav-ux.js:2623-2659 | the loop body builds the entry's element |
| MenuRender.LiOf | ExtraNav/nav-ux.js:2623-2659 | the element of one entry: its class, colour, icon, label, navigation and a sublist only for a non-empty submenu |
| MenuRender.Flush | ExtraNav/nav-ux.js:2614-2618 | an empty section is never emitted |
| MenuRender.FlushFacts | ExtraNav/nav-ux.js:2614-2618 | flushing contributes exactly the section's entries and no separator |
| MenuRender.RunSnoc | ExtraNav/nav-ux.js:2620-2662 | one more item either closes the section and adds a separator, or appends an entry to the open section |
| MenuRender.RenderMenu | ExtraNav/nav-ux.js:2609-2666 | the fragment is `Blocks` of the resolved items: every entry appears once in order, no section is empty, one top separator per separator item, and each separator closes the open section (`BlocksAtSeparator`) |
| MenuRender.Layout | ExtraNav/nav-ux.js:2620-2664 | the `flushSection` loop computes the specified blocks |
| MenuRender.Run | ExtraNav/nav-ux.js:2620-2662 | the emitted blocks and open section after a prefix of the items; `RunEntries`, `RunNoEmpty`, `RunTopSeps` and `RunAfterSeparator` state its meaning |
| MenuRender.Blocks | ExtraNav/nav-ux.js:2609-2666 | the rendered menu: the emitted blocks followed by the flushed last section; `BlocksAtSeparator` and `BlocksWithoutSeparator` fix it completely |
| MenuRender.NonSeparators | ExtraNav/nav-ux.js:2620 | the items that render as entries |
| MenuRender.LisOf | ExtraNav/nav-ux.js:2623-2661 | one rendered element per entry, in order |
| MenuRender.RunEntries | ExtraNav/nav-ux.js:2620-2662 | the emitted sections plus the open one hold exactly the entries in order |
| MenuRender.RunNoEmpty | ExtraNav/nav-ux.js:2614-2618 | no emitted section is empty |
| MenuRender.RunTopSeps | ExtraNav/nav-ux.js:2621 | one top separator is emitted per separator item |
| MenuRender.BlocksMeaning | ExtraNav/nav-ux.js:2609-2666 | the rendered fragment holds all entries in order, no empty section, and one separator per separator item |
| MenuRender.RunAfterSeparator | ExtraNav/nav-ux.js:2620-2621 | after a separator the loop starts over: the items that follow are laid out as a menu of their own behind the blocks so far and a top separator |
| MenuRender.BlocksAtSeparator | ExtraNav/nav-ux.js:2609-2666 | each separator closes the open section: `a`, a separator, then `b` renders as `a`'s blocks, a top separator and `b`'s blocks |
| MenuRender.RunWithoutSeparator | ExtraNav/nav-ux.js:2620-2660 | entries with no separator between them all stay in the open section, in order |
| MenuRender.BlocksWithoutSeparator | ExtraNav/nav-ux.js:2609-2666 | a separator-free run of entries renders as exactly one section holding them, or nothing when it is empty |
| OrdersReview.FilterCount | assets/js/orders-review.js:211-272 | a rule adds its field as many times as the field appears in the rule order and fails |
| OrdersReview.ErrorText | assets/js/orders-review.js:211-272 | the `error` string: the lines of the failing rules concatenated in order; `ErrorTextEmptyIff` states when it is empty |
| OrdersReview.Flagged | assets/js/orders-review.js:211-272 | the failing rules in the source's order; `LineOnce`, `FlaggedInOrder` and `SubmitIffAllPass` state its meaning |
| OrdersReview.Filter | assets/js/orders-review.js:211-272 | the failing rules of an order, kept in that order; `FilterCount` and `FilterOrdered` state its meaning |
| OrdersReview.Fails | assets/js/orders-review.js:211-272 | the condition of each rule: the PO rule needs `on_account` and an empty PO, the address rules an empty field, the shipment rule no pick-up and no type |
| OrdersReview.Message | assets/js/orders-review.js:215-266 | the error line each rule adds; `MessageNonEmpty` states that it is never empty |
| OrdersReview.FilterOrdered | assets/js/orders-review.js:211-272 | error lines follow the rule order |
| OrdersReview.LineOnce | assets/js/orders-review.js:211-272 | each field contributes exactly one error line when its rule fails and none otherwise |
| OrdersReview.PoLineIff | assets/js/orders-review.js:214-219 | the PO line appears exactly when payment is `on_account` and the PO number is empty |
| OrdersReview.AddressLineOnce | assets/js/orders-review.js:222-272 | first name, address, city, state and zip each add one line exactly when empty |
| OrdersReview.ShipmentOnlyWithoutPickUp | assets/js/orders-review.js:254-263 | the shipment-type line appears exactly when pick-up is not checked and no type is chosen |
| OrdersReview.FlaggedInOrder | assets/js/orders-review.js:211-272 | the flagged fields are in source order, without repeats |
| OrdersReview.MessageNonEmpty | assets/js/orders-review.js:215-266 | every error line has text |
| OrdersReview.ErrorTextEmptyIff | assets/js/orders-review.js:309 | the error string is empty exactly when no line was added |
| OrdersReview.SubmitIffAllPass | assets/js/orders-review.js:211-319 | the error string is empty exactly when every rule passes |
| OrdersReview.ReviewForm.constructor | assets/js/orders-review.js:146 | a fresh form has no highlights, no armed timer, errors hidden and no submission |
| OrdersReview.ReviewForm.SetStyle | assets/js/orders-review.js:216 | `attr('style', s)` on an existing field sets only its style |
| OrdersReview.ReviewForm.Check | assets/js/orders-review.js:214-220 | one rule appends its line when it fails and sets the field's highlight or clears it |
| OrdersReview.ReviewForm.CheckAddress | assets/js/orders-review.js:214-252 | the PO and address rules append their failing lines in order and style their fields |
| OrdersReview.ReviewForm.DoExtraChecking | assets/js/orders-review.js:211-320 | all rules run, every checked field is styled, the button shows the validating label, and one more timer is armed with the failing fields behind those already armed |
| OrdersReview.ReviewForm.Fire | assets/js/orders-review.js:309-319 | the oldest armed timer fires: its errors are shown with the button label reset, or the form is submitted once more when there are none |
| OrdersReview.ReviewForm.SaveTwice | assets/js/orders-review.js:211-320 | two presses within the delay arm two timers: a passing form is submitted twice, a failing one shows its errors twice |
| OrdersReview.MarkMeaning | assets/js/orders-review.js:216-218 | a failing field gets the highlight and a passing one is cleared; other fields keep their style |
| OrdersReview.KeyAllowed | assets/js/orders-review.js:837-855 | the keydown filter of the material fields; `KeyAllowedIff` states it |
| OrdersReview.Mark | assets/js/orders-review.js:216-218 | the style one rule writes on its field; `MarkMeaning` states it |
| OrdersReview.CheckedStylesMeaning | assets/js/orders-review.js:211-272 | every checked field ends highlighted exactly when its rule fails; the shipment type is untouched under pick-up |
| OrdersReview.AddressStylesMeaning | assets/js/orders-review.js:214-252 | the same for the PO and address fields |
| OrdersReview.KeyAllowedIff | assets/js/orders-review.js:837-855 | a key passes exactly when it is whitelisted, a Ctrl/Cmd shortcut, a navigation key, an unshifted top-row digit or a numpad digit |
| OrdersReview.ShiftedDigitBlocked | assets/js/orders-review.js:851-853 | Shift with a top-row digit is blocked while Shift with a numpad digit passes |
| OrderLists.WithoutMeaning | assets/js/orders-review.js:15-22 | removing position `p` drops the row at index `p - 1` when there is one and otherwise removes nothing |
| OrderLists.Without | assets/js/orders-review.js:15-22 | the rows left by `removeLine_Notifications(p)`; `WithoutMeaning` states it |
| OrderLists.RemoveRow | assets/js/orders-review.js:15-22 | removing row `i` keeps every other row, in order |
| OrderLists.CurrentButtonRemovesOwnRow | assets/js/orders-review.js:15-59 | while the positions are current, a row's button removes exactly that row |
| OrderLists.StaleButtonRemovesNothing | assets/js/orders-review.js:15-59 | after the first of two rows is removed, the second row's button removes nothing |
| OrderLists.StaleButtonRemovesOther | assets/js/orders-review.js:15-59 | after the first of three rows is removed, the second row's button removes the third |
| OrderLists.Emails | assets/js/orders-review.js:27-30 | one collected address per row |
| OrderLists.EmailsMeaning | assets/js/orders-review.js:27-30 | the snapshot holds each row's address at its index |
| OrderLists.WantedMeaning | assets/js/orders-review.js:35-50 | an address is wanted exactly when some non-empty source maps to it (jennifer@ for "Richmond Warehouse", angela@ otherwise) |
| OrderLists.Wanted | assets/js/orders-review.js:35-50 | the address each non-empty source asks for, in order; `WantedMeaning` states it |
| OrderLists.NotInMeaning | assets/js/orders-review.js:38-44 | kept exactly when wanted and not in the snapshot |
| OrderLists.NotIn | assets/js/orders-review.js:38-44 | the wanted addresses missing from the snapshot; `NotInMeaning` states it |
| OrderLists.AddedMeaning | assets/js/orders-review.js:24-53 | an address is added exactly when it is missing from the snapshot and some source wants it |
| OrderLists.Added | assets/js/orders-review.js:24-53 | the addresses `checkEmailNotifications` appends; `AddedMeaning` states it |
| OrderLists.WantedTwice | assets/js/orders-review.js:35-50 | the same non-empty source twice wants its contact twice |
| OrderLists.NotInNothing | assets/js/orders-review.js:38-44 | against an empty snapshot every wanted address stays |
| OrderLists.RepeatedContact | assets/js/orders-review.js:24-53 | two Richmond sources on an empty list add jennifer@ twice |
| OrderLists.FreshMeaning | assets/js/orders-review.js:24-53 | the corrected additions have no repeats, none is already listed, and every wanted address ends up listed |
| OrderLists.AddedOnceMeaning | assets/js/orders-review.js:24-53 | the corrected check adds each needed contact once and leaves every non-empty source's contact listed |
| OrderLists.NewRows | assets/js/orders-review.js:55-59 | one new row per added address |
| OrderLists.NewRowsMeaning | assets/js/orders-review.js:55-59 | each appended row is ticked, has its address and the next position |
| OrderLists.NotificationList.constructor | assets/js/orders-review.js:55-59 | the table starts with the server-rendered rows |
| OrderLists.NotificationList.AddEmailLine | assets/js/orders-review.js:55-59 | a ticked row with the address and position count + 1 is appended |
| OrderLists.NotificationList.RemoveLine | assets/js/orders-review.js:15-22 | the loop removes exactly what `Without` says |
| OrderLists.NotificationList.ClickRemove | assets/js/orders-review.js:15-58 | a row's button removes the row at the position it was created with |
| OrderLists.NotificationList.ClickRemoveFixed | assets/js/orders-review.js:15-58 | corrected: a row's button removes that row |
| OrderLists.NotificationList.AddContact | assets/js/orders-review.js:35-50 | one source appends its contact's row when the source is non-empty and the contact is not listed |
| OrderLists.NotificationList.CheckEmailNotifications | assets/js/orders-review.js:24-53 | appends a row for every address that `Added` gives, against the snapshot taken before the loop |
| OrderLists.NotificationList.CheckEmailNotificationsFixed | assets/js/orders-review.js:24-53 | corrected: checks each source against the current list, so each needed contact is appended once |
| OrderLists.AddedRowsStep | assets/js/orders-review.js:34-51 | one loop step keeps the appended rows equal to the additions so far |
| OrderLists.FreshRowsStep | assets/js/orders-review.js:34-51 | one corrected step keeps the rows and the listed addresses in step |
| OrderLists.LabelRoundTrip | assets/js/orders-review.js:389-403 | the displayed label of a source's key is the source, when it contains no underscore |
| OrderLists.LabelOf | assets/js/orders-review.js:403 | a key's label: its underscores replaced by spaces |
| OrderLists.KeyOf | assets/js/orders-review.js:389 | a source's key: its spaces replaced by underscores; `LabelRoundTrip` states the way back |
| OrderLists.KeysOf | assets/js/orders-review.js:388-395 | `selectValues` holds each selection's key in order |
| OrderLists.TextareaAbsent | assets/js/orders-review.js:392 | a source without a rendered textarea reads as "" |
| OrderLists.TextareaText | assets/js/orders-review.js:392 | the text of the first rendered textarea of a key, or "" when there is none; `TextareaAbsent` states the missing case |
| OrderLists.NoteMeaning | assets/js/orders-review.js:391-393 | recording a comment sets that key, adds it to the order if new, and changes no other key |
| OrderLists.RememberMeaning | assets/js/orders-review.js:387-396 | after the first loop, the remembered keys are the old ones plus the non-empty selections; each selection holds its textarea text and the others are unchanged |
| OrderLists.Remember | assets/js/orders-review.js:387-396 | the memory after the first loop; `RememberMeaning` states it |
| OrderLists.ReselectedSourceForgets | assets/js/orders-review.js:391-393 | a selected source whose textarea is not on the page has its remembered comment reset to "" |
| OrderLists.RowsSound | assets/js/orders-review.js:398-405 | every rendered row is a remembered, selected key shown with its label and its comment |
| OrderLists.RowsComplete | assets/js/orders-review.js:398-405 | every remembered, selected key is rendered |
| OrderLists.RowsDistinct | assets/js/orders-review.js:398-405 | no key is rendered twice |
| OrderLists.RowsMeaning | assets/js/orders-review.js:398-405 | the rendered rows are exactly the remembered selected keys, once each |
| OrderLists.Rows | assets/js/orders-review.js:398-405 | the rows the second loop renders; `RowsMeaning` states it |
| OrderLists.SourceComments.constructor | assets/js/orders-review.js:577 | `sourceArray` starts empty |
| OrderLists.SourceComments.Edit | assets/js/orders-review.js:403 | typing into a textarea changes only its text |
| OrderLists.SourceComments.UpdateShipmentComments | assets/js/orders-review.js:386-407 | the memory is updated as `Remember` says, and the body is re-rendered from it for the current selections, each comment held as text |
| OrderLists.SourceComments.RememberSelected | assets/js/orders-review.js:387-396 | the first loop returns the selection keys and records the comments |
| OrderLists.SourceComments.Render | assets/js/orders-review.js:398-405 | the second loop renders exactly the specified rows |
| OrderLists.LastSegmentOf | assets/js/orders-review.js:875-877 | the id's last `_`-separated segment is its trailing number |
| OrderLists.LastSegment | assets/js/orders-review.js:875-877 | the last `_`-separated piece of an id; `LastSegmentOf` states it |
| OrderLists.RecountBox | assets/js/orders-review.js:871-883 | the boxes are numbered 1..n in document order, and box `i` reports index `i` with its id's last segment |

## Left out

- Events, bubbling, `preventDefault` and `stopPropagation`: each handler is a method; what the DOM decides (a target inside a control, a related target inside a trigger, a focused trigger) is a boolean parameter. On the top-level triggers the listeners one event reaches are composed (`TriggerKeyPress`, `MenuKeyPress`, `MenuClickPress`); elsewhere, and for the focus events a focus change raises, they are not.
- Focus changes: returned as a value (`Focus`, a target index) rather than applied to elements.
- Real time, `setTimeout` delays and `Date.now()`: timeouts are pending entries run by explicit `Fire` steps; the double-press clock is a parameter.
- `Number(...)` on data attributes: attributes are taken as the resulting number; parsing text to numbers is not modelled.
- Expandables: `contains` and `aria-controls` lookups of the pointerdown handler are the `insideActive` parameter.
- Flyouts: the DOM tree is given as two parent arrays; `getTrigger`, the trigger's `aria-*` attributes and the submenu's first/last focusable are not modelled.
- Flyouts: the outside-pointerdown and window-blur handlers are `CloseAllExceptFamily(None)`, not separate members.
- `enhanceFlyout` (hover and keyboard on rendered submenus), `makeIcon`, `attachNav` navigation, `renderAll`/`setMenu`: not modelled beyond the entry's navigation target.
- Hover intent: `getItems`/`menu.id` setup and the trigger attribute removal for triggers without a menu are not modelled; ArrowUp/Down on a focused trigger report the first or last item rather than the element.
- Settings: `subscribe`/`subscribeAll` listeners other than the menu switches, `renderTable`, `list`, and the disabled cross-tab sync are not modelled.
- Settings: storage exceptions, `JSON.parse` beyond "absent, empty, malformed, parsed", and prototype keys (`hasOwnProperty`) are not modelled; a stringify/parse round trip of a boolean object is taken as exact.
- Settings.SwitchStore.Set: the lookup of the switch's checkbox is modelled as the key being among the checkboxes.
- NavHelpers.SetInboxCount: requires an integral count, because `String()` of fractional numbers is not modelled.
- Inbox badge: the `MutationObserver` and `ResizeObserver` wiring is not modelled.
- The search box's double-Enter/double-Escape wiring, `submitInput` and the form `postTo` are not modelled beyond `DoublePress` and the `Post` value.
- `sanitizeAndFormatSVG` parsing and element stripping through `DOMParser`: the sanitised SVG is a parameter; only the string-level style pruning is modelled.
- Hotbutton modal UI, tooltips ("Not set") and `checkHotkeyConfig`: not modelled.
- `getIconMarkup`'s icon tables are a map parameter.
- Theme switching, the settings menu, `positionBtn`/`positionCol` geometry and other UI code outside the listed features: not modelled.
- orders-review AJAX calls (`validateForm`, `yes`, `updateRow`, `deleteRow`, `addNewRow`, `removePackage`, `getSourceComment`, `getShipmentDescription`, `updateFixSku`, `requestShippinglabel`, `getLevel2Info`, `updateBoxNumber`): server-side behaviour is not visible; `RecountBox` records its `updateBoxNumber` calls as values.
- Floating-point totals, prices, weights and `toFixed` formatting in orders-review: not modelled.
- The two-second validation delay is the separate `Fire` step; the form submit is the `submits` count.
- `sourceArray` is a plain object: keys that look like integers iterate first in JavaScript, and `__proto__` is special; the model iterates keys in insertion order and treats every key alike.
- A `.val()` returning null, jQuery selector special characters in textarea ids, and the duplicated `class` attribute on added source rows: not modelled; the list of select values is the input.
- Server-rendered notification rows are given as the initial rows; user typing into rows is not modelled except through `Edit` for comments.
- The commented-out rules in `doExtraChecking` (material amounts, invoice number, shipment description) are not part of the code and are not modelled.
- CloseAllMenus: also removes `open` from every `.has-submenu.open` flyout and sets its `aria-expanded` to false (nav-ux.js:2684-2687); the flyouts are a separate `FlyoutTree`, so this class does not capture that part.
- ClickToggle: through `closeAllMenus` a toggle also closes every open flyout, which this class does not capture, as for `CloseAllMenus`.
- UpdateShipmentComments: the source pastes each comment unescaped into `<textarea>…</textarea>` HTML (and each label into a cell), so a comment holding an entity such as `&amp;`, a `</textarea>` or a leading newline does not read back as typed; the model stores and reads back comments as plain text.
- TextareaText: reads back the stored text; the HTML-parsing difference described for `UpdateShipmentComments` is not modelled.
- Step: `o[k]` in the source also finds inherited members (`constructor`, `toString`) and, on a string, its characters by digit keys and its `length`; the model reaches only own keys of objects and gives undefined below a string.
- MissingSegment: holds for paths through own object keys only, as `Step` models them; `getByPath({a: "xy"}, "a.length")` is 2 in the source.
- VariantClass: `VARIANT_CLASS[variant]` also finds inherited members for variants such as `constructor`; only the two own keys are modelled.

## Findings

| source | as written | input that shows it | evidently intended | confidence | as-written member | corrected member |
|---|---|---|---|---|---|---|
| assets/js/orders-review.js:15-22 | each remove button passes the position the row had when it was created, and the handler removes whichever row is currently at that position | two rows at positions 1 and 2; remove row 1; press the remaining row's button (position 2): nothing is removed | a button removes its own row | high, not executed | OrderLists.StaleButtonRemovesNothing | OrderLists.NotificationList.ClickRemoveFixed |
| ExtraNav/nav-ux.js:36-43 | Escape calls `closeAll()`, which empties `active`, and then reads the last element of the now-empty set | one open control, then Escape: the focus goes nowhere | focus returns to the most recently opened control | high, not executed | Expandables.Registry.OnEscape | Expandables.Registry.OnEscapeRestoringFocus |
| ExtraNav/nav-ux.js:1240 | ArrowUp computes `(i - 1 + n) % n` with `i = -1` when no item has focus | a three-item menu with no focused item: ArrowUp focuses item 1, the second-to-last | ArrowUp from no item focuses the last item, as on the trigger | medium, not executed | HoverIntent.ItemFocusUpFromNone | HoverIntent.ItemFocusFixed |
| ExtraNav/nav-ux.js:1279-1297 | `close` overwrites the stored close handle without clearing the earlier close timeout, and `open` cancels only the latest one | focusout then pointerleave on a flyout, then pointerenter: the first close timeout still fires after the open and shuts the flyout under the pointer | a new timeout replaces the old one of the same kind, so re-entering keeps the flyout open | medium, not executed | Flyouts.OrphanedCloseScenario | Flyouts.FixedCloseScenario |
| assets/js/orders-review.js:24-53 | each source is checked against the address list collected before the loop | two source selects both set to "Richmond Warehouse" and no jennifer@ row: two jennifer@ rows are appended | each needed contact is added once | medium, not executed | OrderLists.RepeatedContact | OrderLists.NotificationList.CheckEmailNotificationsFixed |
| ExtraNav/nav-ux.js:1223-2703 | the hover-intent keydown and the toggle keydown are both on the trigger, and the toggle runs second on an event the first already handled | a focused, collapsed trigger and Enter: the first listener expands it and focuses its first item, then `toggle()` reads it as open and collapses every menu | Enter or Space on a trigger opens its menu with the focus on the first item | medium, not executed | HoverIntent.TriggerBar.TriggerKeyPress | HoverIntent.TriggerBar.TriggerKeyPressFixed |
| ExtraNav/nav-ux.js:1249-2701 | the menu sits inside its trigger, so a click on a menu item, which closes the menu, bubbles to the trigger's click toggle | an open menu and a click on one of its items: the menu is collapsed and then expanded again | a click on a menu item closes the menu | medium, not executed | HoverIntent.TriggerBar.MenuClickPress | HoverIntent.TriggerBar.MenuClick |
| ExtraNav/nav-ux.js:1217-1246 | a menu keydown bubbles to the trigger's keydown, which handles Home and End as moves between triggers | focus on an item of the second trigger's menu and Home: the first item is focused, then the first trigger | Home and End inside a menu go to its first and last item | medium, not executed | HoverIntent.TriggerBar.MenuKeyPress | HoverIntent.TriggerBar.MenuKeyDown |
| ExtraNav/nav-ux.js:1279-1288 | `open` overwrites the stored open handle without clearing the earlier open timeout | pointerenter and then focusin on a closed flyout, then a press outside: the flyout closes and the first open timeout reopens it | a new open timeout replaces the old one, so the press outside leaves the flyout closed | medium, not executed | Flyouts.OrphanedOpenScenario | Flyouts.FixedOpenScenario |
