/** Hover-intent menus for the top-level triggers `.iconDiv[data-hasmenu]`
    (ExtraNav/nav-ux.js, `initHoverIntent`), and the click toggle that a
    later block of the same file wires onto the same triggers.

    Triggers are the indices 0..n-1 in document order. `aria-expanded` is
    a bool array; the per-trigger timer record `{openT, closeT}` is a pair
    of arrays holding, for each trigger, the delay of its pending open or
    close timeout, if one is pending. Firing a timeout is its own event. */
module HoverIntent {
  import opened Text

  const OpenDelay: real := 140.0
  const CloseDelay: real := 270.0

  /** `Number(t.dataset.openDelay) || delay || OPEN_DELAY` (and the same
      for closing): the data attribute wins when it is a nonzero number,
      then the argument, then the default. A missing attribute or
      argument reads as NaN. */
  function ScheduledDelay(attr: JsNumber, arg: JsNumber, default: real): (d: JsNumber)
    ensures Truthy(attr) ==> d == attr
    ensures !Truthy(attr) && Truthy(arg) ==> d == arg
    ensures !Truthy(attr) && !Truthy(arg) ==> d == Finite(default)
  {
    OrElse(OrElse(attr, arg), Finite(default))
  }

  /** With the built-in defaults the chosen delay is never NaN or zero:
      a zero or unparsable attribute falls back. */
  lemma ScheduledDelayNonzero(attr: JsNumber, arg: JsNumber, default: real)
    requires default == OpenDelay || default == CloseDelay
    ensures Truthy(ScheduledDelay(attr, arg, default))
    ensures attr == Finite(0.0) && !Truthy(arg) ==> ScheduledDelay(attr, arg, default) == Finite(default)
  {
  }

  /** The keys the handlers distinguish. */
  datatype Key = Enter | Space | ArrowDown | ArrowUp | ArrowLeft | ArrowRight | Home | End | Escape | OtherKey

  /** Where a key handler moves the focus. */
  datatype Focus = Stay | FocusTrigger(index: nat) | FocusFirstItem | FocusLastItem | FocusItem(item: nat)

  /** `(idx + 1) % triggers.length`. */
  function NextIndex(idx: nat, n: nat): (r: nat)
    requires idx < n
    ensures r < n
    ensures r == if idx == n - 1 then 0 else idx + 1
  {
    (idx + 1) % n
  }

  /** `(idx - 1 + triggers.length) % triggers.length`; both operands are
      non-negative, so JavaScript's `%` agrees with Dafny's. */
  function PrevIndex(idx: nat, n: nat): (r: nat)
    requires idx < n
    ensures r < n
    ensures r == if idx == 0 then n - 1 else idx - 1
  {
    (idx - 1 + n) % n
  }

  /** Moving right and then left (or left and then right) returns to the
      same trigger: the wrap-around is a cyclic permutation. */
  lemma NextPrevInverse(idx: nat, n: nat)
    requires idx < n
    ensures PrevIndex(NextIndex(idx, n), n) == idx
    ensures NextIndex(PrevIndex(idx, n), n) == idx
  {
  }

  /** The trigger that ArrowRight, ArrowLeft, Home and End focus, from the
      trigger at `idx`. */
  function TriggerFocus(key: Key, idx: nat, n: nat): (f: Focus)
    requires idx < n
    ensures f.Stay? <==> key !in {ArrowRight, ArrowLeft, Home, End}
    ensures f.FocusTrigger? ==> f.index < n
    ensures key == ArrowRight ==> f == FocusTrigger(if idx == n - 1 then 0 else idx + 1)
    ensures key == ArrowLeft ==> f == FocusTrigger(if idx == 0 then n - 1 else idx - 1)
    ensures key == Home ==> f == FocusTrigger(0)
    ensures key == End ==> f == FocusTrigger(n - 1)
  {
    match key
    case ArrowRight => FocusTrigger(NextIndex(idx, n))
    case ArrowLeft => FocusTrigger(PrevIndex(idx, n))
    case Home => FocusTrigger(0)
    case End => FocusTrigger(n - 1)
    case _ => Stay
  }

  /** Focus movement among the `count` items of an open menu, from the
      item at `i` (-1 when the focus is on none of them). ArrowDown and
      ArrowUp wrap around; with no items nothing is focused. For `i == -1`
      and one item, JavaScript computes `-1 % 1 == -0`, which indexes the
      same first item as Dafny's `0`. */
  function ItemFocus(key: Key, i: int, count: nat): (f: Focus)
    requires -1 <= i < count
    ensures f.FocusItem? ==> f.item < count
    ensures count == 0 ==> f.Stay?
    ensures count > 0 && key == ArrowDown ==> f == FocusItem(if i == count - 1 then 0 else i + 1)
    ensures count > 0 && key == ArrowUp ==>
      f == FocusItem(if i > 0 then i - 1 else if i == 0 then count - 1 else if count == 1 then 0 else count - 2)
    ensures count > 0 && key == Home ==> f == FocusItem(0)
    ensures count > 0 && key == End ==> f == FocusItem(count - 1)
  {
    if count == 0 then Stay
    else
      match key
      case ArrowDown => WrapBelowTwice(i + 1, count); FocusItem((i + 1) % count)
      case ArrowUp => WrapBelowTwice(i - 1 + count, count); FocusItem((i - 1 + count) % count)
      case Home => FocusItem(0)
      case End => FocusItem(count - 1)
      case _ => Stay
  }

  /** `a % m` for `-m <= a < 2 * m`. */
  lemma WrapBelowTwice(a: int, m: int)
    requires m > 0 && -m <= a < 2 * m
    ensures a % m == if a < 0 then a + m else if a < m then a else a - m
  {
    if a >= m {
      assert a == (a - m) + m * 1;
    } else if a < 0 {
      assert a == (a + m) + m * -1;
    }
  }

  /** With the focus on no item and at least two items, ArrowUp lands on
      the next-to-last item rather than the last one. */
  lemma ItemFocusUpFromNone(count: nat)
    requires count >= 2
    ensures ItemFocus(ArrowUp, -1, count) == FocusItem(count - 2)
    ensures ItemFocus(ArrowDown, -1, count) == FocusItem(0)
  {
  }

  /** Menu-item focus movement with ArrowUp from no item going to the last
      item, mirroring ArrowDown going to the first. */
  function ItemFocusFixed(key: Key, i: int, count: nat): (f: Focus)
    requires -1 <= i < count
    ensures f.FocusItem? ==> f.item < count
    ensures count == 0 ==> f.Stay?
    ensures count > 0 && key == ArrowUp && i == -1 ==> f == FocusItem(count - 1)
    ensures key != ArrowUp || i != -1 ==> f == ItemFocus(key, i, count)
  {
    if count > 0 && key == ArrowUp && i == -1 then FocusItem(count - 1)
    else ItemFocus(key, i, count)
  }

  /** With the fix, ArrowUp and ArrowDown are inverse moves on the items,
      and from no item they reach the two ends. */
  lemma ItemFocusFixedInverse(i: int, count: nat)
    requires -1 <= i < count
    ensures ItemFocusFixed(ArrowDown, i, count).FocusItem? <==> count > 0
    ensures count > 0 && i == -1 ==>
      ItemFocusFixed(ArrowDown, i, count) == FocusItem(0) && ItemFocusFixed(ArrowUp, i, count) == FocusItem(count - 1)
    ensures count > 0 && i >= 0 ==>
      ItemFocusFixed(ArrowUp, ItemFocusFixed(ArrowDown, i, count).item, count) == FocusItem(i)
    ensures count > 0 && i >= 0 ==>
      ItemFocusFixed(ArrowDown, ItemFocusFixed(ArrowUp, i, count).item, count) == FocusItem(i)
  {
  }

  /** `seq(n, i => i == t)`: only trigger `t` expanded. */
  function OnlyExpanded(n: nat, t: nat): (s: seq<bool>)
    ensures |s| == n
    ensures forall i :: 0 <= i < n ==> s[i] == (i == t)
  {
    seq(n, i => i == t)
  }

  class TriggerBar {
    /** Number of triggers. */
    const n: nat
    /** `Number(t.dataset.openDelay)` and `Number(t.dataset.closeDelay)`. */
    const openAttr: seq<JsNumber>
    const closeAttr: seq<JsNumber>
    /** `aria-expanded` of each trigger. */
    const expanded: array<bool>
    /** The delay of the pending `openT` / `closeT` timeout, if any. */
    const openT: array<Option<JsNumber>>
    const closeT: array<Option<JsNumber>>

    ghost predicate Valid()
      reads this
    {
      && expanded.Length == n && openT.Length == n && closeT.Length == n
      && openT != closeT
      && |openAttr| == n && |closeAttr| == n
    }

    /** At most one top-level trigger is expanded. */
    ghost predicate AtMostOneExpanded()
      reads this, expanded
    {
      forall i, j :: 0 <= i < expanded.Length && 0 <= j < expanded.Length && expanded[i] && expanded[j] ==> i == j
    }

    /** No trigger has an open and a close timeout pending together. */
    ghost predicate NeverBothPending()
      reads this, openT, closeT
    {
      forall i :: 0 <= i < openT.Length && i < closeT.Length ==> openT[i].None? || closeT[i].None?
    }

    ghost predicate Inv()
      reads this, expanded, openT, closeT
    {
      Valid() && AtMostOneExpanded() && NeverBothPending()
    }

    /** Page load: every trigger collapsed, no timeout pending. */
    constructor (openAttrs: seq<JsNumber>, closeAttrs: seq<JsNumber>)
      requires |openAttrs| == |closeAttrs|
      ensures Inv() && n == |openAttrs| && openAttr == openAttrs && closeAttr == closeAttrs
      ensures fresh(expanded) && fresh(openT) && fresh(closeT)
      ensures forall i :: 0 <= i < n ==> !expanded[i] && openT[i].None? && closeT[i].None?
    {
      n := |openAttrs|;
      openAttr, closeAttr := openAttrs, closeAttrs;
      expanded := new bool[|openAttrs|](_ => false);
      openT := new Option<JsNumber>[|openAttrs|](_ => None);
      closeT := new Option<JsNumber>[|openAttrs|](_ => None);
    }

    /** `clearTimers(t)`: cancel both pending timeouts of `t`. */
    method ClearTimers(t: nat)
      requires Inv() && t < n
      modifies openT, closeT
      ensures Inv()
      ensures openT[..] == old(openT[..])[t := None]
      ensures closeT[..] == old(closeT[..])[t := None]
    {
      openT[t] := None;
      closeT[t] := None;
    }

    /** `forceCloseTrigger(t)`: cancel the timeouts of `t` and collapse it. */
    method ForceCloseTrigger(t: nat)
      requires Inv() && t < n
      modifies expanded, openT, closeT
      ensures Inv()
      ensures expanded[..] == old(expanded[..])[t := false]
      ensures openT[..] == old(openT[..])[t := None]
      ensures closeT[..] == old(closeT[..])[t := None]
    {
      ClearTimers(t);
      expanded[t] := false;
    }

    /** `triggers.forEach(x => { if (x !== t) forceCloseTrigger(x); })`:
        every other trigger ends collapsed with no timeout pending, and
        `t` itself is untouched. */
    method ForceCloseOthers(t: nat)
      requires Inv() && t < n
      modifies expanded, openT, closeT
      ensures Inv()
      ensures forall i :: 0 <= i < n && i != t ==> !expanded[i] && openT[i].None? && closeT[i].None?
      ensures expanded[t] == old(expanded[t]) && openT[t] == old(openT[t]) && closeT[t] == old(closeT[t])
    {
      var x := 0;
      while x < n
        invariant 0 <= x <= n
        invariant Inv()
        invariant forall i :: 0 <= i < x && i != t ==> !expanded[i] && openT[i].None? && closeT[i].None?
        invariant expanded[t] == old(expanded[t]) && openT[t] == old(openT[t]) && closeT[t] == old(closeT[t])
      {
        if x != t {
          ForceCloseTrigger(x);
        }
        x := x + 1;
      }
    }

    /** `setExpanded(t, on)`. Opening closes every other trigger and kills
        its timeouts first; closing cancels the timeouts of `t`. */
    method SetExpanded(t: nat, on: bool)
      requires Inv() && t < n
      modifies expanded, openT, closeT
      ensures Inv()
      ensures on ==> expanded[..] == OnlyExpanded(n, t)
      ensures on ==> forall i :: 0 <= i < n && i != t ==> openT[i].None? && closeT[i].None?
      ensures on ==> openT[t] == old(openT[t]) && closeT[t] == old(closeT[t])
      ensures !on ==> expanded[..] == old(expanded[..])[t := false]
      ensures !on ==> openT[..] == old(openT[..])[t := None] && closeT[..] == old(closeT[..])[t := None]
    {
      if on {
        ForceCloseOthers(t);
      } else {
        ClearTimers(t);
      }
      expanded[t] := on;
    }

    /** `scheduleOpen(t, delay)`: cancel both timeouts, then arm the open
        timeout alone. */
    method ScheduleOpen(t: nat, arg: JsNumber)
      requires Inv() && t < n
      modifies openT, closeT
      ensures Inv()
      ensures openT[..] == old(openT[..])[t := Some(ScheduledDelay(openAttr[t], arg, OpenDelay))]
      ensures closeT[..] == old(closeT[..])[t := None]
    {
      ClearTimers(t);
      openT[t] := Some(ScheduledDelay(openAttr[t], arg, OpenDelay));
    }

    /** `scheduleClose(t, delay)`: cancel both timeouts, then arm the close
        timeout alone. */
    method ScheduleClose(t: nat, arg: JsNumber)
      requires Inv() && t < n
      modifies openT, closeT
      ensures Inv()
      ensures closeT[..] == old(closeT[..])[t := Some(ScheduledDelay(closeAttr[t], arg, CloseDelay))]
      ensures openT[..] == old(openT[..])[t := None]
    {
      ClearTimers(t);
      closeT[t] := Some(ScheduledDelay(closeAttr[t], arg, CloseDelay));
    }

    /** The open timeout of `t` fires: `setExpanded(t, true)`. */
    method FireOpen(t: nat)
      requires Inv() && t < n && openT[t].Some?
      modifies expanded, openT, closeT
      ensures Inv()
      ensures expanded[..] == OnlyExpanded(n, t)
      ensures forall i :: 0 <= i < n ==> openT[i].None? && closeT[i].None?
    {
      openT[t] := None;
      SetExpanded(t, true);
    }

    /** The close timeout of `t` fires: `setExpanded(t, false)`. */
    method FireClose(t: nat)
      requires Inv() && t < n && closeT[t].Some?
      modifies expanded, openT, closeT
      ensures Inv()
      ensures expanded[..] == old(expanded[..])[t := false]
      ensures openT[..] == old(openT[..]) && closeT[..] == old(closeT[..])[t := None]
    {
      closeT[t] := None;
      SetExpanded(t, false);
    }

    /** pointerenter on trigger `t`: close the others at once, then
        schedule the opening of `t`. */
    method PointerEnter(t: nat)
      requires Inv() && t < n
      modifies expanded, openT, closeT
      ensures Inv()
      ensures forall i :: 0 <= i < n && i != t ==> !expanded[i] && openT[i].None? && closeT[i].None?
      ensures expanded[t] == old(expanded[t])
      ensures openT[t] == Some(ScheduledDelay(openAttr[t], NaN, OpenDelay)) && closeT[t].None?
    {
      ForceCloseOthers(t);
      ScheduleOpen(t, NaN);
    }

    /** pointerleave on the trigger or its menu, and focusout of the
        trigger: unless the pointer or focus moved to an element inside
        the trigger, schedule the closing of `t`. */
    method Leave(t: nat, relatedInside: bool)
      requires Inv() && t < n
      modifies openT, closeT
      ensures Inv()
      ensures relatedInside ==> openT[..] == old(openT[..]) && closeT[..] == old(closeT[..])
      ensures !relatedInside ==> openT[..] == old(openT[..])[t := None]
      ensures !relatedInside ==> closeT[..] == old(closeT[..])[t := Some(ScheduledDelay(closeAttr[t], NaN, CloseDelay))]
    {
      if !relatedInside {
        ScheduleClose(t, NaN);
      }
    }

    /** pointerenter on the menu panel of `t`: close the others, cancel any
        pending timeout of `t` and open it now. */
    method MenuPointerEnter(t: nat)
      requires Inv() && t < n
      modifies expanded, openT, closeT
      ensures Inv()
      ensures expanded[..] == OnlyExpanded(n, t)
      ensures forall i :: 0 <= i < n ==> openT[i].None? && closeT[i].None?
    {
      ForceCloseOthers(t);
      ClearTimers(t);
      SetExpanded(t, true);
    }

    /** focusin on trigger `t`: close the others and open `t` without
        delay. A timeout of `t` itself that was pending stays pending. */
    method FocusIn(t: nat)
      requires Inv() && t < n
      modifies expanded, openT, closeT
      ensures Inv()
      ensures expanded[..] == OnlyExpanded(n, t)
      ensures forall i :: 0 <= i < n && i != t ==> openT[i].None? && closeT[i].None?
      ensures openT[t] == old(openT[t]) && closeT[t] == old(closeT[t])
    {
      ForceCloseOthers(t);
      SetExpanded(t, true);
    }

    /** keydown on trigger `t`, as the hover-intent block handles it.
        Enter, Space, ArrowDown and ArrowUp open the menu when the trigger
        itself has the focus and move the focus to its first (last, for
        ArrowUp) item; ArrowLeft/ArrowRight/Home/End move to another
        trigger; Escape closes the menu and keeps the focus on the
        trigger. Nothing else changes any state. */
    method TriggerKeyDown(t: nat, key: Key, triggerFocused: bool) returns (focus: Focus)
      requires Inv() && t < n
      modifies expanded, openT, closeT
      ensures Inv()
      ensures triggerFocused && key in {Enter, Space, ArrowDown, ArrowUp} ==>
        && expanded[..] == OnlyExpanded(n, t)
        && (forall i :: 0 <= i < n && i != t ==> openT[i].None? && closeT[i].None?)
        && openT[t] == old(openT[t]) && closeT[t] == old(closeT[t])
        && focus == (if key == ArrowUp then FocusLastItem else FocusFirstItem)
      ensures key == Escape ==>
        && expanded[..] == old(expanded[..])[t := false]
        && openT[..] == old(openT[..])[t := None] && closeT[..] == old(closeT[..])[t := None]
        && focus == FocusTrigger(t)
      ensures !(triggerFocused && key in {Enter, Space, ArrowDown, ArrowUp}) && key != Escape ==>
        && expanded[..] == old(expanded[..]) && openT[..] == old(openT[..]) && closeT[..] == old(closeT[..])
        && focus == TriggerFocus(key, t, n)
    {
      focus := Stay;
      if triggerFocused && key in {Enter, Space, ArrowDown, ArrowUp} {
        SetExpanded(t, true);
        focus := if key == ArrowUp then FocusLastItem else FocusFirstItem;
      } else if key in {ArrowLeft, ArrowRight, Home, End} {
        focus := TriggerFocus(key, t, n);
      } else if key == Escape {
        SetExpanded(t, false);
        focus := FocusTrigger(t);
      }
    }

    /** keydown inside the menu of `t`, whose focused item is `i` (-1 when
        none) of `count`: arrows, Home and End move among the items,
        ArrowLeft/ArrowRight move to the neighbouring trigger, Escape closes
        the menu, cancels its timeouts and refocuses the trigger. No other
        key changes any state. */
    method MenuKeyDown(t: nat, key: Key, i: int, count: nat) returns (focus: Focus)
      requires Inv() && t < n && -1 <= i < count
      modifies expanded, openT, closeT
      ensures Inv()
      ensures key == Escape ==>
        && expanded[..] == old(expanded[..])[t := false]
        && openT[..] == old(openT[..])[t := None] && closeT[..] == old(closeT[..])[t := None]
        && focus == FocusTrigger(t)
      ensures key != Escape ==>
        expanded[..] == old(expanded[..]) && openT[..] == old(openT[..]) && closeT[..] == old(closeT[..])
      ensures key in {ArrowDown, ArrowUp, Home, End} ==> focus == ItemFocus(key, i, count)
      ensures key in {ArrowLeft, ArrowRight} ==> focus == TriggerFocus(key, t, n)
      ensures key in {Enter, Space, OtherKey} ==> focus == Stay
    {
      focus := Stay;
      if key in {ArrowDown, ArrowUp, Home, End} {
        focus := ItemFocus(key, i, count);
      } else if key == Escape {
        SetExpanded(t, false);
        focus := FocusTrigger(t);
      } else if key in {ArrowLeft, ArrowRight} {
        focus := TriggerFocus(key, t, n);
      }
    }

    /** A click inside the menu of `t`: on a menu item (or a link) it
        closes the menu and cancels its timeouts; anywhere else it changes
        nothing. */
    method MenuClick(t: nat, onItem: bool)
      requires Inv() && t < n
      modifies expanded, openT, closeT
      ensures Inv()
      ensures onItem ==>
        && expanded[..] == old(expanded[..])[t := false]
        && openT[..] == old(openT[..])[t := None] && closeT[..] == old(closeT[..])[t := None]
      ensures !onItem ==>
        expanded[..] == old(expanded[..]) && openT[..] == old(openT[..]) && closeT[..] == old(closeT[..])
    {
      if onItem {
        SetExpanded(t, false);
      }
    }

    /** The document-wide pointerdown handler: a press outside every
        trigger force-closes all of them. */
    method OutsidePointerDown(onTrigger: bool)
      requires Inv()
      modifies expanded, openT, closeT
      ensures Inv()
      ensures onTrigger ==> expanded[..] == old(expanded[..]) && openT[..] == old(openT[..]) && closeT[..] == old(closeT[..])
      ensures !onTrigger ==> forall i :: 0 <= i < n ==> !expanded[i] && openT[i].None? && closeT[i].None?
    {
      if !onTrigger {
        var x := 0;
        while x < n
          invariant 0 <= x <= n
          invariant Inv()
          invariant forall i :: 0 <= i < x ==> !expanded[i] && openT[i].None? && closeT[i].None?
        {
          ForceCloseTrigger(x);
          x := x + 1;
        }
      }
    }

    /** `NavUX.closeAllMenus` as far as top-level triggers go: every
        expanded trigger is collapsed; timeouts are not touched. The same
        function also closes every open `.has-submenu` flyout, which this
        class does not hold. */
    method CloseAllMenus()
      requires Inv()
      modifies expanded
      ensures Inv()
      ensures forall i :: 0 <= i < n ==> !expanded[i]
    {
      var x := 0;
      while x < n
        invariant 0 <= x <= n
        invariant Inv()
        invariant forall i :: 0 <= i < x ==> !expanded[i]
      {
        expanded[x] := false;
        x := x + 1;
      }
    }

    /** `toggle()` of the later block, run by a click on the trigger:
        remember whether `t` was open, close all menus, then set `t` to
        the opposite. */
    method ClickToggle(t: nat)
      requires Inv() && t < n
      modifies expanded
      ensures Inv()
      ensures expanded[..] == if old(expanded[t]) then seq(n, _ => false) else OnlyExpanded(n, t)
    {
      var isOpen := expanded[t];
      CloseAllMenus();
      expanded[t] := !isOpen;
    }

    /** keydown on trigger `t`, as the later block handles it: Enter and
        Space run `toggle()`, Escape only collapses `t`. */
    method ToggleKeyDown(t: nat, key: Key)
      requires Inv() && t < n
      modifies expanded
      ensures Inv()
      ensures key in {Enter, Space} ==>
        expanded[..] == if old(expanded[t]) then seq(n, _ => false) else OnlyExpanded(n, t)
      ensures key == Escape ==> expanded[..] == old(expanded[..])[t := false]
      ensures key !in {Enter, Space, Escape} ==> expanded[..] == old(expanded[..])
    {
      if key in {Enter, Space} {
        ClickToggle(t);
      } else if key == Escape {
        expanded[t] := false;
      }
    }

    // ------------------------------------------------------------ whole events

    /** A keydown whose target is trigger `t`: the hover-intent listener
        runs, then the later block's listener on the same element. Enter
        or Space on the focused trigger first opens the menu and moves the
        focus into it, and then `toggle()` reads the trigger as open and
        closes every menu again: the focus ends inside a collapsed menu.
        Its own timers are kept, so an open timer still armed expands it
        again when it fires. */
    method TriggerKeyPress(t: nat, key: Key, triggerFocused: bool) returns (focus: Focus)
      requires Inv() && t < n
      modifies expanded, openT, closeT
      ensures Inv()
      ensures triggerFocused && key in {Enter, Space} ==>
        (forall i :: 0 <= i < n ==> !expanded[i]) && focus == FocusFirstItem
      ensures !triggerFocused && key in {Enter, Space} ==>
        && expanded[..] == (if old(expanded[t]) then seq(n, _ => false) else OnlyExpanded(n, t))
        && openT[..] == old(openT[..]) && closeT[..] == old(closeT[..]) && focus == Stay
      ensures triggerFocused && key in {ArrowDown, ArrowUp} ==>
        expanded[..] == OnlyExpanded(n, t) && focus == (if key == ArrowUp then FocusLastItem else FocusFirstItem)
      ensures triggerFocused && key in {Enter, Space, ArrowDown, ArrowUp} ==>
        && (forall i :: 0 <= i < n && i != t ==> openT[i].None? && closeT[i].None?)
        && openT[t] == old(openT[t]) && closeT[t] == old(closeT[t])
      ensures !triggerFocused && key in {ArrowDown, ArrowUp} ==>
        && expanded[..] == old(expanded[..]) && openT[..] == old(openT[..]) && closeT[..] == old(closeT[..])
        && focus == Stay
      ensures key == Escape ==>
        && expanded[..] == old(expanded[..])[t := false]
        && openT[..] == old(openT[..])[t := None] && closeT[..] == old(closeT[..])[t := None]
        && focus == FocusTrigger(t)
      ensures key in {ArrowLeft, ArrowRight, Home, End, OtherKey} ==>
        && expanded[..] == old(expanded[..]) && openT[..] == old(openT[..]) && closeT[..] == old(closeT[..])
        && focus == TriggerFocus(key, t, n)
    {
      focus := TriggerKeyDown(t, key, triggerFocused);
      ToggleKeyDown(t, key);
    }

    /** The same keydown with the later listener skipping events the
        hover-intent listener already handled (`e.defaultPrevented`):
        Enter or Space on the focused trigger leaves its menu open with
        the focus on the first item. */
    method TriggerKeyPressFixed(t: nat, key: Key, triggerFocused: bool) returns (focus: Focus)
      requires Inv() && t < n
      modifies expanded, openT, closeT
      ensures Inv()
      ensures triggerFocused && key in {Enter, Space, ArrowDown, ArrowUp} ==>
        && expanded[..] == OnlyExpanded(n, t)
        && (forall i :: 0 <= i < n && i != t ==> openT[i].None? && closeT[i].None?)
        && openT[t] == old(openT[t]) && closeT[t] == old(closeT[t])
        && focus == (if key == ArrowUp then FocusLastItem else FocusFirstItem)
      ensures !(triggerFocused && key in {ArrowDown, ArrowUp}) && key !in {Enter, Space, Escape} ==>
        && expanded[..] == old(expanded[..]) && openT[..] == old(openT[..]) && closeT[..] == old(closeT[..])
        && focus == TriggerFocus(key, t, n)
      ensures !triggerFocused && key in {Enter, Space} ==>
        && expanded[..] == (if old(expanded[t]) then seq(n, _ => false) else OnlyExpanded(n, t))
        && openT[..] == old(openT[..]) && closeT[..] == old(closeT[..]) && focus == Stay
      ensures key == Escape ==>
        && expanded[..] == old(expanded[..])[t := false]
        && openT[..] == old(openT[..])[t := None] && closeT[..] == old(closeT[..])[t := None]
        && focus == FocusTrigger(t)
    {
      focus := TriggerKeyDown(t, key, triggerFocused);
      var handled := (triggerFocused && key in {Enter, Space, ArrowDown, ArrowUp}) || key in {ArrowLeft, ArrowRight, Home, End};
      if !handled {
        ToggleKeyDown(t, key);
      }
    }

    /** A keydown inside the menu of `t`. The menu sits inside its
        trigger, so after the menu's listener the event bubbles to both
        keydown listeners of the trigger; only Escape has moved the focus
        onto the trigger by then. Home and End therefore end on the first
        or last trigger, not on an item, and Enter or Space toggles the
        menu. */
    method MenuKeyPress(t: nat, key: Key, i: int, count: nat) returns (focus: Focus)
      requires Inv() && t < n && -1 <= i < count
      modifies expanded, openT, closeT
      ensures Inv()
      ensures key in {ArrowDown, ArrowUp} ==>
        && expanded[..] == old(expanded[..]) && openT[..] == old(openT[..]) && closeT[..] == old(closeT[..])
        && focus == ItemFocus(key, i, count)
      ensures key in {ArrowLeft, ArrowRight, Home, End} ==>
        && expanded[..] == old(expanded[..]) && openT[..] == old(openT[..]) && closeT[..] == old(closeT[..])
        && focus == TriggerFocus(key, t, n)
      ensures key == Escape ==>
        && expanded[..] == old(expanded[..])[t := false]
        && openT[..] == old(openT[..])[t := None] && closeT[..] == old(closeT[..])[t := None]
        && focus == FocusTrigger(t)
      ensures key in {Enter, Space} ==>
        && expanded[..] == (if old(expanded[t]) then seq(n, _ => false) else OnlyExpanded(n, t))
        && openT[..] == old(openT[..]) && closeT[..] == old(closeT[..]) && focus == Stay
      ensures key == OtherKey ==>
        && expanded[..] == old(expanded[..]) && openT[..] == old(openT[..]) && closeT[..] == old(closeT[..])
        && focus == Stay
    {
      var inMenu := MenuKeyDown(t, key, i, count);
      var onTrigger := TriggerKeyDown(t, key, key == Escape);
      ToggleKeyDown(t, key);
      focus := if onTrigger.Stay? then inMenu else onTrigger;
    }

    /** A click inside the menu of `t`. After the menu's listener the click
        bubbles to the trigger, whose listener runs `toggle()`: a click on
        an item, which has just closed the menu, opens it again, and a
        click elsewhere in an open menu closes it. */
    method MenuClickPress(t: nat, onItem: bool)
      requires Inv() && t < n
      modifies expanded, openT, closeT
      ensures Inv()
      ensures onItem ==>
        && expanded[..] == OnlyExpanded(n, t)
        && openT[..] == old(openT[..])[t := None] && closeT[..] == old(closeT[..])[t := None]
      ensures !onItem ==>
        && expanded[..] == (if old(expanded[t]) then seq(n, _ => false) else OnlyExpanded(n, t))
        && openT[..] == old(openT[..]) && closeT[..] == old(closeT[..])
    {
      MenuClick(t, onItem);
      ClickToggle(t);
    }
  }
}
