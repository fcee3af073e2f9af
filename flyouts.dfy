/** Nested flyouts: the `.has-submenu` items below the top-level menus
    (ExtraNav/nav-ux.js, `initNested`).

    Items are the indices 0..m-1 in document order. `parent[i]` is the
    nearest enclosing `.has-submenu` item (-1 for none), which always comes
    earlier in document order; `domParent[i]` names the element directly
    containing item `i`, whose `.has-submenu` children are its horizontal
    siblings. The `open` class of each item is a flag. Each item's timer
    record `{open, close}` holds the handles of the last open and close
    timeouts it armed; `pending` maps the handle of every armed, not yet
    fired or cancelled timeout to what it will do. Handles are never
    reused, so cancelling a stale handle does nothing, as in a browser. */
module Flyouts {
  import opened Text
  import HoverIntent

  /** `parseDelay(v, fb)`: any finite number from zero up, else the
      fallback. */
  function ParseDelay(v: JsNumber, fallback: real): (d: real)
    ensures v.Finite? && v.v >= 0.0 ==> d == v.v
    ensures !(v.Finite? && v.v >= 0.0) ==> d == fallback
  {
    if IsFinite(v) && v.v >= 0.0 then v.v else fallback
  }

  /** A zero delay attribute is honoured here, while the top-level
      triggers treat zero as missing and fall back to the default. */
  lemma ZeroDelayDiffers()
    ensures ParseDelay(Finite(0.0), HoverIntent.OpenDelay) == 0.0
    ensures HoverIntent.ScheduledDelay(Finite(0.0), NaN, HoverIntent.OpenDelay) == Finite(HoverIntent.OpenDelay)
    ensures ParseDelay(Finite(-5.0), HoverIntent.CloseDelay) == HoverIntent.CloseDelay
    ensures ParseDelay(PosInf, HoverIntent.CloseDelay) == HoverIntent.CloseDelay
  {
  }

  // ---------------------------------------------------------------- the item tree

  /** Every item's enclosing item comes before it. */
  predicate WellFormed(parent: seq<int>)
  {
    forall i :: 0 <= i < |parent| ==> -1 <= parent[i] < i
  }

  /** `a.contains(b)` for two distinct items: `a` is an enclosing item of `b`. */
  predicate IsAncestor(parent: seq<int>, a: nat, b: nat)
    requires WellFormed(parent) && b < |parent|
    decreases b
  {
    parent[b] >= 0 && (parent[b] == a || IsAncestor(parent, a, parent[b]))
  }

  /** An enclosing item always comes earlier in document order, so no
      item encloses itself and two items never enclose each other. */
  lemma {:induction false} AncestorBefore(parent: seq<int>, a: nat, b: nat)
    requires WellFormed(parent) && b < |parent|
    requires IsAncestor(parent, a, b)
    ensures a < b
  {
    if parent[b] != a {
      AncestorBefore(parent, a, parent[b]);
    }
  }

  /** Enclosure is transitive. */
  lemma {:induction false} AncestorTrans(parent: seq<int>, a: nat, b: nat, c: nat)
    requires WellFormed(parent) && b < |parent| && c < |parent|
    requires IsAncestor(parent, a, b) && IsAncestor(parent, b, c)
    ensures IsAncestor(parent, a, c)
  {
    if parent[c] != b {
      AncestorTrans(parent, a, b, parent[c]);
    }
  }

  /** The items `closeAllExceptFamily(items, except)` leaves alone: the
      exception itself, the items enclosing it and the items it encloses.
      With no exception nothing is spared. */
  predicate InFamily(parent: seq<int>, except: Option<nat>, i: nat)
    requires WellFormed(parent) && i < |parent|
  {
    except.Some? && except.value < |parent|
    && (i == except.value || IsAncestor(parent, i, except.value) || IsAncestor(parent, except.value, i))
  }

  /** The family relation is symmetric. */
  lemma FamilySymmetric(parent: seq<int>, a: nat, b: nat)
    requires WellFormed(parent) && a < |parent| && b < |parent|
    ensures InFamily(parent, Some(a), b) <==> InFamily(parent, Some(b), a)
  {
  }

  /** The `.has-submenu` items among the children of element `p`, from
      index `from` on, in document order. */
  function ChildrenOf(domParent: seq<nat>, p: nat, from: nat): (r: seq<nat>)
    requires from <= |domParent|
    ensures forall k :: 0 <= k < |r| ==> from <= r[k] < |domParent| && domParent[r[k]] == p
    ensures forall j :: from <= j < |domParent| && domParent[j] == p ==> j in r
    ensures forall k, l :: 0 <= k < l < |r| ==> r[k] < r[l]
    decreases |domParent| - from
  {
    if from == |domParent| then []
    else if domParent[from] == p then [from] + ChildrenOf(domParent, p, from + 1)
    else ChildrenOf(domParent, p, from + 1)
  }

  /** `siblings.indexOf(x)` for an `x` that is among them. */
  function IndexIn(s: seq<nat>, x: nat): (k: nat)
    requires x in s
    ensures k < |s| && s[k] == x
  {
    if s[0] == x then 0 else 1 + IndexIn(s[1..], x)
  }

  /** The sibling `moveHorizontal` moves to: the next one (to the right) or
      the previous one, wrapping around, or nothing with fewer than two
      siblings. */
  function SiblingTarget(sibs: seq<nat>, item: nat, right: bool): (r: Option<nat>)
    requires item in sibs
    requires forall k, l :: 0 <= k < l < |sibs| ==> sibs[k] < sibs[l]
    ensures r.None? <==> |sibs| < 2
    ensures r.Some? ==> r.value in sibs && r.value != item
  {
    if |sibs| < 2 then None
    else
      var i := IndexIn(sibs, item);
      var k := if right then HoverIntent.NextIndex(i, |sibs|) else HoverIntent.PrevIndex(i, |sibs|);
      assert sibs[k] != sibs[i];
      Some(sibs[k])
  }

  /** Moving right and then left returns to the starting sibling. */
  lemma SiblingTargetInverse(sibs: seq<nat>, item: nat)
    requires item in sibs && |sibs| >= 2
    requires forall k, l :: 0 <= k < l < |sibs| ==> sibs[k] < sibs[l]
    ensures SiblingTarget(sibs, SiblingTarget(sibs, item, true).value, false) == Some(item)
    ensures SiblingTarget(sibs, SiblingTarget(sibs, item, false).value, true) == Some(item)
  {
    var i := IndexIn(sibs, item);
    var n := HoverIntent.NextIndex(i, |sibs|);
    var p := HoverIntent.PrevIndex(i, |sibs|);
    HoverIntent.NextPrevInverse(i, |sibs|);
    IndexUnique(sibs, n);
    IndexUnique(sibs, p);
  }

  /** In a strictly increasing sequence every element sits at one index. */
  lemma {:induction false} IndexUnique(s: seq<nat>, k: nat)
    requires k < |s|
    requires forall a, b :: 0 <= a < b < |s| ==> s[a] < s[b]
    ensures IndexIn(s, s[k]) == k
  {
    if k > 0 {
      assert s[0] < s[k];
      assert s[1..][k - 1] == s[k];
      IndexUnique(s[1..], k - 1);
    }
  }

  // ---------------------------------------------------------------- timeouts

  datatype Kind = OpenKind | CloseKind

  /** An armed timeout: which item it opens or closes, after what delay. */
  datatype Timeout = Timeout(item: nat, kind: Kind, delay: real)

  /** `clearTimeout(h)`; `clearTimeout(null)` does nothing. */
  function Cancel(pending: map<nat, Timeout>, h: Option<nat>): (r: map<nat, Timeout>)
    ensures h.None? ==> r == pending
    ensures h.Some? ==> r == pending - {h.value}
  {
    if h.Some? then pending - {h.value} else pending
  }

  class FlyoutTree {
    const m: nat
    const parent: seq<int>
    const domParent: seq<nat>
    /** `Number(item.dataset.openDelay)` / `closeDelay` of each item. */
    const openAttr: seq<JsNumber>
    const closeAttr: seq<JsNumber>
    /** The `open` class (and `aria-expanded`) of each item. */
    var isOpen: seq<bool>
    /** The timer record of each item. */
    var openH: seq<Option<nat>>
    var closeH: seq<Option<nat>>
    /** Armed timeouts by handle. */
    var pending: map<nat, Timeout>
    /** The next handle `setTimeout` returns. */
    var nextId: nat

    ghost predicate Valid()
      reads this
    {
      && |parent| == m && |domParent| == m && |openAttr| == m && |closeAttr| == m
      && |isOpen| == m && |openH| == m && |closeH| == m
      && WellFormed(parent)
      && (forall h :: h in pending ==> h < nextId && pending[h].item < m)
      && (forall i :: 0 <= i < m && openH[i].Some? ==> openH[i].value < nextId)
      && (forall i :: 0 <= i < m && closeH[i].Some? ==> closeH[i].value < nextId)
      && (forall i :: 0 <= i < m && openH[i].Some? && openH[i].value in pending ==>
            pending[openH[i].value].item == i && pending[openH[i].value].kind == OpenKind)
      && (forall i :: 0 <= i < m && closeH[i].Some? && closeH[i].value in pending ==>
            pending[closeH[i].value].item == i && pending[closeH[i].value].kind == CloseKind)
    }

    /** Item `i` has an immediate close timeout armed, and the open timeout
        its record names (if any) is no longer armed. An earlier open
        timeout that the record no longer names can still be armed and
        fire after the close. */
    ghost predicate ClosingNow(i: nat)
      reads this
      requires Valid() && i < m
    {
      && closeH[i].Some? && closeH[i].value in pending
      && pending[closeH[i].value] == Timeout(i, CloseKind, 0.0)
      && (openH[i].None? || openH[i].value !in pending)
    }

    constructor (parents: seq<int>, domParents: seq<nat>, openAttrs: seq<JsNumber>, closeAttrs: seq<JsNumber>)
      requires WellFormed(parents)
      requires |domParents| == |parents| && |openAttrs| == |parents| && |closeAttrs| == |parents|
      ensures Valid() && m == |parents| && parent == parents && domParent == domParents
      ensures openAttr == openAttrs && closeAttr == closeAttrs && nextId == 0
      ensures isOpen == seq(m, _ => false) && pending == map[]
      ensures openH == seq(m, _ => None) && closeH == seq(m, _ => None)
    {
      m := |parents|;
      parent, domParent := parents, domParents;
      openAttr, closeAttr := openAttrs, closeAttrs;
      isOpen := seq(|parents|, _ => false);
      openH := seq(|parents|, _ => None);
      closeH := seq(|parents|, _ => None);
      pending := map[];
      nextId := 0;
    }

    /** `open(item, immediate)`: cancel the item's last close timeout; if
        the item is not open yet, arm an open timeout and record it. An
        earlier open timeout of the item is not cancelled. */
    method Open(item: nat, immediate: bool)
      requires Valid() && item < m
      modifies this
      ensures Valid()
      ensures isOpen == old(isOpen) && closeH == old(closeH)
      ensures nextId == if old(isOpen[item]) then old(nextId) else old(nextId) + 1
      ensures old(isOpen[item]) ==> pending == Cancel(old(pending), old(closeH[item])) && openH == old(openH)
      ensures !old(isOpen[item]) ==>
        && openH == old(openH)[item := Some(old(nextId))]
        && pending == Cancel(old(pending), old(closeH[item]))[old(nextId) :=
             Timeout(item, OpenKind, if immediate then 0.0 else ParseDelay(openAttr[item], HoverIntent.OpenDelay))]
    {
      pending := Cancel(pending, closeH[item]);
      if isOpen[item] {
        return;
      }
      var d := if immediate then 0.0 else ParseDelay(openAttr[item], HoverIntent.OpenDelay);
      pending := pending[nextId := Timeout(item, OpenKind, d)];
      openH := openH[item := Some(nextId)];
      nextId := nextId + 1;
    }

    /** `close(item, immediate)`: cancel the item's last open timeout, then
        arm a close timeout and record it. An earlier close timeout of the
        item is not cancelled. */
    method Close(item: nat, immediate: bool)
      requires Valid() && item < m
      modifies this
      ensures Valid()
      ensures isOpen == old(isOpen) && openH == old(openH) && nextId == old(nextId) + 1
      ensures closeH == old(closeH)[item := Some(old(nextId))]
      ensures pending == Cancel(old(pending), old(openH[item]))[old(nextId) :=
        Timeout(item, CloseKind, if immediate then 0.0 else ParseDelay(closeAttr[item], HoverIntent.CloseDelay))]
    {
      pending := Cancel(pending, openH[item]);
      var d := if immediate then 0.0 else ParseDelay(closeAttr[item], HoverIntent.CloseDelay);
      pending := pending[nextId := Timeout(item, CloseKind, d)];
      closeH := closeH[item := Some(nextId)];
      nextId := nextId + 1;
    }

    /** The timeout with handle `h` fires: it adds or removes the `open`
        class of its item. */
    method Fire(h: nat)
      requires Valid() && h in pending
      modifies this
      ensures Valid()
      ensures pending == old(pending) - {h}
      ensures isOpen == old(isOpen)[old(pending[h]).item := old(pending[h]).kind == OpenKind]
      ensures openH == old(openH) && closeH == old(closeH) && nextId == old(nextId)
    {
      var t := pending[h];
      pending := pending - {h};
      isOpen := isOpen[t.item := t.kind == OpenKind];
    }

    /** `closeAllExceptFamily(items, except, close)`: every item outside
        the family of `except` gets an immediate close; the family's
        timers are untouched. Without `except`, every item is closed. This
        is also the outside-pointerdown and window-blur handler, which
        closes every item immediately. */
    method CloseAllExceptFamily(except: Option<nat>)
      requires Valid()
      modifies this
      ensures Valid()
      ensures isOpen == old(isOpen)
      ensures forall i :: 0 <= i < m && !InFamily(parent, except, i) ==> ClosingNow(i)
      ensures forall i :: 0 <= i < m && InFamily(parent, except, i) ==>
        openH[i] == old(openH[i]) && closeH[i] == old(closeH[i])
      ensures forall h :: h in old(pending) && old(pending[h]).item < m && InFamily(parent, except, old(pending[h]).item) ==>
        h in pending && pending[h] == old(pending[h])
      ensures forall h :: h in old(pending) && h in pending ==> pending[h] == old(pending[h])
      ensures forall h :: h in pending && h !in old(pending) ==>
        !InFamily(parent, except, pending[h].item) && pending[h] == Timeout(pending[h].item, CloseKind, 0.0)
      ensures forall h :: h in old(pending) && h !in pending ==>
        !InFamily(parent, except, old(pending[h]).item) && old(openH)[old(pending)[h].item] == Some(h)
      ensures old(nextId) <= nextId
    {
      var x := 0;
      while x < m
        invariant 0 <= x <= m
        invariant Valid()
        invariant isOpen == old(isOpen)
        invariant forall i :: 0 <= i < x && !InFamily(parent, except, i) ==> ClosingNow(i)
        invariant forall i :: 0 <= i < m && (x <= i || InFamily(parent, except, i)) ==>
          openH[i] == old(openH[i]) && closeH[i] == old(closeH[i])
        invariant forall h ::
          (h in old(pending) && old(pending[h]).item < m
           && (x <= old(pending[h]).item || InFamily(parent, except, old(pending[h]).item))) ==>
          h in pending && pending[h] == old(pending[h])
        invariant forall h :: h in old(pending) && h in pending ==> pending[h] == old(pending[h])
        invariant forall h :: h in pending && h !in old(pending) ==>
          pending[h].item < x && !InFamily(parent, except, pending[h].item)
          && pending[h] == Timeout(pending[h].item, CloseKind, 0.0)
        invariant forall h :: h in old(pending) && h !in pending ==>
          old(pending[h]).item < x && !InFamily(parent, except, old(pending[h]).item)
          && old(openH)[old(pending)[h].item] == Some(h)
        invariant old(nextId) <= nextId
      {
        CloseOutsideFamily(x, except);
        x := x + 1;
      }
    }

    /** One step of `closeAllExceptFamily`: item `x` gets an immediate
        close unless it is in the family; no other item's record or
        timeouts change. */
    method CloseOutsideFamily(x: nat, except: Option<nat>)
      requires Valid() && x < m
      modifies this
      ensures Valid()
      ensures isOpen == old(isOpen)
      ensures !InFamily(parent, except, x) ==> ClosingNow(x)
      ensures InFamily(parent, except, x) ==> pending == old(pending) && openH == old(openH) && closeH == old(closeH)
      ensures forall i :: 0 <= i < m && i != x ==> openH[i] == old(openH[i]) && closeH[i] == old(closeH[i])
      ensures forall h :: h in old(pending) && old(pending[h]).item != x ==> h in pending && pending[h] == old(pending[h])
      ensures forall h :: h in old(pending) && h in pending ==> pending[h] == old(pending[h])
      ensures forall h :: h in pending && h !in old(pending) ==> pending[h] == Timeout(x, CloseKind, 0.0) && old(nextId) <= h
      ensures forall h :: h in old(pending) && h !in pending ==> !InFamily(parent, except, x) && old(openH[x]) == Some(h)
      ensures old(nextId) <= nextId
    {
      if !InFamily(parent, except, x) {
        Close(x, true);
      }
    }

    /** The whole effect of `closeAllExceptFamily(items, item, close);
        open(item, …)` with open delay `d`: no `open` class changes; every
        item outside the family of `item` is closing at once; the rest of
        the family keeps its records and armed timeouts; `item` loses only
        the close timeout its record names and, unless already open, gets a
        fresh open timeout; and no other timeout is armed or cancelled. */
    twostate predicate OpenedInFamily(item: nat, d: real)
      reads this
      requires old(Valid()) && Valid() && item < m
    {
      && isOpen == old(isOpen)
      && old(nextId) <= nextId
      && (forall i :: 0 <= i < m && !InFamily(parent, Some(item), i) ==> ClosingNow(i))
      && (forall i :: 0 <= i < m && InFamily(parent, Some(item), i) && i != item ==>
            openH[i] == old(openH)[i] && closeH[i] == old(closeH)[i])
      && closeH[item] == old(closeH)[item] && (closeH[item].None? || closeH[item].value !in pending)
      && (old(isOpen)[item] ==> openH[item] == old(openH)[item])
      && (!old(isOpen)[item] ==>
            old(nextId) < nextId && openH[item] == Some(nextId - 1) && nextId - 1 in pending
            && pending[nextId - 1] == Timeout(item, OpenKind, d))
      && (forall h ::
            (h in old(pending) && old(pending)[h].item < m
             && InFamily(parent, Some(item), old(pending)[h].item) && old(closeH)[item] != Some(h)) ==>
            h in pending && pending[h] == old(pending)[h])
      && (forall h :: h in old(pending) && h in pending ==> pending[h] == old(pending)[h])
      && (forall h :: h in pending && h !in old(pending) ==>
            (h == nextId - 1 && !old(isOpen)[item] && pending[h] == Timeout(item, OpenKind, d))
            || (!InFamily(parent, Some(item), pending[h].item) && pending[h] == Timeout(pending[h].item, CloseKind, 0.0)))
      && (forall h :: h in old(pending) && h !in pending ==>
            old(closeH)[item] == Some(h)
            || (!InFamily(parent, Some(item), old(pending)[h].item) && old(openH)[old(pending)[h].item] == Some(h)))
    }

    /** `closeAllExceptFamily(items, item, close); open(item, immediate)`. */
    method OpenInFamily(item: nat, immediate: bool)
      requires Valid() && item < m
      modifies this
      ensures Valid()
      ensures OpenedInFamily(item, if immediate then 0.0 else ParseDelay(openAttr[item], HoverIntent.OpenDelay))
    {
      CloseAllExceptFamily(Some(item));
      Open(item, immediate);
    }

    /** pointerenter and focusin on `item`: close everything outside its
        family, then open it after its delay. */
    method Enter(item: nat)
      requires Valid() && item < m
      modifies this
      ensures Valid()
      ensures OpenedInFamily(item, ParseDelay(openAttr[item], HoverIntent.OpenDelay))
    {
      OpenInFamily(item, false);
    }

    /** pointerleave, and focusout to an element outside the item: close
        it after its delay. */
    method Leave(item: nat, relatedInside: bool)
      requires Valid() && item < m
      modifies this
      ensures Valid()
      ensures isOpen == old(isOpen) && openH == old(openH)
      ensures relatedInside ==> pending == old(pending) && closeH == old(closeH) && nextId == old(nextId)
      ensures !relatedInside ==>
        (closeH == old(closeH)[item := Some(old(nextId))] && nextId == old(nextId) + 1
         && pending == Cancel(old(pending), old(openH[item]))[old(nextId) :=
              Timeout(item, CloseKind, ParseDelay(closeAttr[item], HoverIntent.CloseDelay))])
    {
      if !relatedInside {
        Close(item, false);
      }
    }

    /** click on a closed item: close everything outside its family and
        open it at once. A click on an open item does nothing. */
    method Click(item: nat)
      requires Valid() && item < m
      modifies this
      ensures Valid()
      ensures old(isOpen[item]) ==>
        isOpen == old(isOpen) && pending == old(pending) && openH == old(openH) && closeH == old(closeH)
        && nextId == old(nextId)
      ensures !old(isOpen[item]) ==> OpenedInFamily(item, 0.0)
    {
      if !isOpen[item] {
        OpenInFamily(item, true);
      }
    }

    /** `moveHorizontal(item, dir)`: with at least two `.has-submenu`
        siblings, close everything outside the family of the next (or
        previous) sibling and open it at once; otherwise do nothing. The
        item is always among its own siblings, so the `indexOf === -1`
        branch of the source cannot be taken here. */
    method MoveHorizontal(item: nat, right: bool) returns (target: Option<nat>)
      requires Valid() && item < m
      modifies this
      ensures Valid()
      ensures target == SiblingTarget(ChildrenOf(domParent, domParent[item], 0), item, right)
      ensures target.None? ==>
        isOpen == old(isOpen) && pending == old(pending) && openH == old(openH) && closeH == old(closeH)
        && nextId == old(nextId)
      ensures target.Some? ==> target.value < m && domParent[target.value] == domParent[item] && target.value != item
      ensures target.Some? ==> OpenedInFamily(target.value, 0.0)
    {
      var sibs := ChildrenOf(domParent, domParent[item], 0);
      target := SiblingTarget(sibs, item, right);
      if target.Some? {
        OpenInFamily(target.value, true);
      }
    }

    /** keydown on `item`: Escape closes it at once, ArrowDown and ArrowUp
        open it at once, ArrowLeft and ArrowRight move to a sibling, and
        any other key changes nothing. */
    method KeyDown(item: nat, key: HoverIntent.Key) returns (target: Option<nat>)
      requires Valid() && item < m
      modifies this
      ensures Valid()
      ensures key == HoverIntent.Escape ==>
        (isOpen == old(isOpen) && openH == old(openH) && closeH == old(closeH)[item := Some(old(nextId))]
         && nextId == old(nextId) + 1
         && pending == Cancel(old(pending), old(openH[item]))[old(nextId) := Timeout(item, CloseKind, 0.0)])
      ensures key in {HoverIntent.ArrowDown, HoverIntent.ArrowUp} ==>
        isOpen == old(isOpen) && closeH == old(closeH)
      ensures key in {HoverIntent.ArrowDown, HoverIntent.ArrowUp} && old(isOpen[item]) ==>
        openH == old(openH) && nextId == old(nextId) && pending == Cancel(old(pending), old(closeH[item]))
      ensures key in {HoverIntent.ArrowDown, HoverIntent.ArrowUp} && !old(isOpen[item]) ==>
        openH == old(openH)[item := Some(old(nextId))] && nextId == old(nextId) + 1
        && pending == Cancel(old(pending), old(closeH[item]))[old(nextId) := Timeout(item, OpenKind, 0.0)]
      ensures key in {HoverIntent.ArrowLeft, HoverIntent.ArrowRight} ==>
        target == SiblingTarget(ChildrenOf(domParent, domParent[item], 0), item, key == HoverIntent.ArrowRight)
      ensures key in {HoverIntent.ArrowLeft, HoverIntent.ArrowRight} && target.Some? ==>
        OpenedInFamily(target.value, 0.0)
      ensures ((key in {HoverIntent.ArrowLeft, HoverIntent.ArrowRight} && target.None?)
               || key !in {HoverIntent.Escape, HoverIntent.ArrowDown, HoverIntent.ArrowUp, HoverIntent.ArrowLeft, HoverIntent.ArrowRight}) ==>
        isOpen == old(isOpen) && pending == old(pending) && openH == old(openH) && closeH == old(closeH)
        && nextId == old(nextId)
    {
      target := None;
      match key {
        case Escape => Close(item, true);
        case ArrowDown => Open(item, true);
        case ArrowUp => Open(item, true);
        case ArrowLeft => target := MoveHorizontal(item, false);
        case ArrowRight => target := MoveHorizontal(item, true);
        case _ =>
      }
    }

    // ------------------------------------------------------------ corrected timers

    /** Every armed timeout is the one its item's record names, so the
        record can cancel it. */
    ghost predicate NoOrphans()
      reads this
      requires Valid()
    {
      forall h :: h in pending ==>
        (if pending[h].kind == OpenKind then openH[pending[h].item] else closeH[pending[h].item]) == Some(h)
    }

    /** `clearTimeout(h)`: cancelling keeps every remaining timeout named
        by its item's record. */
    method Drop(h: Option<nat>)
      requires Valid() && NoOrphans()
      modifies this
      ensures Valid() && NoOrphans()
      ensures pending == Cancel(old(pending), h)
      ensures isOpen == old(isOpen) && openH == old(openH) && closeH == old(closeH) && nextId == old(nextId)
    {
      pending := Cancel(pending, h);
    }

    /** `setTimeout` for `item` with its record of that kind updated, once
        the timeout the record named is no longer armed. */
    method Arm(item: nat, kind: Kind, d: real)
      requires Valid() && NoOrphans() && item < m
      requires kind == OpenKind ==> openH[item].None? || openH[item].value !in pending
      requires kind == CloseKind ==> closeH[item].None? || closeH[item].value !in pending
      modifies this
      ensures Valid() && NoOrphans()
      ensures pending == old(pending)[old(nextId) := Timeout(item, kind, d)]
      ensures openH == if kind == OpenKind then old(openH)[item := Some(old(nextId))] else old(openH)
      ensures closeH == if kind == CloseKind then old(closeH)[item := Some(old(nextId))] else old(closeH)
      ensures isOpen == old(isOpen) && nextId == old(nextId) + 1
    {
      pending := pending[nextId := Timeout(item, kind, d)];
      if kind == OpenKind {
        openH := openH[item := Some(nextId)];
      } else {
        closeH := closeH[item := Some(nextId)];
      }
      nextId := nextId + 1;
    }

    /** `open` that also cancels its own earlier open timeout before arming
        a new one: it keeps every timeout cancellable and leaves no close
        timeout of the item armed. */
    method OpenFixed(item: nat, immediate: bool)
      requires Valid() && NoOrphans() && item < m
      modifies this
      ensures Valid() && NoOrphans()
      ensures isOpen == old(isOpen)
      ensures forall h :: h in pending ==> !(pending[h].item == item && pending[h].kind == CloseKind)
      ensures !old(isOpen[item]) ==> openH[item] == Some(old(nextId)) && old(nextId) in pending
      ensures nextId == if old(isOpen[item]) then old(nextId) else old(nextId) + 1
    {
      Drop(closeH[item]);
      if isOpen[item] {
        return;
      }
      Drop(openH[item]);
      var d := if immediate then 0.0 else ParseDelay(openAttr[item], HoverIntent.OpenDelay);
      Arm(item, OpenKind, d);
    }

    /** `close` that also cancels its own earlier close timeout. */
    method CloseFixed(item: nat, immediate: bool)
      requires Valid() && NoOrphans() && item < m
      modifies this
      ensures Valid() && NoOrphans()
      ensures isOpen == old(isOpen)
      ensures forall h :: h in pending && pending[h].item == item ==> h == old(nextId) && pending[h].kind == CloseKind
      ensures closeH[item] == Some(old(nextId)) && old(nextId) in pending
      ensures nextId == old(nextId) + 1
    {
      Drop(openH[item]);
      Drop(closeH[item]);
      var d := if immediate then 0.0 else ParseDelay(closeAttr[item], HoverIntent.CloseDelay);
      Arm(item, CloseKind, d);
    }
  }

  /** Two closes in a row (focusout, then pointerleave) followed by a
      re-entry: `open` cancels only the second close timeout, the first
      one is still armed, and once the open timeout has fired it closes
      the flyout under the pointer. */
  method OrphanedCloseScenario() returns (openAfterAll: bool)
    ensures !openAfterAll
  {
    var tree := new FlyoutTree([-1], [0], [NaN], [NaN]);
    tree.Close(0, false);   // handle 0
    tree.Close(0, false);   // handle 1; handle 0 is orphaned
    tree.Open(0, false);    // cancels handle 1, arms handle 2
    assert 0 in tree.pending && 2 in tree.pending;
    tree.Fire(2);           // the flyout opens
    assert tree.isOpen[0];
    tree.Fire(0);           // the orphaned close fires
    openAfterAll := tree.isOpen[0];
  }

  /** The same sequence with the corrected timers: the re-entry leaves no
      close timeout armed, so the flyout stays open once it has opened. */
  method FixedCloseScenario() returns (openAfterAll: bool, stillArmed: nat)
    ensures openAfterAll && stillArmed == 0
  {
    var tree := new FlyoutTree([-1], [0], [NaN], [NaN]);
    tree.CloseFixed(0, false);
    tree.CloseFixed(0, false);
    tree.OpenFixed(0, false);
    var h := tree.nextId - 1;
    assert forall k :: k in tree.pending ==> k == h;
    tree.Fire(h);
    openAfterAll := tree.isOpen[0];
    assert tree.pending.Keys == {};
    stillArmed := |tree.pending.Keys|;
  }

  /** pointerenter and then focusin on a closed item each arm an open
      timeout; the second overwrites the record's handle, so the first
      is orphaned. A press outside closes the item at once, but the
      orphaned open timeout still fires afterwards and reopens it. */
  method OrphanedOpenScenario() returns (openAfterAll: bool)
    ensures openAfterAll
  {
    var tree := new FlyoutTree([-1], [0], [NaN], [NaN]);
    tree.Enter(0);
    var first := tree.nextId - 1;
    tree.Enter(0);          // the record now names a newer handle
    assert tree.openH[0] != Some(first) && first in tree.pending;
    assert tree.pending[first].item == 0 && tree.pending[first].kind == OpenKind;
    tree.CloseAllExceptFamily(None);   // the outside pointerdown
    assert first in tree.pending;
    var c := tree.closeH[0].value;
    tree.Fire(c);           // the flyout is closed
    assert !tree.isOpen[0];
    tree.Fire(first);       // the orphaned open fires
    openAfterAll := tree.isOpen[0];
  }

  /** The same sequence with the corrected timers: the second open
      cancels the first, the close cancels the second, and the flyout
      stays closed with nothing left armed. */
  method FixedOpenScenario() returns (openAfterAll: bool, stillArmed: nat)
    ensures !openAfterAll && stillArmed == 0
  {
    var tree := new FlyoutTree([-1], [0], [NaN], [NaN]);
    tree.OpenFixed(0, false);
    tree.OpenFixed(0, false);
    tree.CloseFixed(0, true);
    var h := tree.nextId - 1;
    assert forall k :: k in tree.pending ==> k == h;
    tree.Fire(h);
    openAfterAll := tree.isOpen[0];
    assert tree.pending.Keys == {};
    stillArmed := |tree.pending.Keys|;
  }
}
