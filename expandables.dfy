/** The generic registry of disclosure controls that own `aria-expanded`
    (ExtraNav/nav-ux.js, `Expandables`): a set of open controls, kept in
    insertion order as a JavaScript `Set` is, plus the attribute each
    control last received. */
module Expandables {
  import opened Text

  /** Identity of a control element. */
  type Ctrl = nat

  predicate NoDuplicates(s: seq<Ctrl>)
  {
    forall i, j :: 0 <= i < j < |s| ==> s[i] != s[j]
  }

  /** `set.delete(c)` on an insertion-ordered set. */
  function Remove(s: seq<Ctrl>, c: Ctrl): (r: seq<Ctrl>)
    ensures forall x :: x in r <==> x in s && x != c
    ensures NoDuplicates(s) ==> NoDuplicates(r)
  {
    if s == [] then []
    else if s[0] == c then Remove(s[1..], c)
    else
      var rest := Remove(s[1..], c);
      assert NoDuplicates(s) ==> NoDuplicates(s[1..]) && s[0] !in rest;
      [s[0]] + rest
  }

  lemma {:induction false} RemoveAbsent(s: seq<Ctrl>, c: Ctrl)
    requires c !in s
    ensures Remove(s, c) == s
  {
    if s != [] {
      RemoveAbsent(s[1..], c);
    }
  }

  /** Deleting the first element of a duplicate-free sequence. */
  lemma RemoveHead(s: seq<Ctrl>)
    requires s != [] && NoDuplicates(s)
    ensures Remove(s, s[0]) == s[1..]
  {
    RemoveAbsent(s[1..], s[0]);
  }

  /** `set.add(c)` on an insertion-ordered set. */
  function Add(s: seq<Ctrl>, c: Ctrl): (r: seq<Ctrl>)
    ensures forall x :: x in r <==> x in s || x == c
  {
    if c in s then s else s + [c]
  }

  class Registry {
    /** The `active` set: controls whose expanded flag was last set on. */
    var active: seq<Ctrl>
    /** The `aria-expanded` attribute of every control written so far. */
    var expanded: map<Ctrl, bool>

    ghost predicate Valid()
      reads this
    {
      && NoDuplicates(active)
      && (forall c :: c in active <==> c in expanded && expanded[c])
    }

    constructor ()
      ensures Valid() && active == [] && expanded == map[]
    {
      active := [];
      expanded := map[];
    }

    /** `isExpanded(ctrl)`: the attribute reads `true`. */
    function IsExpanded(c: Ctrl): (r: bool)
      reads this
      requires Valid()
      ensures r <==> c in active
    {
      c in expanded && expanded[c]
    }

    /** `setExpanded(ctrl, on)`: write the attribute and add to or delete
        from the active set. */
    method SetExpanded(c: Ctrl, on: bool)
      requires Valid()
      modifies this
      ensures Valid()
      ensures expanded == old(expanded)[c := on]
      ensures active == if on then Add(old(active), c) else Remove(old(active), c)
    {
      expanded := expanded[c := on];
      if on {
        if c !in active {
          active := active + [c];
        }
      } else {
        active := Remove(active, c);
      }
    }

    /** `closeAll(except)`: every active control other than `except` is
        collapsed and leaves the set; nothing else changes. */
    method CloseAll(except: Option<Ctrl>)
      requires Valid()
      modifies this
      ensures Valid()
      ensures active == if except.Some? && except.value in old(active) then [except.value] else []
      ensures expanded.Keys == old(expanded).Keys
      ensures forall c :: c in expanded ==>
        expanded[c] == (if c in old(active) && Some(c) != except then false else old(expanded)[c])
    {
      var rest := active;
      ghost var kept: seq<Ctrl> := [];
      ghost var closed: set<Ctrl> := {};
      while rest != []
        invariant Valid()
        invariant active == kept + rest
        invariant kept == [] || (except.Some? && kept == [except.value])
        invariant forall x :: x in old(active) <==> x in kept || x in rest || x in closed
        invariant forall x :: x in closed ==> Some(x) != except && x in old(active)
        invariant expanded.Keys == old(expanded).Keys
        invariant forall c :: c in expanded ==>
          expanded[c] == (if c in closed then false else old(expanded)[c])
        decreases |rest|
      {
        var c := rest[0];
        if Some(c) != except {
          RemoveHeadAfter(kept, rest, except);
          SetExpanded(c, false);
          closed := closed + {c};
        } else {
          assert c !in kept;
          kept := [c];
        }
        rest := rest[1..];
      }
      assert active == kept;
      if except.Some? && except.value in old(active) {
        assert except.value !in closed;
      }
    }

    /** The document-wide pointerdown handler: a press inside an active
        control (or the element it controls) is ignored, any other press
        closes everything. */
    method OnPointerDown(insideActive: bool)
      requires Valid()
      modifies this
      ensures Valid()
      ensures insideActive ==> active == old(active) && expanded == old(expanded)
      ensures !insideActive ==> active == []
      ensures !insideActive ==> forall c :: c in old(active) ==> c in expanded && !expanded[c]
      ensures !insideActive ==> expanded.Keys == old(expanded).Keys
      ensures !insideActive ==> forall c :: c in expanded && c !in old(active) ==> expanded[c] == old(expanded)[c]
    {
      if !insideActive {
        CloseAll(None);
      }
    }

    /** The document-wide Escape handler as written: it closes everything
        and only then looks up the last control of the (now empty) set, so
        no control ever gets the focus back. */
    method OnEscape() returns (focus: Option<Ctrl>)
      requires Valid()
      modifies this
      ensures Valid() && active == []
      ensures forall c :: c in old(active) ==> c in expanded && !expanded[c]
      ensures expanded.Keys == old(expanded).Keys
      ensures forall c :: c in expanded && c !in old(active) ==> expanded[c] == old(expanded)[c]
      ensures focus == None
    {
      CloseAll(None);
      focus := Last(active);
    }

    /** The Escape handler with the lookup taken before closing: the most
        recently opened control gets the focus back whenever one was open. */
    method OnEscapeRestoringFocus() returns (focus: Option<Ctrl>)
      requires Valid()
      modifies this
      ensures Valid() && active == []
      ensures forall c :: c in old(active) ==> c in expanded && !expanded[c]
      ensures expanded.Keys == old(expanded).Keys
      ensures forall c :: c in expanded && c !in old(active) ==> expanded[c] == old(expanded)[c]
      ensures focus == if old(active) == [] then None else Some(old(active)[|old(active)| - 1])
      ensures focus.Some? ==> old(IsExpanded(focus.value))
    {
      focus := Last(active);
      CloseAll(None);
    }
  }

  /** `[...set][set.size - 1]`: the most recently added control, if any. */
  function Last(s: seq<Ctrl>): (r: Option<Ctrl>)
    ensures r.None? <==> s == []
    ensures r.Some? ==> r.value == s[|s| - 1]
  {
    if |s| > 0 then Some(s[|s| - 1]) else None
  }

  /** Deleting an element that is not among the first ones leaves those
      in front. */
  lemma {:induction false} RemoveAfter(kept: seq<Ctrl>, rest: seq<Ctrl>, c: Ctrl)
    requires c !in kept
    ensures Remove(kept + rest, c) == kept + Remove(rest, c)
  {
    if kept != [] {
      assert (kept + rest)[0] == kept[0] && kept[0] != c;
      assert (kept + rest)[1..] == kept[1..] + rest;
      assert Remove(kept + rest, c) == [kept[0]] + Remove(kept[1..] + rest, c);
      RemoveAfter(kept[1..], rest, c);
      assert [kept[0]] + (kept[1..] + Remove(rest, c)) == kept + Remove(rest, c);
    } else {
      assert kept + rest == rest;
      assert kept + Remove(rest, c) == Remove(rest, c);
    }
  }

  /** Deleting the first not-kept element of `kept + rest`. */
  lemma RemoveHeadAfter(kept: seq<Ctrl>, rest: seq<Ctrl>, except: Option<Ctrl>)
    requires rest != [] && NoDuplicates(kept + rest)
    requires forall x :: x in kept ==> Some(x) == except
    requires Some(rest[0]) != except
    ensures Remove(kept + rest, rest[0]) == kept + rest[1..]
  {
    RemoveAfter(kept, rest, rest[0]);
    assert NoDuplicates(rest) by {
      forall i, j | 0 <= i < j < |rest|
        ensures rest[i] != rest[j]
      {
        assert rest[i] == (kept + rest)[|kept| + i];
        assert rest[j] == (kept + rest)[|kept| + j];
      }
    }
    RemoveHead(rest);
  }
}
