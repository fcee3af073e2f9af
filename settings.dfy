/** The settings switch store (ExtraNav/nav-ux.js): the seven switches of
    `stItems`, the in-memory `STState` map, its copy persisted under
    `st:switches:v1`, the `ST.set` API, the first-run defaults, the
    checkbox change handler and the four menu tabs that follow switches
    s4-s7 through `setMenuEnabled`. */
module Settings {
  import opened Text

  /** One entry of `stItems`. */
  datatype Item = Item(key: string, name: string, caption: string, value: bool, tooltip: string)

  const Items: seq<Item> := [
    Item("s1", "claim", "Claim Buttons", false, "Claim Mode"),
    Item("s2", "copy", "Copy Buttons", false, "Copy Buttons"),
    Item("s3", "sexy", "Sexy Mode", false, "Sexy Time"),
    Item("s4", "acct", "Customer Account", true, "Customer Account Tab"),
    Item("s5", "ship", "Shipping", true, "Shipping Tab"),
    Item("s6", "product", "Production", true, "Production Tab"),
    Item("s7", "process", "Processing", true, "Processing Tab")
  ]

  /** The keys of `MENU_SWITCHES`, in declaration order. */
  const MenuKeys: seq<string> := ["s4", "s5", "s6", "s7"]

  function KeysOf(items: seq<Item>): set<string>
  {
    set i | 0 <= i < |items| :: items[i].key
  }

  /** `stItems.find(x => x.key === key)`. */
  function Find(items: seq<Item>, key: string): (r: Option<Item>)
    ensures r.Some? <==> key in KeysOf(items)
    ensures r.Some? ==> r.value in items && r.value.key == key
  {
    if items == [] then None
    else
      assert KeysOf(items) == {items[0].key} + KeysOf(items[1..]) by {
        forall k | k in KeysOf(items) ensures k in {items[0].key} + KeysOf(items[1..]) {
          var i :| 0 <= i < |items| && items[i].key == k;
          if i > 0 {
            assert items[1..][i - 1] == items[i];
          }
        }
      }
      if items[0].key == key then Some(items[0])
      else Find(items[1..], key)
  }

  /** `String(b)`. */
  function BoolText(b: bool): string
  {
    if b then "true" else "false"
  }

  // ------------------------------------------------------------- persistence

  /** What `localStorage.getItem('st:switches:v1')` returns when it is not
      null: the empty string, text `JSON.parse` rejects, or text it parses. */
  datatype Stored = Blank | Malformed | Parsed(json: Json)

  lemma KeysOfSnoc(items: seq<Item>)
    requires items != []
    ensures KeysOf(items) == KeysOf(items[..|items| - 1]) + {items[|items| - 1].key}
  {
    var init := items[..|items| - 1];
    forall k | k in KeysOf(items) ensures k in KeysOf(init) + {items[|items| - 1].key} {
      var i :| 0 <= i < |items| && items[i].key == k;
      if i < |items| - 1 {
        assert init[i] == items[i];
      }
    }
    forall k | k in KeysOf(init) ensures k in KeysOf(items) {
      var i :| 0 <= i < |init| && init[i].key == k;
      assert items[i] == init[i];
    }
  }

  /** `new Map(items.map(i => [i.key, !!i.value]))`: every key with its
      default, a later item winning over an earlier one with the same key. */
  function DefaultsOf(items: seq<Item>): (m: map<string, bool>)
    ensures m.Keys == KeysOf(items)
  {
    if items == [] then map[]
    else
      KeysOfSnoc(items);
      DefaultsOf(items[..|items| - 1])[items[|items| - 1].key := items[|items| - 1].value]
  }

  /** The own properties of the parsed value when it passes
      `saved && typeof saved === 'object'`; `None` for missing, empty or
      unparsable storage and for values that are not objects. An array
      owns only index properties and `length`, never a switch key. */
  function SavedObject(storage: Option<Stored>): (r: Option<map<string, Json>>)
    ensures storage.None? || storage == Some(Blank) || storage == Some(Malformed) ==> r.None?
  {
    match storage
    case Some(Parsed(JObj(fields))) => Some(fields)
    case Some(Parsed(JArr(_))) => Some(map[])
    case _ => None
  }

  /** The override pass of `loadInitialState`: item by item, a key the
      saved object owns takes the truthiness of its saved value. */
  function Overlay(items: seq<Item>, f: map<string, Json>, m: map<string, bool>): map<string, bool>
  {
    if items == [] then m
    else
      var r := Overlay(items[..|items| - 1], f, m);
      var k := items[|items| - 1].key;
      if k in f then r[k := JsonTruthy(f[k])] else r
  }

  /** What the override pass computes: exactly the item keys the saved
      object owns are overridden, everything else keeps its value. */
  lemma {:induction false} OverlayValues(items: seq<Item>, f: map<string, Json>, m: map<string, bool>, x: string)
    ensures x in Overlay(items, f, m) <==> x in m || (x in f && x in KeysOf(items))
    ensures x in Overlay(items, f, m) ==>
      Overlay(items, f, m)[x] == if x in f && x in KeysOf(items) then JsonTruthy(f[x]) else m[x]
  {
    if items != [] {
      KeysOfSnoc(items);
      OverlayValues(items[..|items| - 1], f, m, x);
    }
  }

  /** The state `loadInitialState(items)` returns. */
  function Loaded(items: seq<Item>, storage: Option<Stored>): map<string, bool>
  {
    var d := DefaultsOf(items);
    match SavedObject(storage)
    case None => d
    case Some(f) => Overlay(items, f, d)
  }

  /** `loadInitialState(items)`: the defaults, then a pass over the items
      that overrides only the keys the saved object owns. */
  method LoadInitialState(items: seq<Item>, storage: Option<Stored>) returns (m: map<string, bool>)
    ensures m == Loaded(items, storage)
  {
    var d := DefaultsOf(items);
    m := d;
    match SavedObject(storage)
    case None =>
    case Some(f) =>
      var k := 0;
      while k < |items|
        invariant 0 <= k <= |items|
        invariant m == Overlay(items[..k], f, d)
      {
        assert items[..k + 1][..k] == items[..k];
        if items[k].key in f {
          m := m[items[k].key := JsonTruthy(f[items[k].key])];
        }
        k := k + 1;
      }
      assert items[..k] == items;
  }

  /** Loading starts from each item's default and overrides only the keys
      the saved object owns; missing, empty or unparsable storage, or a
      saved value that is not an object, yields the defaults. */
  lemma LoadedMeaning(items: seq<Item>, storage: Option<Stored>, k: string)
    ensures Loaded(items, storage).Keys == KeysOf(items)
    ensures SavedObject(storage).None? ==> Loaded(items, storage) == DefaultsOf(items)
    ensures k in KeysOf(items) ==>
      Loaded(items, storage)[k] ==
        if SavedObject(storage).Some? && k in SavedObject(storage).value
        then JsonTruthy(SavedObject(storage).value[k])
        else DefaultsOf(items)[k]
  {
    var d := DefaultsOf(items);
    match SavedObject(storage)
    case None =>
    case Some(f) =>
      forall x ensures x in Overlay(items, f, d) <==> x in d {
        OverlayValues(items, f, d, x);
      }
      OverlayValues(items, f, d, k);
  }

  /** `saveState(map)`: an object with one boolean property per key, written
      as JSON and read back by `JSON.parse` as the same object. */
  function Serialized(state: map<string, bool>): (r: Stored)
    ensures r.Parsed? && r.json.JObj? && r.json.fields.Keys == state.Keys
    ensures forall k :: k in state ==> r.json.fields[k] == JBool(state[k])
  {
    Parsed(JObj(map k | k in state :: JBool(state[k])))
  }

  /** Saving a state and loading it again restores it exactly. */
  lemma SaveLoadRoundTrip(items: seq<Item>, state: map<string, bool>)
    requires state.Keys == KeysOf(items)
    ensures Loaded(items, Some(Serialized(state))) == state
  {
    var f := Serialized(state).json.fields;
    assert SavedObject(Some(Serialized(state))) == Some(f);
    var m := Loaded(items, Some(Serialized(state)));
    forall x ensures x in m <==> x in state
    {
      OverlayValues(items, f, DefaultsOf(items), x);
    }
    forall x | x in m ensures m[x] == state[x]
    {
      OverlayValues(items, f, DefaultsOf(items), x);
    }
  }

  // --------------------------------------------------------------- first run

  /** `!localStorage.getItem(ST_STORAGE_KEY)`: null or the empty string. */
  predicate IsFirstRun(storage: Option<Stored>)
  {
    storage.None? || storage == Some(Blank)
  }

  /** The state after the first-run pass: every menu switch present is on. */
  function FirstRunState(m: map<string, bool>): map<string, bool>
  {
    map k | k in m :: if k in MenuKeys then true else m[k]
  }

  /** The first-run pass over `MENU_SWITCHES`. */
  method ApplyFirstRun(m0: map<string, bool>) returns (m: map<string, bool>)
    ensures m == FirstRunState(m0)
    ensures m.Keys == m0.Keys
    ensures forall k :: k in m && k in MenuKeys ==> m[k]
    ensures forall k :: k in m && k !in MenuKeys ==> m[k] == m0[k]
  {
    m := m0;
    var j := 0;
    while j < |MenuKeys|
      invariant 0 <= j <= |MenuKeys|
      invariant m.Keys == m0.Keys
      invariant forall k :: k in m ==> m[k] == if k in MenuKeys[..j] then true else m0[k]
    {
      if MenuKeys[j] in m {
        m := m[MenuKeys[j] := true];
      }
      assert MenuKeys[..j + 1] == MenuKeys[..j] + [MenuKeys[j]];
      j := j + 1;
    }
    assert MenuKeys[..j] == MenuKeys;
  }

  /** The state the page starts from. */
  function StartupState(items: seq<Item>, storage: Option<Stored>): map<string, bool>
  {
    var m := Loaded(items, storage);
    if IsFirstRun(storage) then FirstRunState(m) else m
  }

  /** Every item of a menu switch defaults to on. */
  predicate MenuItemsOn(items: seq<Item>)
  {
    forall i :: 0 <= i < |items| && items[i].key in MenuKeys ==> items[i].value
  }

  lemma ItemsMenuOn()
    ensures MenuItemsOn(Items)
  {
    forall i | 0 <= i < 3 ensures Items[i].key !in MenuKeys {
      assert forall j :: 0 <= j < |MenuKeys| ==> MenuKeys[j][1] != Items[i].key[1];
    }
  }

  /** When every menu item defaults to on, so do the menu keys of the
      defaults map. */
  lemma {:induction false} MenuDefaultsOn(items: seq<Item>)
    requires MenuItemsOn(items)
    ensures forall k :: k in DefaultsOf(items) && k in MenuKeys ==> DefaultsOf(items)[k]
  {
    if items != [] {
      var init := items[..|items| - 1];
      assert forall i :: 0 <= i < |init| ==> init[i] == items[i];
      MenuDefaultsOn(init);
    }
  }

  /** The first run starts from exactly the defaults when the menu switches
      already default to on, as they do in `stItems`. */
  lemma FirstRunIsDefaults(items: seq<Item>, storage: Option<Stored>)
    requires MenuItemsOn(items) && IsFirstRun(storage)
    ensures StartupState(items, storage) == DefaultsOf(items)
  {
    MenuDefaultsOn(items);
    FirstRunKeepsOn(items, storage);
  }

  lemma FirstRunKeepsOn(items: seq<Item>, storage: Option<Stored>)
    requires IsFirstRun(storage)
    requires forall k :: k in DefaultsOf(items) && k in MenuKeys ==> DefaultsOf(items)[k]
    ensures StartupState(items, storage) == DefaultsOf(items)
  {
  }

  /** On a later visit the page starts from exactly the state last saved. */
  lemma ReloadRestoresSaved(items: seq<Item>, state: map<string, bool>)
    requires state.Keys == KeysOf(items)
    ensures StartupState(items, Some(Serialized(state))) == state
  {
    SaveLoadRoundTrip(items, state);
  }

  // ------------------------------------------------------------ menu toggles

  /** The attributes `setMenuEnabled` writes on a menu tab; `None` for an
      attribute the page has not set. */
  datatype Node = Node(
    hidden: bool,
    ariaHidden: Option<string>,
    ariaDisabled: Option<string>,
    tabindex: Option<string>,
    ariaExpanded: Option<string>)

  /** The attributes of a tab that shows switch state `on`. */
  predicate ShowsEnabled(n: Node, on: bool)
  {
    && n.hidden == !on
    && n.ariaHidden == Some(BoolText(!on))
    && n.ariaDisabled == Some(BoolText(!on))
    && n.tabindex == Some(if on then "0" else "-1")
    && (!on ==> n.ariaExpanded == Some("false"))
  }

  /** `setMenuEnabled(selector, enabled)` on a tab that is present. */
  function SetMenuEnabled(n: Node, enabled: bool): (r: Node)
    ensures ShowsEnabled(r, enabled)
    ensures enabled ==> r.ariaExpanded == n.ariaExpanded
  {
    Node(!enabled, Some(BoolText(!enabled)), Some(BoolText(!enabled)),
      Some(if enabled then "0" else "-1"),
      if enabled then n.ariaExpanded else Some("false"))
  }

  /** A tab's attributes tell which way its switch was last set. */
  lemma ShowsEnabledUnique(n: Node, a: bool, b: bool)
    requires ShowsEnabled(n, a) && ShowsEnabled(n, b)
    ensures a == b
  {
  }

  /** `!!ST.get(k)`. */
  function On(state: map<string, bool>, k: string): bool
  {
    k in state && state[k]
  }

  /** Every menu tab present shows the state of its switch. */
  predicate InSync(menus: map<string, Node>, state: map<string, bool>)
  {
    forall k :: k in menus && k in MenuKeys ==> ShowsEnabled(menus[k], On(state, k))
  }

  /** `syncAllMenus()`: paint every menu tab present from the state. */
  method SyncAllMenus(menus0: map<string, Node>, state: map<string, bool>) returns (menus: map<string, Node>)
    ensures menus.Keys == menus0.Keys
    ensures InSync(menus, state)
    ensures forall k :: k in menus && k !in MenuKeys ==> menus[k] == menus0[k]
  {
    menus := menus0;
    var j := 0;
    while j < |MenuKeys|
      invariant 0 <= j <= |MenuKeys|
      invariant menus.Keys == menus0.Keys
      invariant forall k :: k in menus && k in MenuKeys[..j] ==> ShowsEnabled(menus[k], On(state, k))
      invariant forall k :: k in menus && k !in MenuKeys[..j] ==> menus[k] == menus0[k]
    {
      var k := MenuKeys[j];
      if k in menus {
        menus := menus[k := SetMenuEnabled(menus[k], On(state, k))];
      }
      assert MenuKeys[..j + 1] == MenuKeys[..j] + [k];
      j := j + 1;
    }
    assert MenuKeys[..j] == MenuKeys;
  }

  /** The subscriber a menu switch registered: a change of switch `key` to
      `value` repaints its tab, when the tab is present. */
  function Notify(menus: map<string, Node>, key: string, value: bool): (r: map<string, Node>)
    ensures r.Keys == menus.Keys
    ensures forall k :: k in r && k != key ==> r[k] == menus[k]
    ensures key in r && key in MenuKeys ==> ShowsEnabled(r[key], value)
  {
    if key in MenuKeys && key in menus then menus[key := SetMenuEnabled(menus[key], value)] else menus
  }

  /** Repainting after a change keeps every tab in step with the state. */
  lemma NotifyKeepsSync(menus: map<string, Node>, state: map<string, bool>, key: string, value: bool)
    requires InSync(menus, state)
    ensures InSync(Notify(menus, key, value), state[key := value])
  {
  }

  // ------------------------------------------------------------------- store

  /** The `detail` of an `st:change` event. */
  datatype Change = Change(key: string, name: string, caption: string, value: bool)

  /** The items by key, as `stItems.find` returns them. */
  function ItemMap(items: seq<Item>): (r: map<string, Item>)
    ensures r.Keys == KeysOf(items)
    ensures forall k :: k in r ==> r[k].key == k && r[k] in items
  {
    map k | k in KeysOf(items) :: Find(items, k).value
  }

  /** The store over a list of switch items (the page passes `Items`). */
  class SwitchStore {
    /** `stItems`, by key. */
    const byKey: map<string, Item>
    /** `STState`. */
    var state: map<string, bool>
    /** `localStorage['st:switches:v1']`. */
    var storage: Option<Stored>
    /** How many times `saveState` has run. */
    var writes: nat
    /** The `checked` flag of each switch checkbox in the grid. */
    var checked: map<string, bool>
    /** The tooltip text of each switch label in the grid. */
    var tooltips: map<string, string>
    /** The menu tabs of `MENU_SWITCHES` that are present in the page. */
    var menus: map<string, Node>
    /** Every `st:change` event dispatched so far. */
    var events: seq<Change>

    ghost predicate Valid()
      reads this
    {
      && state.Keys == byKey.Keys
      && checked.Keys <= byKey.Keys
      && tooltips.Keys == checked.Keys
    }

    ghost predicate MenusInSync()
      reads this
    {
      InSync(menus, state)
    }

    /** The event for switch `key` taking `value`. */
    function ChangeOf(key: string, value: bool): Change
      requires key in byKey
    {
      Change(key, byKey[key].name, byKey[key].caption, value)
    }

    /** Page start: load, apply the first-run defaults and save once when
        nothing was stored, paint the menu tabs, build the grid. */
    constructor (items: seq<Item>, storage0: Option<Stored>, menus0: map<string, Node>)
      ensures byKey == ItemMap(items)
      ensures Valid() && MenusInSync()
      ensures state == StartupState(items, storage0)
      ensures IsFirstRun(storage0) ==> storage == Some(Serialized(state)) && writes == 1
      ensures !IsFirstRun(storage0) ==> storage == storage0 && writes == 0
      ensures checked == state && events == [] && menus.Keys == menus0.Keys
      ensures forall k :: k in tooltips ==> tooltips[k] == byKey[k].tooltip
    {
      var m := LoadInitialState(items, storage0);
      LoadedMeaning(items, storage0, "");
      var stored := storage0;
      var w := 0;
      if IsFirstRun(storage0) {
        m := ApplyFirstRun(m);
        stored := Some(Serialized(m));
        w := 1;
      }
      var painted := SyncAllMenus(menus0, m);
      var its := ItemMap(items);
      byKey := its;
      state := m;
      storage := stored;
      writes := w;
      checked := m;
      tooltips := map k | k in m :: its[k].tooltip;
      menus := painted;
      events := [];
    }

    /** `ST.set(key, val, { save, emit })`: ignored for an unknown key or a
        missing checkbox; otherwise the checkbox and the state take the
        value, the state is saved only when asked to and the value
        changed, and a change event is emitted when asked to. */
    method Set(key: string, val: bool, save: bool, emit: bool)
      requires Valid()
      modifies this
      ensures Valid()
      ensures key !in old(state) || key !in old(checked) ==>
        && state == old(state) && storage == old(storage) && writes == old(writes)
        && checked == old(checked) && tooltips == old(tooltips)
        && menus == old(menus) && events == old(events)
      ensures key in old(state) && key in old(checked) ==>
        && state == old(state)[key := val]
        && checked == old(checked)[key := val]
        && tooltips == old(tooltips)[key := byKey[key].tooltip]
      ensures key in old(state) && key in old(checked) && save && val != old(state)[key] ==>
        storage == Some(Serialized(state)) && writes == old(writes) + 1
      ensures !(save && key in old(state) && key in old(checked) && val != old(state)[key]) ==>
        storage == old(storage) && writes == old(writes)
      ensures key in old(state) && key in old(checked) && emit ==>
        events == old(events) + [ChangeOf(key, val)] && menus == Notify(old(menus), key, val)
      ensures !emit ==> events == old(events) && menus == old(menus)
      ensures emit && old(MenusInSync()) ==> MenusInSync()
    {
      if key !in state {
        return;
      }
      if key !in checked {
        return;
      }
      Write(key, val, save);
      if emit {
        if old(MenusInSync()) {
          NotifyKeepsSync(menus, old(state), key, val);
        }
        Emit(key, val);
      }
    }

    /** The writes `ST.set` makes once both guards have passed. */
    method Write(key: string, val: bool, save: bool)
      requires Valid() && key in state && key in checked
      modifies this
      ensures Valid()
      ensures state == old(state)[key := val] && checked == old(checked)[key := val]
      ensures tooltips == old(tooltips)[key := byKey[key].tooltip]
      ensures save && val != old(state)[key] ==> storage == Some(Serialized(state)) && writes == old(writes) + 1
      ensures !(save && val != old(state)[key]) ==> storage == old(storage) && writes == old(writes)
      ensures menus == old(menus) && events == old(events)
    {
      var prev := state[key];
      checked := checked[key := val];
      state := state[key := val];
      if save && val != prev {
        storage := Some(Serialized(state));
        writes := writes + 1;
      }
      tooltips := tooltips[key := byKey[key].tooltip];
    }

    /** `emitChange` with the menu subscribers attached. */
    method Emit(key: string, value: bool)
      requires key in byKey
      modifies this
      ensures events == old(events) + [ChangeOf(key, value)]
      ensures menus == Notify(old(menus), key, value)
      ensures state == old(state) && storage == old(storage) && writes == old(writes)
      ensures checked == old(checked) && tooltips == old(tooltips)
    {
      events := events + [ChangeOf(key, value)];
      menus := Notify(menus, key, value);
    }

    /** The user flips a switch checkbox and the grid's change handler runs:
        the state takes the new value, is saved unconditionally, the label's
        tooltip shows `<label>: <value>` and a change event is emitted. */
    method Toggle(key: string)
      requires Valid() && key in checked
      modifies this
      ensures Valid()
      ensures var value := !old(checked)[key];
        && checked == old(checked)[key := value]
        && state == old(state)[key := value]
        && storage == Some(Serialized(state)) && writes == old(writes) + 1
        && tooltips == old(tooltips)[key := byKey[key].caption + ": " + BoolText(value)]
        && events == old(events) + [ChangeOf(key, value)]
        && menus == Notify(old(menus), key, value)
      ensures old(MenusInSync()) ==> MenusInSync()
    {
      var value := !checked[key];
      checked := checked[key := value];
      state := state[key := value];
      storage := Some(Serialized(state));
      writes := writes + 1;
      tooltips := tooltips[key := byKey[key].caption + ": " + BoolText(value)];
      if old(MenusInSync()) {
        NotifyKeepsSync(menus, old(state), key, value);
      }
      Emit(key, value);
    }
  }
}
