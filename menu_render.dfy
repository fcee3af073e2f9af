/** The primary menus (ExtraNav/nav-ux.js, second section): `getByPath`
    over the HREFS route registry, `resolveKeys`, which fills in icons and
    links from the registries, and `renderMenu`, which cuts a menu at its
    separators into `ul.list` sections. The DOM a menu renders to becomes
    a sequence of blocks; the event handlers `attachNav` and
    `enhanceFlyout` add are left out. */
module MenuRender {
  import opened Text

  // ---------------------------------------------------------------- getByPath

  /** A value reached in the HREFS registry: nested objects with string
      leaves, or `undefined`. */
  datatype Value = Undef | Str(s: string) | Obj(fields: map<string, Value>)

  predicate ValueTruthy(v: Value)
  {
    match v
    case Undef => false
    case Str(s) => s != ""
    case Obj(_) => true
  }

  /** One step of the `reduce`: `o ? o[k] : undefined`, looking only at
      an object's own keys. A string has no segments below it here, and
      inherited members (`constructor`, a string's `length` or its
      characters) are not modelled. */
  function Step(o: Value, k: string): (r: Value)
    ensures !ValueTruthy(o) ==> r == Undef
    ensures o.Obj? ==> r == if k in o.fields then o.fields[k] else Undef
  {
    match o
    case Obj(f) => if k in f then f[k] else Undef
    case _ => Undef
  }

  /** The `reduce` over the path segments. */
  function Walk(o: Value, keys: seq<string>): Value
    decreases |keys|
  {
    if keys == [] then o else Walk(Step(o, keys[0]), keys[1..])
  }

  /** `getByPath(root, path)`. */
  function GetByPath(root: Value, path: string): Value
  {
    Walk(root, Split(path, '.'))
  }

  /** Once the walk has fallen to `undefined` it stays there. */
  lemma {:induction false} WalkUndef(keys: seq<string>)
    ensures Walk(Undef, keys) == Undef
  {
    if keys != [] {
      WalkUndef(keys[1..]);
    }
  }

  lemma {:induction false} WalkAppend(o: Value, a: seq<string>, b: seq<string>)
    ensures Walk(o, a + b) == Walk(Walk(o, a), b)
    decreases |a|
  {
    if a == [] {
      assert a + b == b;
    } else {
      assert (a + b)[1..] == a[1..] + b;
      WalkAppend(Step(o, a[0]), a[1..], b);
    }
  }

  /** The result is `undefined` as soon as one segment is missing: when the
      walk over the first `i` segments reaches a value that is not an
      object owning segment `i`, the whole path is `undefined` (for paths
      through own object keys, as `Step` models them). */
  lemma MissingSegment(root: Value, path: string, i: nat)
    requires i < |Split(path, '.')|
    requires var o := Walk(root, Split(path, '.')[..i]);
      !(o.Obj? && Split(path, '.')[i] in o.fields)
    ensures GetByPath(root, path) == Undef
  {
    var keys := Split(path, '.');
    assert keys == keys[..i] + ([keys[i]] + keys[i + 1..]);
    WalkAppend(root, keys[..i], [keys[i]] + keys[i + 1..]);
    var o := Walk(root, keys[..i]);
    assert Step(o, keys[i]) == Undef;
    WalkUndef(keys[i + 1..]);
  }

  /** The registry holding `leaf` at the nested path `keys`. */
  function Nest(keys: seq<string>, leaf: Value): Value
  {
    if keys == [] then leaf else Obj(map[keys[0] := Nest(keys[1..], leaf)])
  }

  /** A dotted path finds the value stored under its segments. */
  lemma PathFindsNested(keys: seq<string>, leaf: Value)
    requires |keys| >= 1
    requires forall i :: 0 <= i < |keys| ==> '.' !in keys[i]
    ensures GetByPath(Nest(keys, leaf), Join(keys, ".")) == leaf
  {
    assert "." == ['.'];
    SplitJoin(keys, '.');
    WalkNest(keys, leaf);
  }

  lemma {:induction false} WalkNest(keys: seq<string>, leaf: Value)
    ensures Walk(Nest(keys, leaf), keys) == leaf
  {
    if keys != [] {
      WalkNest(keys[1..], leaf);
    }
  }

  // -------------------------------------------------------------- resolveKeys

  /** A menu definition entry: a separator, or an item with the optional
      properties the renderer reads (`hasSubmenu` says whether the
      `submenu` array is there at all; an empty one still counts). */
  datatype MenuItem =
    | Separator
    | Entry(
        caption: Option<string>,
        icon: Option<string>,
        iconKey: Option<string>,
        href: Value,
        hrefKey: Option<string>,
        variant: Option<string>,
        color: Option<string>,
        target: Option<string>,
        hasSubmenu: bool,
        submenu: seq<MenuItem>)

  /** A string property's truthiness: present and non-empty. */
  predicate Present(o: Option<string>)
  {
    o.Some? && o.value != ""
  }

  /** `ICONS[key]`, truthy only for a present non-empty icon. */
  function IconAt(icons: map<string, string>, key: string): Option<string>
  {
    if key in icons then Some(icons[key]) else None
  }

  /** The icon `resolveKeys` leaves on an item: the explicit icon, else the
      registry icon named by `iconKey`, else the registry's `blank`. */
  function ResolvedIcon(it: MenuItem, icons: map<string, string>): (r: Option<string>)
    requires it.Entry?
    ensures Present(it.icon) ==> r == it.icon
    ensures !Present(it.icon) && Present(it.iconKey) && Present(IconAt(icons, it.iconKey.value)) ==>
      r == IconAt(icons, it.iconKey.value)
    ensures !Present(it.icon) && !(Present(it.iconKey) && Present(IconAt(icons, it.iconKey.value))) ==>
      r == IconAt(icons, "blank")
  {
    if Present(it.icon) then it.icon
    else if Present(it.iconKey) && Present(IconAt(icons, it.iconKey.value)) then IconAt(icons, it.iconKey.value)
    else IconAt(icons, "blank")
  }

  /** The link `resolveKeys` leaves on an item: the explicit href, else
      the registry value at `hrefKey` when there is one. */
  function ResolvedHref(it: MenuItem, hrefs: Value): (r: Value)
    requires it.Entry?
    ensures ValueTruthy(it.href) || !Present(it.hrefKey) ==> r == it.href
    ensures !ValueTruthy(it.href) && Present(it.hrefKey) ==> r == GetByPath(hrefs, it.hrefKey.value)
  {
    if !ValueTruthy(it.href) && Present(it.hrefKey) then GetByPath(hrefs, it.hrefKey.value) else it.href
  }

  /** `resolveKeys` on one entry. */
  function ResolveItem(it: MenuItem, hrefs: Value, icons: map<string, string>): (r: MenuItem)
    requires it.Entry?
    ensures r.Entry?
    ensures r.icon == ResolvedIcon(it, icons) && r.href == ResolvedHref(it, hrefs)
    ensures r.caption == it.caption && r.variant == it.variant && r.color == it.color && r.target == it.target
    ensures r.iconKey == it.iconKey && r.hrefKey == it.hrefKey
    ensures r.hasSubmenu == it.hasSubmenu && |r.submenu| == |it.submenu|
    ensures it.hasSubmenu ==> r.submenu == Resolve(it.submenu, hrefs, icons)
    decreases it, 1
  {
    it.(icon := ResolvedIcon(it, icons), href := ResolvedHref(it, hrefs),
        submenu := if it.hasSubmenu then Resolve(it.submenu, hrefs, icons) else it.submenu)
  }

  /** `resolveKeys(items)`: separators are kept as they are, every other
      entry is resolved, submenus included. */
  function Resolve(items: seq<MenuItem>, hrefs: Value, icons: map<string, string>): (r: seq<MenuItem>)
    ensures |r| == |items|
    ensures forall i :: 0 <= i < |items| ==> (r[i].Separator? <==> items[i].Separator?)
    decreases items, 0
  {
    if items == [] then []
    else
      var head := if items[0].Separator? then Separator else ResolveItem(items[0], hrefs, icons);
      [head] + Resolve(items[1..], hrefs, icons)
  }

  lemma {:induction false} ResolveAt(items: seq<MenuItem>, hrefs: Value, icons: map<string, string>, i: nat)
    requires i < |items|
    ensures Resolve(items, hrefs, icons)[i] ==
      if items[i].Separator? then Separator else ResolveItem(items[i], hrefs, icons)
  {
    if i > 0 {
      ResolveAt(items[1..], hrefs, icons, i - 1);
    }
  }

  // ---------------------------------------------------------------- rendering

  /** `VARIANT_CLASS[variant]`: the table maps `ok` to `special` and
      `warn` to `delete`, and has no other own key. */
  function VariantClass(variant: Option<string>): (r: Option<string>)
    ensures variant == Some("ok") ==> r == Some("special")
    ensures variant == Some("warn") ==> r == Some("delete")
    ensures r.Some? <==> variant == Some("ok") || variant == Some("warn")
  {
    if variant == Some("ok") then Some("special")
    else if variant == Some("warn") then Some("delete")
    else None
  }

  /** The class list of a rendered top-level entry. */
  function EntryClass(it: MenuItem): (r: string)
    requires it.Entry?
    ensures |r| >= 7 && r[..7] == "element"
    ensures it.hasSubmenu ==> |r| >= 19 && r[7..19] == " has-submenu"
    ensures !it.hasSubmenu && VariantClass(it.variant).None? ==> r == "element"
    ensures it.hasSubmenu && VariantClass(it.variant).None? ==> r == "element has-submenu"
    ensures VariantClass(it.variant).Some? ==>
      var c := VariantClass(it.variant).value;
      |r| == (if it.hasSubmenu then 19 else 7) + 1 + |c| && r[|r| - |c| - 1..] == " " + c
  {
    "element"
      + (if it.hasSubmenu then " has-submenu" else "")
      + (if VariantClass(it.variant).Some? then " " + VariantClass(it.variant).value else "")
  }

  /** What `attachNav` records: the URL and the link target. */
  datatype Nav = Nav(url: Value, target: string)

  /** The link of an entry, attached only when its href is truthy; a
      missing target defaults to `_self`. */
  function NavOf(it: MenuItem): (r: Option<Nav>)
    requires it.Entry?
    ensures r.Some? <==> ValueTruthy(it.href)
    ensures r.Some? ==> r.value.url == it.href
    ensures r.Some? && it.target.Some? ==> r.value.target == it.target.value
    ensures r.Some? && it.target.None? ==> r.value.target == "_self"
  {
    if ValueTruthy(it.href) then
      Some(Nav(it.href, if it.target.Some? then it.target.value else "_self"))
    else None
  }

  function OrNone(o: Option<string>): (r: Option<string>)
    ensures r.Some? <==> Present(o)
  {
    if Present(o) then o else None
  }

  /** A rendered entry of a `ul.sublist`. */
  datatype SubLi = SubSep | SubEntry(color: Option<string>, icon: Option<string>, text: string, nav: Option<Nav>)

  /** A rendered `li.element`. */
  datatype Li = Li(cls: string, color: Option<string>, icon: Option<string>, text: string,
                   nav: Option<Nav>, sublist: Option<seq<SubLi>>)

  /** A block of the rendered menu: a `ul.list` section or a top-level
      separator. */
  datatype Block = Section(lis: seq<Li>) | TopSep

  function LabelText(caption: Option<string>): string
  {
    if caption.Some? then caption.value else ""
  }

  function SubOf(s: MenuItem): (r: SubLi)
    ensures r.SubSep? <==> s.Separator?
  {
    if s.Separator? then SubSep
    else SubEntry(OrNone(s.color), OrNone(s.icon), LabelText(s.caption), NavOf(s))
  }

  /** The sublist built from a submenu: one entry per item, in order. */
  function SubList(subs: seq<MenuItem>): (r: seq<SubLi>)
    ensures |r| == |subs|
    ensures forall i :: 0 <= i < |subs| ==> r[i] == SubOf(subs[i])
  {
    if subs == [] then [] else SubList(subs[..|subs| - 1]) + [SubOf(subs[|subs| - 1])]
  }

  /** The `li` rendered for a (resolved) entry; a sublist is built only for
      a non-empty submenu. */
  function LiOf(it: MenuItem): Li
    requires it.Entry?
  {
    Li(EntryClass(it), OrNone(it.color), OrNone(it.icon), LabelText(it.caption), NavOf(it),
       if it.hasSubmenu && |it.submenu| > 0 then Some(SubList(it.submenu)) else None)
  }

  /** Building the sublist of a submenu. */
  method RenderSublist(subs: seq<MenuItem>) returns (out: seq<SubLi>)
    ensures out == SubList(subs)
  {
    out := [];
    var j := 0;
    while j < |subs|
      invariant 0 <= j <= |subs|
      invariant out == SubList(subs[..j])
    {
      assert subs[..j + 1][..j] == subs[..j];
      out := out + [SubOf(subs[j])];
      j := j + 1;
    }
    assert subs[..j] == subs;
  }

  /** Building the `li` of one entry. */
  method RenderEntry(it: MenuItem) returns (li: Li)
    requires it.Entry?
    ensures li == LiOf(it)
  {
    var sublist: Option<seq<SubLi>> := None;
    if it.hasSubmenu && |it.submenu| > 0 {
      var sub := RenderSublist(it.submenu);
      sublist := Some(sub);
    }
    li := Li(EntryClass(it), OrNone(it.color), OrNone(it.icon), LabelText(it.caption), NavOf(it), sublist);
  }

  /** `flushSection`: the open section is emitted only when it has entries. */
  function Flush(section: seq<Li>): (r: seq<Block>)
    ensures section == [] ==> r == []
  {
    if section == [] then [] else [Section(section)]
  }

  lemma FlushFacts(section: seq<Li>)
    ensures EntriesOf(Flush(section)) == section
    ensures TopSeps(Flush(section)) == 0
    ensures NoEmptySection(Flush(section))
    ensures EntriesOf([TopSep]) == [] && TopSeps([TopSep]) == 1
  {
    assert [TopSep][..0] == [];
    if section != [] {
      assert [Section(section)][..0] == [];
    }
  }

  /** The emitted blocks and the open section after the loop has seen
      `items`. */
  function Run(items: seq<MenuItem>): (seq<Block>, seq<Li>)
  {
    if items == [] then ([], [])
    else
      var (frag, section) := Run(items[..|items| - 1]);
      var it := items[|items| - 1];
      if it.Separator? then (frag + Flush(section) + [TopSep], [])
      else (frag, section + [LiOf(it)])
  }

  lemma RunSnoc(items: seq<MenuItem>, it: MenuItem)
    ensures Run(items + [it]).0 == if it.Separator? then Run(items).0 + Flush(Run(items).1) + [TopSep] else Run(items).0
    ensures Run(items + [it]).1 == if it.Separator? then [] else Run(items).1 + [LiOf(it)]
  {
    assert (items + [it])[..|items|] == items;
  }

  /** The whole rendered menu for resolved entries. */
  function Blocks(items: seq<MenuItem>): seq<Block>
  {
    Run(items).0 + Flush(Run(items).1)
  }

  /** `renderMenu(container, items)`: resolve, then lay the entries out. */
  method RenderMenu(items: seq<MenuItem>, hrefs: Value, icons: map<string, string>) returns (frag: seq<Block>)
    ensures frag == Blocks(Resolve(items, hrefs, icons))
    ensures EntriesOf(frag) == LisOf(NonSeparators(Resolve(items, hrefs, icons)))
    ensures NoEmptySection(frag)
    ensures TopSeps(frag) == Separators(items)
  {
    var resolved := Resolve(items, hrefs, icons);
    frag := Layout(resolved);
    BlocksMeaning(resolved);
    ResolveKeepsSeparators(items, hrefs, icons);
  }

  /** The loop of `renderMenu` over resolved entries, with `flushSection`
      at every separator and once at the end. */
  method Layout(resolved: seq<MenuItem>) returns (frag: seq<Block>)
    ensures frag == Blocks(resolved)
  {
    frag := [];
    var section: seq<Li> := [];
    var k := 0;
    while k < |resolved|
      invariant 0 <= k <= |resolved|
      invariant frag == Run(resolved[..k]).0 && section == Run(resolved[..k]).1
    {
      var it := resolved[k];
      assert resolved[..k + 1] == resolved[..k] + [it];
      RunSnoc(resolved[..k], it);
      if it.Separator? {
        if section != [] {
          frag := frag + [Section(section)];
        }
        section := [];
        frag := frag + [TopSep];
      } else {
        var li := RenderEntry(it);
        section := section + [li];
      }
      k := k + 1;
    }
    if section != [] {
      frag := frag + [Section(section)];
    }
    assert resolved[..k] == resolved;
  }

  // --------------------------------------------------------------- properties

  /** Every entry of every section, in order. */
  function EntriesOf(blocks: seq<Block>): seq<Li>
  {
    if blocks == [] then []
    else EntriesOf(blocks[..|blocks| - 1]) + (match blocks[|blocks| - 1] case Section(lis) => lis case TopSep => [])
  }

  predicate NoEmptySection(blocks: seq<Block>)
  {
    forall i :: 0 <= i < |blocks| ==> blocks[i] != Section([])
  }

  function TopSeps(blocks: seq<Block>): nat
  {
    if blocks == [] then 0 else TopSeps(blocks[..|blocks| - 1]) + (if blocks[|blocks| - 1].TopSep? then 1 else 0)
  }

  function Separators(items: seq<MenuItem>): nat
  {
    if items == [] then 0 else Separators(items[..|items| - 1]) + (if items[|items| - 1].Separator? then 1 else 0)
  }

  function NonSeparators(items: seq<MenuItem>): (r: seq<MenuItem>)
    ensures forall i :: 0 <= i < |r| ==> r[i].Entry?
  {
    if items == [] then []
    else NonSeparators(items[..|items| - 1]) + (if items[|items| - 1].Separator? then [] else [items[|items| - 1]])
  }

  function LisOf(items: seq<MenuItem>): (r: seq<Li>)
    requires forall i :: 0 <= i < |items| ==> items[i].Entry?
    ensures |r| == |items|
    ensures forall i :: 0 <= i < |items| ==> r[i] == LiOf(items[i])
  {
    if items == [] then [] else LisOf(items[..|items| - 1]) + [LiOf(items[|items| - 1])]
  }

  lemma EntriesOfAppend(a: seq<Block>, b: seq<Block>)
    ensures EntriesOf(a + b) == EntriesOf(a) + EntriesOf(b)
    decreases |b|
  {
    if b != [] {
      assert (a + b)[..|a + b| - 1] == a + b[..|b| - 1];
      EntriesOfAppend(a, b[..|b| - 1]);
    } else {
      assert a + b == a;
    }
  }

  lemma TopSepsAppend(a: seq<Block>, b: seq<Block>)
    ensures TopSeps(a + b) == TopSeps(a) + TopSeps(b)
    decreases |b|
  {
    if b != [] {
      assert (a + b)[..|a + b| - 1] == a + b[..|b| - 1];
      TopSepsAppend(a, b[..|b| - 1]);
    } else {
      assert a + b == a;
    }
  }

  /** What the loop keeps: the emitted sections followed by the open one
      hold exactly the entries seen so far, in order. */
  lemma {:induction false} RunEntries(items: seq<MenuItem>)
    ensures EntriesOf(Run(items).0) + Run(items).1 == LisOf(NonSeparators(items))
  {
    if items != [] {
      var init := items[..|items| - 1];
      var it := items[|items| - 1];
      RunEntries(init);
      var frag := Run(init).0;
      var section := Run(init).1;
      if it.Separator? {
        FlushFacts(section);
        EntriesOfAppend(frag, Flush(section));
        EntriesOfAppend(frag + Flush(section), [TopSep]);
      } else {
        assert NonSeparators(items) == NonSeparators(init) + [it];
      }
    }
  }

  /** No emitted section is empty. */
  lemma {:induction false} RunNoEmpty(items: seq<MenuItem>)
    ensures NoEmptySection(Run(items).0)
  {
    if items != [] {
      RunNoEmpty(items[..|items| - 1]);
    }
  }

  /** One top-level separator per separator seen. */
  lemma {:induction false} RunTopSeps(items: seq<MenuItem>)
    ensures TopSeps(Run(items).0) == Separators(items)
  {
    if items != [] {
      var init := items[..|items| - 1];
      RunTopSeps(init);
      var frag := Run(init).0;
      var section := Run(init).1;
      if items[|items| - 1].Separator? {
        FlushFacts(section);
        TopSepsAppend(frag, Flush(section));
        TopSepsAppend(frag + Flush(section), [TopSep]);
      }
    }
  }

  /** The rendered menu holds every non-separator entry in exactly one
      section, in order; no section is empty; there is one top-level
      separator per separator. */
  lemma BlocksMeaning(items: seq<MenuItem>)
    ensures EntriesOf(Blocks(items)) == LisOf(NonSeparators(items))
    ensures NoEmptySection(Blocks(items))
    ensures TopSeps(Blocks(items)) == Separators(items)
  {
    RunEntries(items);
    RunNoEmpty(items);
    RunTopSeps(items);
    var frag := Run(items).0;
    var section := Run(items).1;
    FlushFacts(section);
    EntriesOfAppend(frag, Flush(section));
    TopSepsAppend(frag, Flush(section));
  }

  /** After a separator the loop starts over: what follows it is laid out
      as if it were a menu of its own. */
  lemma {:induction false} RunAfterSeparator(a: seq<MenuItem>, b: seq<MenuItem>)
    ensures Run(a + [Separator] + b) == (Blocks(a) + [TopSep] + Run(b).0, Run(b).1)
    decreases |b|
  {
    if b == [] {
      RunAfterSeparatorBase(a);
      assert a + [Separator] + b == a + [Separator];
    } else {
      RunAfterSeparator(a, b[..|b| - 1]);
      RunAfterSeparatorStep(a, b[..|b| - 1], b[|b| - 1]);
      assert b[..|b| - 1] + [b[|b| - 1]] == b;
    }
  }

  lemma RunAfterSeparatorBase(a: seq<MenuItem>)
    ensures Run(a + [Separator]) == (Blocks(a) + [TopSep] + Run([]).0, Run([]).1)
  {
    RunSnoc(a, Separator);
    assert Run([]) == ([], []);
    assert Blocks(a) + [TopSep] + [] == Blocks(a) + [TopSep];
  }

  lemma RunAfterSeparatorStep(a: seq<MenuItem>, init: seq<MenuItem>, x: MenuItem)
    requires Run(a + [Separator] + init) == (Blocks(a) + [TopSep] + Run(init).0, Run(init).1)
    ensures Run(a + [Separator] + (init + [x])) == (Blocks(a) + [TopSep] + Run(init + [x]).0, Run(init + [x]).1)
  {
    var p := Blocks(a) + [TopSep];
    var r := Run(a + [Separator] + init);
    assert a + [Separator] + (init + [x]) == (a + [Separator] + init) + [x];
    RunSnoc(a + [Separator] + init, x);
    RunSnoc(init, x);
    if x.Separator? {
      var tail := Flush(Run(init).1) + [TopSep];
      assert Run(a + [Separator] + init + [x]).0 == r.0 + tail by {
        AppendAssoc(r.0, Flush(r.1), [TopSep]);
      }
      assert Run(init + [x]).0 == Run(init).0 + tail by {
        AppendAssoc(Run(init).0, Flush(Run(init).1), [TopSep]);
      }
      AppendAssoc(p, Run(init).0, tail);
    }
  }

  /** Each separator closes the open section: the menu `a`, a separator,
      then the menu `b`, renders as `a`'s blocks, a top-level separator and
      `b`'s blocks. */
  lemma BlocksAtSeparator(a: seq<MenuItem>, b: seq<MenuItem>)
    ensures Blocks(a + [Separator] + b) == Blocks(a) + [TopSep] + Blocks(b)
  {
    RunAfterSeparator(a, b);
    AppendAssoc(Blocks(a) + [TopSep], Run(b).0, Flush(Run(b).1));
  }

  /** Entries with no separator between them stay in the open section. */
  lemma {:induction false} RunWithoutSeparator(a: seq<MenuItem>)
    requires forall i :: 0 <= i < |a| ==> a[i].Entry?
    ensures Run(a) == ([], LisOf(a))
  {
    if a != [] {
      RunWithoutSeparator(a[..|a| - 1]);
    }
  }

  /** A run of entries with no separator renders as one section (none
      when it is empty). */
  lemma BlocksWithoutSeparator(a: seq<MenuItem>)
    requires forall i :: 0 <= i < |a| ==> a[i].Entry?
    ensures Blocks(a) == Flush(LisOf(a))
  {
    RunWithoutSeparator(a);
  }

  /** Resolving keeps the separators where they were. */
  lemma {:induction false} ResolveKeepsSeparators(items: seq<MenuItem>, hrefs: Value, icons: map<string, string>)
    ensures Separators(Resolve(items, hrefs, icons)) == Separators(items)
    decreases |items|
  {
    var r := Resolve(items, hrefs, icons);
    if items != [] {
      var n := |items| - 1;
      assert Resolve(items[..n], hrefs, icons) == r[..n] by {
        forall i | 0 <= i < n ensures Resolve(items[..n], hrefs, icons)[i] == r[i] {
          ResolveAt(items[..n], hrefs, icons, i);
          ResolveAt(items, hrefs, icons, i);
        }
      }
      ResolveKeepsSeparators(items[..n], hrefs, icons);
    }
  }
}
