/** Small pure helpers of the navigation bar (ExtraNav/nav-ux.js): the
    responsive search placeholder, the inbox badge, pruning of paint
    declarations from SVG `style` attributes, the switch icon precedence,
    the hotbutton editor's save and apply logic, and the search-scope
    submit. */
module NavHelpers {
  import opened Text

  // ---------------------------------------------------------------- search placeholder

  /** The width band of the menubar: 0 up to 400, 1 up to 550, 2 up to
      1000, 3 beyond. */
  function PlaceholderTier(w: real): (k: nat)
    ensures k <= 3
    ensures k == 0 <==> w <= 400.0
    ensures k == 3 <==> w > 1000.0
  {
    if w <= 400.0 then 0 else if w <= 550.0 then 1 else if w <= 1000.0 then 2 else 3
  }

  const PlaceholderTexts: seq<string> := ["search...", "Search...", "Feeling Lucky?", "Looking for something...?"]

  /** `setPH(w)`: the placeholder (and `aria-label`) for a menubar of
      width `w`. */
  function SearchPlaceholder(w: real): (txt: string)
    ensures txt == PlaceholderTexts[PlaceholderTier(w)]
  {
    if w <= 400.0 then "search..."
    else if w <= 550.0 then "Search..."
    else if w <= 1000.0 then "Feeling Lucky?"
    else "Looking for something...?"
  }

  /** A wider bar never gets a shorter placeholder, and two widths get the
      same text exactly when they fall in the same band. */
  lemma PlaceholderMonotone(w1: real, w2: real)
    ensures w1 <= w2 ==> PlaceholderTier(w1) <= PlaceholderTier(w2)
    ensures w1 <= w2 ==> |SearchPlaceholder(w1)| <= |SearchPlaceholder(w2)|
    ensures SearchPlaceholder(w1) == SearchPlaceholder(w2) <==> PlaceholderTier(w1) == PlaceholderTier(w2)
  {
  }

  // ---------------------------------------------------------------- inbox badge

  /** A finite number with no fractional part. */
  predicate IsIntegral(v: real)
  {
    v == v.Floor as real
  }

  /** `Math.max(0, Number(n) || 0)`: zero for NaN, zero and anything
      negative, otherwise the number itself (possibly +Infinity). */
  function ClampCount(n: JsNumber): (c: JsNumber)
    ensures c == PosInf || (c.Finite? && c.v >= 0.0)
    ensures c == Finite(0.0) <==> !(n == PosInf || (n.Finite? && n.v > 0.0))
    ensures c != Finite(0.0) ==> c == n
  {
    var m := OrElse(n, Finite(0.0));
    match m
    case PosInf => PosInf
    case Finite(v) => if v > 0.0 then m else Finite(0.0)
    case _ => Finite(0.0)
  }

  /** What the badge shows: whether it is hidden, its text and the
      button's `aria-label`. */
  datatype Badge = Badge(hidden: bool, text: string, ariaLabel: string)

  /** `setInboxCount(n)`: a zero count hides the badge (its text is left as
      it was) and labels the button plain "Inbox"; any other count shows
      it, capped at "99+", and repeats the text in the label. */
  function SetInboxCount(current: Badge, n: JsNumber): (b: Badge)
    requires n.Finite? ==> IsIntegral(n.v)
    ensures b.hidden <==> ClampCount(n) == Finite(0.0)
    ensures b.hidden ==> b.text == current.text && b.ariaLabel == "Inbox"
    ensures !b.hidden ==> b.ariaLabel == "Inbox (" + b.text + ")"
    ensures !b.hidden ==> 1 <= |b.text| <= 3
  {
    var c := ClampCount(n);
    if c == Finite(0.0) then current.(hidden := true, ariaLabel := "Inbox")
    else
      var text := if c == PosInf || c.v > 99.0 then "99+" else NatToDecimal(c.v.Floor);
      assert c.Finite? && c.v <= 99.0 ==> c.v.Floor < 100;
      Badge(false, text, "Inbox (" + text + ")")
  }

  /** `readCountFromSource()`: with no message-center link, zero;
      otherwise the digits of the first span whose text holds a digit
      (or of "0"), read as a decimal number. */
  function ReadCount(linkSpans: Option<seq<string>>): (n: nat)
  {
    if linkSpans.None? then 0
    else
      var raw := match FirstWithDigit(linkSpans.value) case Some(t) => t case None => "0";
      DecimalValue(DigitsOf(raw))
  }

  /** `spans.find(s => /\d/.test(s.textContent))`. */
  function FirstWithDigit(spans: seq<string>): (r: Option<string>)
    ensures r.Some? ==> r.value in spans && DigitsOf(r.value) != []
    ensures r.None? ==> forall k :: 0 <= k < |spans| ==> DigitsOf(spans[k]) == []
  {
    if spans == [] then None
    else if DigitsOf(spans[0]) != [] then Some(spans[0])
    else FirstWithDigit(spans[1..])
  }

  /** A count written as decimal digits between non-digit text, in the
      first span of the link, is read back exactly. */
  lemma ReadCountRoundTrip(k: nat, before: string, after: string, rest: seq<string>)
    requires forall i :: 0 <= i < |before| ==> !IsDigit(before[i])
    requires forall i :: 0 <= i < |after| ==> !IsDigit(after[i])
    ensures ReadCount(Some([before + NatToDecimal(k) + after] + rest)) == k
  {
    var d := NatToDecimal(k);
    var t := before + d + after;
    DigitsOfNone(before);
    DigitsOfNone(after);
    DigitsOfDigits(d);
    DigitsOfAppend(before, d);
    DigitsOfAppend(before + d, after);
    assert DigitsOf(t) == d;
    assert ([t] + rest)[0] == t;
    assert FirstWithDigit([t] + rest) == Some(t);
    DecimalRoundTrip(k);
  }

  /** Syncing the badge from a source that shows `k` displays `k` itself
      up to 99 (and reads back as `k`), "99+" above, and hides the badge
      for zero. */
  lemma SyncShowsCount(current: Badge, k: nat)
    ensures var b := SetInboxCount(current, Finite(k as real));
      && (b.hidden <==> k == 0)
      && (1 <= k <= 99 ==> b.text == NatToDecimal(k) && DecimalValue(b.text) == k)
      && (k > 99 ==> b.text == "99+" && !b.hidden)
  {
    DecimalRoundTrip(k);
  }

  // ---------------------------------------------------------------- SVG style pruning

  /** `r` starts with the property name `w`, optional whitespace and a
      colon. */
  predicate DeclaresProperty(r: string, w: string)
  {
    |w| <= |r| && r[..|w|] == w
    && var rest := TrimStart(r[|w|..]); rest != [] && rest[0] == ':'
  }

  /** `/^(fill|stroke|color)\s*:/.test(r)`. */
  predicate IsPaintDecl(r: string)
  {
    DeclaresProperty(r, "fill") || DeclaresProperty(r, "stroke") || DeclaresProperty(r, "color")
  }

  /** `.map(r => r.trim())`. */
  function TrimAll(xs: seq<string>): (r: seq<string>)
    ensures |r| == |xs|
    ensures forall i :: 0 <= i < |xs| ==> r[i] == Trim(xs[i])
  {
    if xs == [] then [] else [Trim(xs[0])] + TrimAll(xs[1..])
  }

  /** `.filter(Boolean).filter(r => !paint(r))`: the non-empty, non-paint
      declarations, in order. */
  function KeepDecls(xs: seq<string>): (r: seq<string>)
    ensures |r| <= |xs|
    ensures forall i :: 0 <= i < |r| ==> r[i] in xs && r[i] != [] && !IsPaintDecl(r[i])
    ensures forall x :: x in xs && x != [] && !IsPaintDecl(x) ==> x in r
  {
    if xs == [] then []
    else if xs[0] != [] && !IsPaintDecl(xs[0]) then [xs[0]] + KeepDecls(xs[1..])
    else KeepDecls(xs[1..])
  }

  /** A sequence of kept declarations keeps all of them. */
  lemma {:induction false} KeepDeclsAll(xs: seq<string>)
    requires forall i :: 0 <= i < |xs| ==> xs[i] != [] && !IsPaintDecl(xs[i])
    ensures KeepDecls(xs) == xs
  {
    if xs != [] {
      KeepDeclsAll(xs[1..]);
    }
  }

  /** The pruned declarations joined by "; ". */
  function PruneStyle(s: string): (r: string)
  {
    Join(KeepDecls(TrimAll(Split(s, ';'))), "; ")
  }

  /** The `style` attribute after sanitising: a missing or empty attribute
      is left alone; otherwise it becomes the pruned text, or is removed
      when nothing is left. */
  function SanitizedStyle(attr: Option<string>): (r: Option<string>)
    ensures attr.None? || attr == Some("") ==> r == attr
    ensures attr.Some? && attr.value != "" ==>
      r == (if PruneStyle(attr.value) == "" then None else Some(PruneStyle(attr.value)))
  {
    if attr.None? || attr.value == "" then attr
    else
      var p := PruneStyle(attr.value);
      if p == "" then None else Some(p)
  }

  /** Sanitising an already sanitised attribute changes nothing. */
  lemma SanitizedStyleStable(attr: Option<string>)
    ensures SanitizedStyle(SanitizedStyle(attr)) == SanitizedStyle(attr)
  {
    if attr.Some? && attr.value != "" {
      PruneStyleIdempotent(attr.value);
    }
  }

  /** All pieces but the first get a leading space: what splitting a
      "; "-join on ';' yields. */
  function SpaceAfterFirst(ds: seq<string>): (r: seq<string>)
    ensures |r| == |ds|
    ensures forall i :: 0 <= i < |ds| ==> r[i] == if i == 0 then ds[0] else " " + ds[i]
  {
    seq(|ds|, i requires 0 <= i < |ds| => if i == 0 then ds[0] else " " + ds[i])
  }

  lemma {:induction false} JoinSpaced(ds: seq<string>)
    requires |ds| >= 1
    ensures Join(ds, "; ") == Join(SpaceAfterFirst(ds), ";")
  {
    if |ds| >= 2 {
      JoinSpaced(ds[1..]);
      var tail := SpaceAfterFirst(ds[1..]);
      assert SpaceAfterFirst(ds)[1..] == [" " + tail[0]] + tail[1..];
      JoinPrefix(" ", tail, ";");
    }
  }

  /** Reading the declarations back out of a pruned attribute gives the
      kept declarations again: each is trimmed, non-empty and not a paint
      declaration, so nothing more is dropped. */
  lemma PruneStyleDecls(s: string)
    ensures var ds := KeepDecls(TrimAll(Split(s, ';')));
      ds != [] ==> TrimAll(Split(PruneStyle(s), ';')) == ds
  {
    var ds := KeepDecls(TrimAll(Split(s, ';')));
    if ds != [] {
      KeptAreClean(Split(s, ';'), ';');
      ReadBack(ds);
    }
  }

  /** The kept declarations of separator-free pieces are trimmed,
      non-empty and separator-free. */
  lemma KeptAreClean(pieces: seq<string>, sep: char)
    requires forall i :: 0 <= i < |pieces| ==> sep !in pieces[i]
    ensures forall i :: 0 <= i < |KeepDecls(TrimAll(pieces))| ==>
      IsTrimmed(KeepDecls(TrimAll(pieces))[i]) && KeepDecls(TrimAll(pieces))[i] != [] && sep !in KeepDecls(TrimAll(pieces))[i]
  {
    var trimmed := TrimAll(pieces);
    forall i | 0 <= i < |trimmed|
      ensures IsTrimmed(trimmed[i]) && sep !in trimmed[i]
    {
      TrimNoNew(pieces[i], sep);
    }
    KeepClean(trimmed, sep);
  }

  lemma {:induction false} KeepClean(xs: seq<string>, sep: char)
    requires forall i :: 0 <= i < |xs| ==> IsTrimmed(xs[i]) && sep !in xs[i]
    ensures var ds := KeepDecls(xs);
      forall i :: 0 <= i < |ds| ==> IsTrimmed(ds[i]) && ds[i] != [] && sep !in ds[i]
  {
    if xs != [] {
      KeepClean(xs[1..], sep);
    }
  }

  /** Joining clean declarations with "; " and splitting on ';' gives them
      back after trimming. */
  lemma ReadBack(ds: seq<string>)
    requires ds != []
    requires forall i :: 0 <= i < |ds| ==> IsTrimmed(ds[i]) && ds[i] != [] && ';' !in ds[i]
    ensures TrimAll(Split(Join(ds, "; "), ';')) == ds
  {
    var sp := SpaceAfterFirst(ds);
    TrimAllSpaced(ds, ';');
    JoinSpaced(ds);
    assert ";" == [';'];
    SplitJoin(sp, ';');
  }

  /** Trimming the spaced pieces gives the clean declarations back. */
  lemma TrimAllSpaced(ds: seq<string>, sep: char)
    requires sep != ' '
    requires forall i :: 0 <= i < |ds| ==> IsTrimmed(ds[i]) && ds[i] != [] && sep !in ds[i]
    ensures forall i :: 0 <= i < |ds| ==> sep !in SpaceAfterFirst(ds)[i]
    ensures TrimAll(SpaceAfterFirst(ds)) == ds
  {
    var sp := SpaceAfterFirst(ds);
    forall i | 0 <= i < |ds|
      ensures TrimAll(sp)[i] == ds[i]
    {
      TrimSpaced(ds[i]);
      assert " " == [' '];
    }
  }

  /** Pruning twice is pruning once. */
  lemma PruneStyleIdempotent(s: string)
    ensures PruneStyle(PruneStyle(s)) == PruneStyle(s)
  {
    var ds := KeepDecls(TrimAll(Split(s, ';')));
    if ds == [] {
      assert Split("", ';') == [""];
    } else {
      PruneStyleDecls(s);
      KeepDeclsAll(ds);
    }
  }

  // ---------------------------------------------------------------- switch icons

  /** An `ICONS` entry: the markup for the on and off states, if given. */
  datatype IconPair = IconPair(on: Option<string>, off: Option<string>)

  /** `(x ?? '').trim()` for an optional string. */
  function TrimOr(x: Option<string>): (r: string)
    ensures IsTrimmed(r)
  {
    if x.Some? then Trim(x.value) else ""
  }

  /** `ICONS[k]?.[state]`. */
  function IconFor(icons: map<string, IconPair>, k: string, on: bool): Option<string>
  {
    if k !in icons then None else if on then icons[k].on else icons[k].off
  }

  /** `getIconMarkup(item, state)`: the item's own markup for the state,
      else the table entry for its name, else for its key, each trimmed
      and used only when non-blank; otherwise the built-in default. */
  function GetIconMarkup(inline: Option<string>, icons: map<string, IconPair>, name: string, key: string,
                         on: bool, defaultOn: string, defaultOff: string): (r: string)
  {
    if TrimOr(inline) != "" then TrimOr(inline)
    else if TrimOr(IconFor(icons, name, on)) != "" then TrimOr(IconFor(icons, name, on))
    else if TrimOr(IconFor(icons, key, on)) != "" then TrimOr(IconFor(icons, key, on))
    else if on then defaultOn else defaultOff
  }

  /** The result is one of the candidates: a non-blank trimmed source,
      earlier sources shadowing later ones, or the default when all are
      blank; with non-blank defaults it is never blank. */
  lemma IconMarkupPrecedence(inline: Option<string>, icons: map<string, IconPair>, name: string, key: string,
                             on: bool, defaultOn: string, defaultOff: string)
    requires Trim(defaultOn) != "" && Trim(defaultOff) != ""
    ensures var r := GetIconMarkup(inline, icons, name, key, on, defaultOn, defaultOff);
      && Trim(r) != ""
      && (TrimOr(inline) != "" ==> r == TrimOr(inline))
      && (TrimOr(inline) == "" && TrimOr(IconFor(icons, name, on)) != "" ==> r == TrimOr(IconFor(icons, name, on)))
      && (TrimOr(inline) == "" && TrimOr(IconFor(icons, name, on)) == "" && TrimOr(IconFor(icons, key, on)) != "" ==>
            r == TrimOr(IconFor(icons, key, on)))
      && (TrimOr(inline) == "" && TrimOr(IconFor(icons, name, on)) == "" && TrimOr(IconFor(icons, key, on)) == "" ==>
            r == if on then defaultOn else defaultOff)
  {
    var r := GetIconMarkup(inline, icons, name, key, on, defaultOn, defaultOff);
    if r != defaultOn && r != defaultOff {
      TrimSelf(r);
    }
  }

  /** A non-empty trimmed string is its own trim. */
  lemma TrimSelf(x: string)
    requires IsTrimmed(x) && x != []
    ensures Trim(x) == x
  {
    TrimSpaced(x);
  }

  // ---------------------------------------------------------------- hotbuttons

  /** A stored hotbutton configuration `{svg, href, label}`. */
  datatype HotConfig = HotConfig(svg: Option<string>, href: string, labelText: string)

  /** What the save button does. */
  datatype SaveOutcome =
    | Cleared               // stored config removed, defaults applied, editor closed
    | Aborted               // the SVG did not sanitise: nothing stored, editor stays open
    | Written(cfg: HotConfig)

  /** The save button: the three inputs are trimmed; all blank removes the
      stored config; a non-blank SVG that does not sanitise aborts;
      otherwise `{svg, href, label}` is written. `sanitized` is the
      outer HTML of the sanitised SVG, if sanitising succeeded. */
  function SaveHotbutton(svgInput: string, linkInput: string, labelInput: string,
                         sanitized: Option<string>): (out: SaveOutcome)
    ensures out == Cleared <==> Trim(svgInput) == "" && Trim(linkInput) == "" && Trim(labelInput) == ""
    ensures out == Aborted <==> Trim(svgInput) != "" && sanitized.None?
    ensures out.Written? ==> out.cfg.href == Trim(linkInput) && out.cfg.labelText == Trim(labelInput)
    ensures out.Written? ==> (out.cfg.svg.Some? <==> Trim(svgInput) != "")
    ensures out.Written? && Trim(svgInput) != "" ==> out.cfg.svg == sanitized
  {
    var raw := Trim(svgInput);
    var href := Trim(linkInput);
    var caption := Trim(labelInput);
    if raw == "" && href == "" && caption == "" then Cleared
    else if raw != "" && sanitized.None? then Aborted
    else Written(HotConfig(if raw != "" then sanitized else None, href, caption))
  }

  /** The visible state of a hotbutton. `text` is the `.text` span (None
      when the button has none); absent attributes are None. */
  datatype ButtonView = ButtonView(icon: string, text: Option<string>, ariaLabel: Option<string>,
                                   dataHref: Option<string>, title: Option<string>)

  /** The defaults a hotbutton was rendered with; `aria` is the remembered
      `aria-label`, "" when the button had none. */
  datatype ButtonDefaults = ButtonDefaults(icon: string, caption: string, aria: string)

  /** Restoring the default `aria-label`: set when the remembered value is
      non-empty, removed otherwise. */
  function DefaultAria(d: ButtonDefaults): (a: Option<string>)
    ensures a.None? <==> d.aria == ""
    ensures a.Some? ==> a.value == d.aria
  {
    if d.aria == "" then None else Some(d.aria)
  }

  /** `!cfg || (!cfg.svg && !cfg.href && !cfg.label)`. */
  predicate NothingSaved(cfg: Option<HotConfig>)
  {
    cfg.None? || ((cfg.value.svg.None? || cfg.value.svg.value == "") && cfg.value.href == "" && cfg.value.labelText == "")
  }

  /** `applySavedConfig(btn)` for a button with an icon host. With nothing
      saved: default icon, label and `aria-label`, no `data-href` and no
      `title`. Otherwise a saved SVG replaces the icon when it sanitises
      (`svgNode`), else the icon stays; a saved link sets `data-href` and
      a `title` if there was none, else both are removed; a saved label
      sets the text and `aria-label`, else the defaults return. */
  function ApplySavedConfig(btn: ButtonView, d: ButtonDefaults, cfg: Option<HotConfig>, svgNode: Option<string>): (v: ButtonView)
    ensures NothingSaved(cfg) ==>
      v == ButtonView(d.icon, if btn.text.Some? then Some(d.caption) else None, DefaultAria(d), None, None)
    ensures !NothingSaved(cfg) && cfg.value.labelText != "" ==>
      v.ariaLabel == Some(cfg.value.labelText) && (btn.text.Some? ==> v.text == Some(cfg.value.labelText))
    ensures !NothingSaved(cfg) && cfg.value.labelText == "" ==>
      v.ariaLabel == DefaultAria(d) && (btn.text.Some? ==> v.text == Some(d.caption))
    ensures !NothingSaved(cfg) && cfg.value.href != "" ==>
      v.dataHref == Some(cfg.value.href) && v.title == (if btn.title.None? || btn.title == Some("") then Some(cfg.value.href) else btn.title)
    ensures !NothingSaved(cfg) && cfg.value.href == "" ==> v.dataHref == None && v.title == None
    ensures !NothingSaved(cfg) ==>
      v.icon == (if cfg.value.svg.Some? && cfg.value.svg.value != "" && svgNode.Some? then svgNode.value else btn.icon)
    ensures btn.text.None? ==> v.text == None
  {
    if NothingSaved(cfg) then
      ButtonView(d.icon, if btn.text.Some? then Some(d.caption) else None, DefaultAria(d), None, None)
    else
      var c := cfg.value;
      var icon := if c.svg.Some? && c.svg.value != "" && svgNode.Some? then svgNode.value else btn.icon;
      var (dataHref, title) :=
        if c.href != "" then (Some(c.href), if btn.title.None? || btn.title == Some("") then Some(c.href) else btn.title)
        else (None, None);
      var (text, aria) :=
        if c.labelText != "" then (if btn.text.Some? then Some(c.labelText) else None, Some(c.labelText))
        else (if btn.text.Some? then Some(d.caption) else None, DefaultAria(d));
      ButtonView(icon, text, aria, dataHref, title)
  }

  /** Saving and then applying: a saved label shows on the button, a saved
      link becomes its `data-href`, and a blank form behaves as the clear
      button (defaults back, link and title gone). */
  lemma SaveThenApply(btn: ButtonView, d: ButtonDefaults, svgInput: string, linkInput: string, labelInput: string,
                      sanitized: Option<string>, svgNode: Option<string>)
    requires sanitized.Some? ==> sanitized.value != ""
    ensures var out := SaveHotbutton(svgInput, linkInput, labelInput, sanitized);
      && (out.Written? ==> !NothingSaved(Some(out.cfg)))
      && (out.Written? && Trim(labelInput) != "" ==> ApplySavedConfig(btn, d, Some(out.cfg), svgNode).ariaLabel == Some(Trim(labelInput)))
      && (out.Written? && Trim(linkInput) != "" ==> ApplySavedConfig(btn, d, Some(out.cfg), svgNode).dataHref == Some(Trim(linkInput)))
      && (out == Cleared ==> ApplySavedConfig(btn, d, None, svgNode) == ButtonView(d.icon, if btn.text.Some? then Some(d.caption) else None, DefaultAria(d), None, None))
  {
  }

  // ---------------------------------------------------------------- search scope

  /** A `scopeMap` entry: endpoint, query parameter and `extraOption`. */
  datatype Scope = Scope(url: string, param: string, extra: Option<string>)

  /** `scopeMap[name]`. */
  function ScopeOf(name: string): (r: Option<Scope>)
    ensures r.Some? ==> r.value.url == (if name == "quotes" then "?p=search_quotes" else "?p=search")
    ensures r.Some? ==> r.value.param == (if name == "quotes" then "search_quotes" else "search")
    ensures r.Some? && r.value.extra.None? <==> name in {"general", "quotes"}
  {
    match name
    case "general" => Some(Scope("?p=search", "search", None))
    case "quotes" => Some(Scope("?p=search_quotes", "search_quotes", None))
    case "account" => Some(Scope("?p=search", "search", Some("Account")))
    case "email" => Some(Scope("?p=search", "search", Some("Email")))
    case "amount" => Some(Scope("?p=search", "search", Some("Amount")))
    case "order" => Some(Scope("?p=search", "search", Some("Order")))
    case "phone" => Some(Scope("?p=search", "search", Some("Phone")))
    case "invoice" => Some(Scope("?p=search", "search", Some("Invoice")))
    case "po" => Some(Scope("?p=search", "search", Some("PurchaseOrder")))
    case _ => None
  }

  /** A form POST: the endpoint and its hidden fields, in order. */
  datatype Post = Post(url: string, fields: seq<(string, string)>)

  /** The `search:submit` handler. `checked` is the value of the checked
      scope radio, if any (an empty value counts as none). A blank query
      posts nothing; an unknown scope searches as "general". */
  function SubmitSearch(query: Option<string>, checked: Option<string>): (p: Option<Post>)
    ensures p.None? <==> TrimOr(query) == ""
    ensures p.Some? ==> |p.value.fields| >= 1 && p.value.fields[0].1 == TrimOr(query)
  {
    var q := TrimOr(query);
    if q == "" then None
    else
      var name := if checked.Some? && checked.value != "" then checked.value else "general";
      var sc := match ScopeOf(name) case Some(s) => s case None => ScopeOf("general").value;
      var fields := [(sc.param, q)] + (if sc.extra.Some? then [("extraOption", sc.extra.value)] else []);
      Some(Post(sc.url, fields))
  }

  /** An unknown or missing scope posts exactly what "general" posts, and
      `extraOption` is sent exactly for the field-specific scopes. */
  lemma SearchScopeFallback(query: Option<string>, checked: Option<string>)
    requires TrimOr(query) != ""
    ensures checked.None? || checked == Some("") || ScopeOf(checked.value).None? ==>
      SubmitSearch(query, checked) == Some(Post("?p=search", [("search", TrimOr(query))]))
    ensures checked.Some? && ScopeOf(checked.value).Some? && ScopeOf(checked.value).value.extra.Some? ==>
      SubmitSearch(query, checked).value.fields == [("search", TrimOr(query)), ("extraOption", ScopeOf(checked.value).value.extra.value)]
    ensures SubmitSearch(query, Some("quotes")) == Some(Post("?p=search_quotes", [("search_quotes", TrimOr(query))]))
  {
    var q := TrimOr(query);
    assert ScopeOf("quotes") == Some(Scope("?p=search_quotes", "search_quotes", None));
    assert ScopeOf("general") == Some(Scope("?p=search", "search", None));
    assert [("search", q)] + [] == [("search", q)];
    assert [("search_quotes", q)] + [] == [("search_quotes", q)];
    assert "quotes" != "";
  }
}
