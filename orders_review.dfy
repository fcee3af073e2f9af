/** The order-review form checks (assets/js/orders-review.js,
    `doExtraChecking`) and the key filter of the material amount fields.
    Form fields are identified by a `Field`; a field absent from the page
    has no value (jQuery's `.val()` is then `undefined`, which is never
    equal to the empty string) and no style to write. */
module OrdersReview {
  import opened Text

  /** The inputs the checks read, by element id. */
  datatype Field = PaymentMethod | PoNumber | FirstName | Address1 | City | State | ShipmentType | ZipCode

  /** The style that marks a field in error. */
  const Highlight: string := "border:1px solid #FF0033 !important; background:#FFFF99;"
  /** The save button while the delayed decision is pending. */
  const ValidatingLabel: string := "<i class='fa fa-eye'></i> Hold on... Validating data..."
  /** The save button after a failed check. */
  const SaveLabel: string := "Save Changes"

  /** The error line of each checked field. */
  function Message(f: Field): string
  {
    match f
    case PaymentMethod => ""
    case PoNumber => "- PO # must be filled when order is On Account;<br />"
    case FirstName => "- Shipping first name is empty;<br />"
    case Address1 => "- Shipping address is empty;<br />"
    case City => "- Shipping city is empty;<br />"
    case State => "- Shipping state is empty;<br />"
    case ShipmentType => "- You must select a shipment type;<br />"
    case ZipCode => "- Shipping zip code is empty;<br />"
  }

  /** The position of each check in the source. */
  function RuleIndex(f: Field): nat
  {
    match f
    case PaymentMethod => 0
    case PoNumber => 1
    case FirstName => 2
    case Address1 => 3
    case City => 4
    case State => 5
    case ShipmentType => 6
    case ZipCode => 7
  }

  /** `$('#f').val() == ''`: the element is there and its value is empty. */
  predicate IsEmpty(values: map<Field, string>, f: Field)
  {
    f in values && values[f] == ""
  }

  /** Whether the check of field `f` fails. */
  predicate Fails(values: map<Field, string>, pickUp: bool, f: Field)
  {
    match f
    case PaymentMethod => false
    case PoNumber => PaymentMethod in values && values[PaymentMethod] == "on_account" && IsEmpty(values, PoNumber)
    case ShipmentType => !pickUp && IsEmpty(values, ShipmentType)
    case FirstName => IsEmpty(values, FirstName)
    case Address1 => IsEmpty(values, Address1)
    case City => IsEmpty(values, City)
    case State => IsEmpty(values, State)
    case ZipCode => IsEmpty(values, ZipCode)
  }

  /** The checks, in the order `doExtraChecking` runs them. */
  const RuleOrder: seq<Field> := [PoNumber, FirstName, Address1, City, State, ShipmentType, ZipCode]

  /** The fields among `order` whose check fails, in that order. */
  function Filter(values: map<Field, string>, pickUp: bool, order: seq<Field>): seq<Field>
  {
    if order == [] then []
    else
      var f := order[|order| - 1];
      Filter(values, pickUp, order[..|order| - 1]) + (if Fails(values, pickUp, f) then [f] else [])
  }

  /** The lines `doExtraChecking` reports, one field per line. */
  function Flagged(values: map<Field, string>, pickUp: bool): seq<Field>
  {
    Filter(values, pickUp, RuleOrder)
  }

  /** The error text of the reported lines: their messages, concatenated. */
  function ErrorText(lines: seq<Field>): string
  {
    if lines == [] then "" else ErrorText(lines[..|lines| - 1]) + Message(lines[|lines| - 1])
  }

  // ------------------------------------------------------------- properties

  /** The filter keeps a field exactly as often as `order` lists it when
      its check fails, and never otherwise. */
  lemma {:induction false} FilterCount(values: map<Field, string>, pickUp: bool, order: seq<Field>, f: Field)
    ensures multiset(Filter(values, pickUp, order))[f] ==
      if Fails(values, pickUp, f) then multiset(order)[f] else 0
  {
    if order != [] {
      var init := order[..|order| - 1];
      FilterCount(values, pickUp, init, f);
      assert order == init + [order[|order| - 1]];
    }
  }

  /** The filter keeps the relative order of the checks. */
  lemma {:induction false} FilterOrdered(values: map<Field, string>, pickUp: bool, order: seq<Field>)
    requires forall i, j :: 0 <= i < j < |order| ==> RuleIndex(order[i]) < RuleIndex(order[j])
    ensures var r := Filter(values, pickUp, order);
      (forall i, j :: 0 <= i < j < |r| ==> RuleIndex(r[i]) < RuleIndex(r[j])) &&
      (r != [] ==> order != [] && RuleIndex(r[|r| - 1]) <= RuleIndex(order[|order| - 1]))
  {
    if order != [] {
      var init := order[..|order| - 1];
      FilterOrdered(values, pickUp, init);
    }
  }

  /** Each check contributes exactly one line when it fails and none when
      it passes. */
  lemma LineOnce(values: map<Field, string>, pickUp: bool, f: Field)
    ensures multiset(Flagged(values, pickUp))[f] ==
      if f != PaymentMethod && Fails(values, pickUp, f) then 1 else 0
  {
    FilterCount(values, pickUp, RuleOrder, f);
  }

  /** The PO line appears exactly when the payment method is `on_account`
      and the PO number is empty. */
  lemma PoLineIff(values: map<Field, string>, pickUp: bool)
    ensures PoNumber in Flagged(values, pickUp) <==>
      (PaymentMethod in values && values[PaymentMethod] == "on_account" && IsEmpty(values, PoNumber))
  {
    LineOnce(values, pickUp, PoNumber);
  }

  /** Each of the five address fields adds exactly one line when it is
      empty and none otherwise. */
  lemma AddressLineOnce(values: map<Field, string>, pickUp: bool, f: Field)
    requires f == FirstName || f == Address1 || f == City || f == State || f == ZipCode
    ensures multiset(Flagged(values, pickUp))[f] == if IsEmpty(values, f) then 1 else 0
  {
    LineOnce(values, pickUp, f);
  }

  /** The shipment type is checked only when pick-up is not ticked. */
  lemma ShipmentOnlyWithoutPickUp(values: map<Field, string>, pickUp: bool)
    ensures ShipmentType in Flagged(values, pickUp) <==> !pickUp && IsEmpty(values, ShipmentType)
  {
    LineOnce(values, pickUp, ShipmentType);
  }

  /** The lines follow the order of the checks in the source. */
  lemma FlaggedInOrder(values: map<Field, string>, pickUp: bool)
    ensures var r := Flagged(values, pickUp);
      forall i, j :: 0 <= i < j < |r| ==> RuleIndex(r[i]) < RuleIndex(r[j])
  {
    FilterOrdered(values, pickUp, RuleOrder);
  }

  lemma MessageNonEmpty(f: Field)
    requires f != PaymentMethod
    ensures Message(f) != ""
  {
    match f
    case PoNumber =>
    case FirstName =>
    case Address1 =>
    case City =>
    case State =>
    case ShipmentType =>
    case ZipCode =>
  }

  /** The error text is empty exactly when no line is reported. */
  lemma ErrorTextEmptyIff(lines: seq<Field>)
    requires PaymentMethod !in lines
    ensures ErrorText(lines) == "" <==> lines == []
  {
    if lines != [] {
      MessageNonEmpty(lines[|lines| - 1]);
    }
  }

  /** The form is submitted, i.e. the error text is empty, exactly when
      every check passes. */
  lemma SubmitIffAllPass(values: map<Field, string>, pickUp: bool)
    ensures ErrorText(Flagged(values, pickUp)) == "" <==> forall f :: !Fails(values, pickUp, f)
  {
    var r := Flagged(values, pickUp);
    LineOnce(values, pickUp, PaymentMethod);
    ErrorTextEmptyIff(r);
    if r != [] {
      LineOnce(values, pickUp, r[0]);
    } else {
      forall f
        ensures !Fails(values, pickUp, f)
      {
        LineOnce(values, pickUp, f);
      }
    }
  }

  // ------------------------------------------------------------------- form

  class ReviewForm {
    /** The values of the fields present on the page. */
    const values: map<Field, string>
    /** Whether `#pick_up` is ticked. */
    const pickUp: bool
    /** The `style` attribute written on each field. */
    var styles: map<Field, string>
    /** The HTML of `#savechanges`. */
    var button: string
    /** The armed two-second timers, oldest first, each with the error
        lines it will act on; the text it shows is their `ErrorText`.
        Every call of `doExtraChecking` arms a timer of its own, and all
        of them have the same delay, so they fire in the order armed. */
    var pending: seq<seq<Field>>
    /** Whether `#printErrors` is shown, and what `#printErrors_show` holds. */
    var errorsVisible: bool
    var errorsHtml: string
    /** How many times `#reviewSale` was submitted. */
    var submits: nat

    /** No armed timer carries a payment-method line: that check has no
        rule in `doExtraChecking`. */
    predicate Valid()
      reads this
    {
      forall p :: p in pending ==> PaymentMethod !in p
    }

    constructor (values0: map<Field, string>, pickUp0: bool)
      ensures Valid()
      ensures values == values0 && pickUp == pickUp0
      ensures styles == map[] && pending == [] && submits == 0 && !errorsVisible
    {
      values := values0;
      pickUp := pickUp0;
      styles := map[];
      button := SaveLabel;
      pending := [];
      errorsVisible := false;
      errorsHtml := " ";
      submits := 0;
    }

    /** `$('#f').attr('style', s)`: a no-op for a field not on the page. */
    method SetStyle(f: Field, s: string)
      modifies this
      ensures styles == if f in values then old(styles)[f := s] else old(styles)
      ensures button == old(button) && pending == old(pending) && submits == old(submits)
      ensures errorsVisible == old(errorsVisible) && errorsHtml == old(errorsHtml)
    {
      if f in values {
        styles := styles[f := s];
      }
    }

    /** One check: add its line and mark the field when it fails, clear the
        mark otherwise. */
    method Check(f: Field, lines: seq<Field>) returns (lines': seq<Field>)
      modifies this
      ensures lines' == lines + When(Fails(values, pickUp, f), f)
      ensures styles == Mark(old(styles), values, pickUp, f)
      ensures button == old(button) && pending == old(pending) && submits == old(submits)
      ensures errorsVisible == old(errorsVisible) && errorsHtml == old(errorsHtml)
    {
      if Fails(values, pickUp, f) {
        lines' := lines + [f];
        SetStyle(f, Highlight);
      } else {
        lines' := lines;
        SetStyle(f, "");
      }
    }

    /** The first five checks: the PO number and the shipping name and
        address. */
    method CheckAddress() returns (lines: seq<Field>)
      modifies this
      ensures lines == Filter(values, pickUp, [PoNumber, FirstName, Address1, City, State])
      ensures styles == AddressStyles(old(styles), values, pickUp)
      ensures button == old(button) && pending == old(pending) && submits == old(submits)
      ensures errorsVisible == old(errorsVisible) && errorsHtml == old(errorsHtml)
    {
      lines := [];
      ghost var done: seq<Field> := [];
      lines := Check(PoNumber, lines);
      FilterSnoc(values, pickUp, done, PoNumber);
      done := done + [PoNumber];
      lines := Check(FirstName, lines);
      FilterSnoc(values, pickUp, done, FirstName);
      done := done + [FirstName];
      lines := Check(Address1, lines);
      FilterSnoc(values, pickUp, done, Address1);
      done := done + [Address1];
      lines := Check(City, lines);
      FilterSnoc(values, pickUp, done, City);
      done := done + [City];
      lines := Check(State, lines);
      FilterSnoc(values, pickUp, done, State);
      done := done + [State];
      assert done == [PoNumber, FirstName, Address1, City, State];
    }

    /** `doExtraChecking()` up to the timer: run the checks in order, mark
        the fields, show the validating label and arm one more timer with
        the accumulated error lines. Timers armed by earlier calls stay
        armed. */
    method DoExtraChecking()
      requires Valid()
      modifies this
      ensures Valid()
      ensures pending == old(pending) + [Flagged(values, pickUp)]
      ensures button == ValidatingLabel
      ensures styles == CheckedStyles(old(styles), values, pickUp)
      ensures submits == old(submits) && errorsVisible == old(errorsVisible) && errorsHtml == old(errorsHtml)
    {
      var lines := CheckAddress();
      ghost var done: seq<Field> := [PoNumber, FirstName, Address1, City, State];
      if !pickUp {
        lines := Check(ShipmentType, lines);
      }
      FilterSnoc(values, pickUp, done, ShipmentType);
      done := done + [ShipmentType];
      assert lines == Filter(values, pickUp, done);
      lines := Check(ZipCode, lines);
      FilterSnoc(values, pickUp, done, ZipCode);
      done := done + [ZipCode];
      assert lines == Filter(values, pickUp, done);
      assert done == RuleOrder;
      button := ValidatingLabel;
      PendingSnoc(pending, lines, values, pickUp);
      pending := pending + [lines];
    }

    /** The oldest timer fires: with errors, show them and restore the
        button; without, hide the error box and submit. */
    method Fire()
      requires Valid() && pending != []
      modifies this
      ensures Valid()
      ensures pending == old(pending[1..]) && styles == old(styles)
      ensures old(pending[0]) != [] ==>
        errorsVisible && errorsHtml == ErrorText(old(pending[0])) && button == SaveLabel && submits == old(submits)
      ensures old(pending[0]) == [] ==>
        !errorsVisible && errorsHtml == " " && submits == old(submits) + 1 && button == old(button)
    {
      var error := ErrorText(pending[0]);
      ErrorTextEmptyIff(pending[0]);
      pending := pending[1..];
      if error != "" {
        errorsVisible := true;
        errorsHtml := error;
        button := SaveLabel;
      } else {
        errorsVisible := false;
        errorsHtml := " ";
        submits := submits + 1;
      }
    }

    /** Two presses of Save within the two seconds arm two timers: once
        both have fired, a form that passes every check has been
        submitted twice, and one that fails has shown its errors twice. */
    method SaveTwice()
      requires pending == []
      modifies this
      ensures Valid()
      ensures pending == [] && styles == CheckedStyles(CheckedStyles(old(styles), values, pickUp), values, pickUp)
      ensures Flagged(values, pickUp) == [] ==> submits == old(submits) + 2 && !errorsVisible
      ensures Flagged(values, pickUp) != [] ==>
        submits == old(submits) && errorsVisible && errorsHtml == ErrorText(Flagged(values, pickUp))
        && button == SaveLabel
    {
      DoExtraChecking();
      DoExtraChecking();
      Fire();
      Fire();
    }
  }

  /** Arming a timer with the checks' lines keeps every armed timer free
      of a payment-method line. */
  lemma PendingSnoc(pending: seq<seq<Field>>, lines: seq<Field>, values: map<Field, string>, pickUp: bool)
    requires forall p :: p in pending ==> PaymentMethod !in p
    requires lines == Flagged(values, pickUp)
    ensures forall p :: p in pending + [lines] ==> PaymentMethod !in p
  {
    LineOnce(values, pickUp, PaymentMethod);
  }

  /** The style check `f` writes, when the field is on the page. */
  function Mark(styles: map<Field, string>, values: map<Field, string>, pickUp: bool, f: Field): map<Field, string>
  {
    if f in values then styles[f := if Fails(values, pickUp, f) then Highlight else ""] else styles
  }

  /** The styles after the first five checks. */
  function AddressStyles(styles: map<Field, string>, values: map<Field, string>, pickUp: bool): map<Field, string>
  {
    Mark(Mark(Mark(Mark(Mark(styles, values, pickUp, PoNumber), values, pickUp, FirstName),
      values, pickUp, Address1), values, pickUp, City), values, pickUp, State)
  }

  /** The styles after all checks; the shipment type is left alone when
      pick-up is ticked. */
  function CheckedStyles(styles: map<Field, string>, values: map<Field, string>, pickUp: bool): map<Field, string>
  {
    var s5 := AddressStyles(styles, values, pickUp);
    var s6 := if pickUp then s5 else Mark(s5, values, pickUp, ShipmentType);
    Mark(s6, values, pickUp, ZipCode)
  }

  /** What one check does to the style of field `g`. */
  lemma MarkMeaning(styles: map<Field, string>, values: map<Field, string>, pickUp: bool, f: Field, g: Field)
    ensures var r := Mark(styles, values, pickUp, f);
      if g == f && f in values
      then g in r && r[g] == (if Fails(values, pickUp, f) then Highlight else "")
      else (g in r <==> g in styles) && (g in r ==> r[g] == styles[g])
  {
  }

  /** Every checked field on the page is marked exactly when its check
      fails and cleared otherwise; the shipment type keeps its style when
      pick-up is ticked, and fields not on the page get none. */
  lemma CheckedStylesMeaning(styles: map<Field, string>, values: map<Field, string>, pickUp: bool, f: Field)
    ensures var r := CheckedStyles(styles, values, pickUp);
      if f in values && f != PaymentMethod && !(f == ShipmentType && pickUp)
      then f in r && r[f] == (if Fails(values, pickUp, f) then Highlight else "")
      else (f in r <==> f in styles) && (f in r ==> r[f] == styles[f])
  {
    var s5 := AddressStyles(styles, values, pickUp);
    AddressStylesMeaning(styles, values, pickUp, f);
    var s6 := if pickUp then s5 else Mark(s5, values, pickUp, ShipmentType);
    MarkMeaning(s5, values, pickUp, ShipmentType, f);
    MarkMeaning(s6, values, pickUp, ZipCode, f);
  }

  lemma AddressStylesMeaning(styles: map<Field, string>, values: map<Field, string>, pickUp: bool, f: Field)
    ensures var r := AddressStyles(styles, values, pickUp);
      if f in values && f in {PoNumber, FirstName, Address1, City, State}
      then f in r && r[f] == (if Fails(values, pickUp, f) then Highlight else "")
      else (f in r <==> f in styles) && (f in r ==> r[f] == styles[f])
  {
    var s1 := Mark(styles, values, pickUp, PoNumber);
    MarkMeaning(styles, values, pickUp, PoNumber, f);
    var s2 := Mark(s1, values, pickUp, FirstName);
    MarkMeaning(s1, values, pickUp, FirstName, f);
    var s3 := Mark(s2, values, pickUp, Address1);
    MarkMeaning(s2, values, pickUp, Address1, f);
    var s4 := Mark(s3, values, pickUp, City);
    MarkMeaning(s3, values, pickUp, City, f);
    MarkMeaning(s4, values, pickUp, State, f);
  }

  function When(b: bool, f: Field): seq<Field>
  {
    if b then [f] else []
  }

  /** One more check adds its line exactly when it fails. */
  lemma FilterSnoc(values: map<Field, string>, pickUp: bool, order: seq<Field>, f: Field)
    ensures Filter(values, pickUp, order + [f]) == Filter(values, pickUp, order) + When(Fails(values, pickUp, f), f)
  {
    assert (order + [f])[..|order|] == order;
  }

  // ------------------------------------------------------------- key filter

  /** The keydown filter on `.material_amount_field`: `true` when the key
      is let through, `false` when the handler calls `preventDefault`. */
  predicate KeyAllowed(keyCode: int, ctrl: bool, meta: bool, shift: bool)
  {
    if keyCode in [46, 8, 9, 27, 13, 110, 190]
      || (keyCode == 65 && (ctrl || meta))
      || (keyCode == 67 && (ctrl || meta))
      || (keyCode == 88 && (ctrl || meta))
      || (35 <= keyCode <= 39)
    then true
    else !((shift || (keyCode < 48 || keyCode > 57)) && (keyCode < 96 || keyCode > 105))
  }

  /** The filter lets through exactly the editing keys, Ctrl/Cmd+A/C/X,
      Home/End/arrows, unshifted top-row digits and keypad digits. */
  lemma KeyAllowedIff(keyCode: int, ctrl: bool, meta: bool, shift: bool)
    ensures KeyAllowed(keyCode, ctrl, meta, shift) <==>
      || keyCode in {8, 9, 13, 27, 46, 110, 190}
      || (keyCode in {65, 67, 88} && (ctrl || meta))
      || 35 <= keyCode <= 39
      || (48 <= keyCode <= 57 && !shift)
      || 96 <= keyCode <= 105
  {
  }

  /** A shifted top-row digit is blocked (it types a symbol), a keypad
      digit is not. */
  lemma ShiftedDigitBlocked(keyCode: int, ctrl: bool, meta: bool)
    requires 48 <= keyCode <= 57
    ensures !KeyAllowed(keyCode, ctrl, meta, true)
    ensures KeyAllowed(keyCode + 48, ctrl, meta, true)
  {
  }
}
