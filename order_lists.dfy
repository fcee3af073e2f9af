/** The lists the order-review page keeps (assets/js/orders-review.js): the
    notification e-mail rows, the comment kept per shipment source, and the
    box numbering. The table rows are modelled as sequences; a jQuery
    selection in document order is a sequence in the same order. */
module OrderLists {
  import opened Text

  // ------------------------------------------------------ notification rows

  /** A row of `#Notifications`: the e-mail, the ticked box, and the
      position its remove button passes to `removeLine_Notifications`. */
  datatype NotificationRow = NotificationRow(email: string, checked: bool, position: int)

  const Jennifer: string := "jennifer@strip-curtains.com"
  const Angela: string := "angela@strip-curtains.com"
  const Richmond: string := "Richmond Warehouse"

  /** The row `removeLine_Notifications(position)` takes away: the one
      whose 1-based index is `position`, if any. */
  function Without(rows: seq<NotificationRow>, position: int): seq<NotificationRow>
  {
    if rows == [] then []
    else Without(rows[..|rows| - 1], position) + (if |rows| == position then [] else [rows[|rows| - 1]])
  }

  /** Removing by position takes away the row at index `position - 1` and
      keeps the others in order; a position past the end removes nothing. */
  lemma {:induction false} WithoutMeaning(rows: seq<NotificationRow>, position: int)
    ensures Without(rows, position) ==
      if 1 <= position <= |rows| then rows[..position - 1] + rows[position..] else rows
  {
    if rows != [] {
      var init := rows[..|rows| - 1];
      WithoutMeaning(init, position);
      if 1 <= position <= |init| {
        assert init[..position - 1] == rows[..position - 1];
        assert init[position..] + [rows[|rows| - 1]] == rows[position..];
      } else if position == |rows| {
        assert init == rows[..position - 1];
        assert rows[position..] == [];
      } else {
        assert init + [rows[|rows| - 1]] == rows;
      }
    }
  }

  /** Removing the clicked row itself, as `$(this).closest('tr').remove()`
      would. */
  function RemoveRow(rows: seq<NotificationRow>, i: nat): (r: seq<NotificationRow>)
    requires i < |rows|
    ensures |r| == |rows| - 1
    ensures multiset(r) + multiset{rows[i]} == multiset(rows)
    ensures forall j :: 0 <= j < i ==> r[j] == rows[j]
    ensures forall j :: i <= j < |r| ==> r[j] == rows[j + 1]
  {
    assert rows == rows[..i] + [rows[i]] + rows[i + 1..];
    rows[..i] + rows[i + 1..]
  }

  /** Every row's button still names its own position. */
  predicate PositionsCurrent(rows: seq<NotificationRow>)
  {
    forall i :: 0 <= i < |rows| ==> rows[i].position == i + 1
  }

  /** While the positions are current, the button removes its own row. */
  lemma CurrentButtonRemovesOwnRow(rows: seq<NotificationRow>, i: nat)
    requires PositionsCurrent(rows) && i < |rows|
    ensures Without(rows, rows[i].position) == RemoveRow(rows, i)
  {
    WithoutMeaning(rows, i + 1);
  }

  /** Stale position, first form: with rows at positions 1 and 2, removing
      the first row and then pressing the remaining row's button (which
      still says 2) removes nothing. */
  lemma StaleButtonRemovesNothing(a: string, b: string)
    ensures var rows := [NotificationRow(a, true, 1), NotificationRow(b, true, 2)];
      var after := Without(rows, rows[0].position);
      after == [NotificationRow(b, true, 2)] && Without(after, after[0].position) == after
  {
    var rows := [NotificationRow(a, true, 1), NotificationRow(b, true, 2)];
    WithoutMeaning(rows, 1);
    WithoutMeaning([NotificationRow(b, true, 2)], 2);
  }

  /** Stale position, second form: with three rows, removing the first
      and then pressing the second row's button removes the third row. */
  lemma StaleButtonRemovesOther(a: string, b: string, c: string)
    ensures var rows := [NotificationRow(a, true, 1), NotificationRow(b, true, 2), NotificationRow(c, true, 3)];
      var after := Without(rows, 1);
      after == rows[1..] && Without(after, after[0].position) == [rows[1]]
  {
    var rows := [NotificationRow(a, true, 1), NotificationRow(b, true, 2), NotificationRow(c, true, 3)];
    WithoutMeaning(rows, 1);
    WithoutMeaning(rows[1..], 2);
  }

  /** The e-mails of the rows, in order: `input[name='notification_email[]']`. */
  function Emails(rows: seq<NotificationRow>): (r: seq<string>)
    ensures |r| == |rows|
  {
    if rows == [] then [] else Emails(rows[..|rows| - 1]) + [rows[|rows| - 1].email]
  }

  /** E-mail `i` is the e-mail of row `i`. */
  lemma {:induction false} EmailsMeaning(rows: seq<NotificationRow>)
    ensures forall i :: 0 <= i < |rows| ==> Emails(rows)[i] == rows[i].email
  {
    if rows != [] {
      EmailsMeaning(rows[..|rows| - 1]);
    }
  }

  /** The contact `checkEmailNotifications` wants for a shipment source. */
  function ContactFor(source: string): string
  {
    if source == Richmond then Jennifer else Angela
  }

  /** The contacts the non-empty sources want, in order. */
  function Wanted(sources: seq<string>): seq<string>
  {
    if sources == [] then []
    else
      var s := sources[|sources| - 1];
      Wanted(sources[..|sources| - 1]) + (if s == "" then [] else [ContactFor(s)])
  }

  /** Some non-empty source wants contact `a`. */
  predicate Wants(sources: seq<string>, a: string)
  {
    exists k :: 0 <= k < |sources| && sources[k] != "" && ContactFor(sources[k]) == a
  }

  lemma {:induction false} WantedMeaning(sources: seq<string>, a: string)
    ensures a in Wanted(sources) <==> Wants(sources, a)
  {
    if sources != [] {
      var init := sources[..|sources| - 1];
      var s := sources[|sources| - 1];
      WantedMeaning(init, a);
      assert Wants(sources, a) <==> Wants(init, a) || (s != "" && ContactFor(s) == a) by {
        if Wants(init, a) {
          var k :| 0 <= k < |init| && init[k] != "" && ContactFor(init[k]) == a;
          assert sources[k] == init[k];
        }
        if Wants(sources, a) {
          var k :| 0 <= k < |sources| && sources[k] != "" && ContactFor(sources[k]) == a;
          if k < |init| {
            assert init[k] == sources[k];
          }
        }
      }
    }
  }

  /** The wanted contacts that were not listed, judged against a list that
      does not change: what `checkEmailNotifications` adds as written. */
  function NotIn(wanted: seq<string>, listed: seq<string>): seq<string>
  {
    if wanted == [] then []
    else
      var a := wanted[|wanted| - 1];
      NotIn(wanted[..|wanted| - 1], listed) + (if a in listed then [] else [a])
  }

  lemma {:induction false} NotInMeaning(wanted: seq<string>, listed: seq<string>, a: string)
    ensures a in NotIn(wanted, listed) <==> a in wanted && a !in listed
  {
    if wanted != [] {
      var init := wanted[..|wanted| - 1];
      NotInMeaning(init, listed, a);
      assert wanted == init + [wanted[|wanted| - 1]];
    }
  }

  /** The contacts `checkEmailNotifications` adds, in order, judging every
      source against the e-mails listed before it started. */
  function Added(sources: seq<string>, listed: seq<string>): seq<string>
  {
    NotIn(Wanted(sources), listed)
  }

  /** A contact is added exactly when it was not listed and some non-empty
      source wants it. */
  lemma AddedMeaning(sources: seq<string>, listed: seq<string>, a: string)
    ensures a in Added(sources, listed) <==>
      a !in listed && Wants(sources, a)
  {
    NotInMeaning(Wanted(sources), listed, a);
    WantedMeaning(sources, a);
  }

  /** Two sources wanting the same contact want it twice. */
  lemma WantedTwice(s: string)
    requires s != ""
    ensures Wanted([s, s]) == [ContactFor(s), ContactFor(s)]
  {
    WantedStep([s, s], 0);
    WantedStep([s, s], 1);
    assert [s, s][..0] == [];
    assert [s, s][..2] == [s, s];
  }

  /** Against an empty list nothing wanted is already listed. */
  lemma {:induction false} NotInNothing(wanted: seq<string>)
    ensures NotIn(wanted, []) == wanted
  {
    if wanted != [] {
      NotInNothing(wanted[..|wanted| - 1]);
      assert wanted[..|wanted| - 1] + [wanted[|wanted| - 1]] == wanted;
    }
  }

  /** Two Richmond sources and no Jennifer row: Jennifer is added twice. */
  lemma RepeatedContact()
    ensures Added([Richmond, Richmond], []) == [Jennifer, Jennifer]
  {
    WantedTwice(Richmond);
    NotInNothing([Jennifer, Jennifer]);
  }

  /** No e-mail appears twice. */
  predicate NoRepeats(r: seq<string>)
  {
    forall i, j :: 0 <= i < j < |r| ==> r[i] != r[j]
  }

  /** The wanted contacts judged against the list as it stands, including
      the contacts already added. */
  function Fresh(wanted: seq<string>, listed: seq<string>): seq<string>
  {
    if wanted == [] then []
    else
      var a := wanted[|wanted| - 1];
      var before := Fresh(wanted[..|wanted| - 1], listed);
      before + (if a in listed + before then [] else [a])
  }

  lemma {:induction false} FreshMeaning(wanted: seq<string>, listed: seq<string>)
    ensures var r := Fresh(wanted, listed);
      NoRepeats(r) &&
      (forall i :: 0 <= i < |r| ==> r[i] !in listed) &&
      (forall a :: a in wanted ==> a in listed + r)
  {
    if wanted != [] {
      var init := wanted[..|wanted| - 1];
      var a := wanted[|wanted| - 1];
      FreshMeaning(init, listed);
      var before := Fresh(init, listed);
      var r := Fresh(wanted, listed);
      assert wanted == init + [a];
      if a in listed + before {
        assert r == before + [];
        forall b | b in wanted
          ensures b in listed + r
        {
          if b != a {
            assert b in init;
          }
        }
      } else {
        assert r == before + [a];
        forall i, j | 0 <= i < j < |r|
          ensures r[i] != r[j]
        {
          assert r[i] == before[i];
          if j < |before| {
            assert r[j] == before[j];
          } else {
            assert r[j] == a;
            assert before[i] in listed + before;
          }
        }
        forall b | b in wanted
          ensures b in listed + r
        {
          if b != a {
            assert b in init;
            assert b in listed + before;
          }
        }
      }
    }
  }

  /** The contacts added when each source is judged against the current
      list. */
  function AddedOnce(sources: seq<string>, listed: seq<string>): seq<string>
  {
    Fresh(Wanted(sources), listed)
  }

  /** With the current list consulted, no contact is added twice or added
      when already listed, and afterwards every non-empty source has its
      contact on the list. */
  lemma AddedOnceMeaning(sources: seq<string>, listed: seq<string>)
    ensures var r := AddedOnce(sources, listed);
      NoRepeats(r) &&
      (forall i :: 0 <= i < |r| ==> r[i] !in listed) &&
      (forall k :: 0 <= k < |sources| && sources[k] != "" ==> ContactFor(sources[k]) in listed + r)
  {
    FreshMeaning(Wanted(sources), listed);
    forall k | 0 <= k < |sources| && sources[k] != ""
      ensures ContactFor(sources[k]) in Wanted(sources)
    {
      WantedMeaning(sources, ContactFor(sources[k]));
    }
  }

  /** The rows `addNewEmailLine_Set` appends for `emails`, after `n` rows. */
  function NewRows(emails: seq<string>, n: int): (r: seq<NotificationRow>)
    ensures |r| == |emails|
  {
    if emails == [] then [] else NewRows(emails[..|emails| - 1], n) + [NotificationRow(emails[|emails| - 1], true, n + |emails|)]
  }

  /** Row `j` of the new rows is ticked, shows e-mail `j` and names the
      position it takes after the `n` rows before it. */
  lemma {:induction false} NewRowsMeaning(emails: seq<string>, n: int)
    ensures forall j :: 0 <= j < |emails| ==> NewRows(emails, n)[j] == NotificationRow(emails[j], true, n + j + 1)
  {
    if emails != [] {
      NewRowsMeaning(emails[..|emails| - 1], n);
    }
  }

  class NotificationList {
    /** The rows of `#Notifications`, in document order. */
    var rows: seq<NotificationRow>

    constructor (rows0: seq<NotificationRow>)
      ensures rows == rows0
    {
      rows := rows0;
    }

    /** `addNewEmailLine_Set(emailto)`: a ticked row whose button names
        the position it takes now. */
    method AddEmailLine(email: string)
      modifies this
      ensures rows == old(rows) + [NotificationRow(email, true, |old(rows)| + 1)]
    {
      var count := |rows| + 1;
      rows := rows + [NotificationRow(email, true, count)];
    }

    /** `removeLine_Notifications(position)`: walk the rows and remove the
        one whose 1-based index is `position`. */
    method RemoveLine(position: int)
      modifies this
      ensures rows == Without(old(rows), position)
    {
      var all := rows;
      var kept: seq<NotificationRow> := [];
      for index := 0 to |all|
        invariant kept == Without(all[..index], position)
      {
        assert all[..index + 1][..index] == all[..index];
        if index + 1 != position {
          kept := kept + [all[index]];
        }
      }
      assert all[..|all|] == all;
      rows := kept;
    }

    /** Pressing the remove button of row `i`, as written: the button
        passes the position recorded when the row was added. */
    method ClickRemove(i: nat)
      requires i < |rows|
      modifies this
      ensures rows == Without(old(rows), old(rows)[i].position)
    {
      RemoveLine(rows[i].position);
    }

    /** Pressing the remove button of row `i`, corrected: the row the
        button sits in is removed. */
    method ClickRemoveFixed(i: nat)
      requires i < |rows|
      modifies this
      ensures rows == RemoveRow(old(rows), i)
    {
      rows := rows[..i] + rows[i + 1..];
    }

    /** The body of the loop in `checkEmailNotifications` for one source:
        a non-empty source adds its contact unless `listed` holds it. */
    method AddContact(source: string, listed: seq<string>)
      modifies this
      ensures rows == old(rows) + ContactRows(source, listed, |old(rows)|)
    {
      if source != "" {
        if source == Richmond {
          if Jennifer !in listed {
            AddEmailLine(Jennifer);
          }
        } else {
          if Angela !in listed {
            AddEmailLine(Angela);
          }
        }
      }
    }

    /** `checkEmailNotifications()`, as written: for each non-empty source
        add its contact unless it was among the e-mails listed when the
        call started. */
    method CheckEmailNotifications(sources: seq<string>)
      modifies this
      ensures rows == old(rows) + NewRows(Added(sources, Emails(old(rows))), |old(rows)|)
    {
      var getAll := Emails(rows);
      ghost var rows0 := rows;
      ghost var added: seq<string> := [];
      for k := 0 to |sources|
        invariant added == NotIn(Wanted(sources[..k]), getAll)
        invariant rows == rows0 + NewRows(added, |rows0|)
      {
        ghost var before := rows;
        AddContact(sources[k], getAll);
        ghost var next := NotIn(Wanted(sources[..k + 1]), getAll);
        AddedRowsStep(sources, k, getAll, rows0, added, before, rows);
        added := next;
      }
      assert sources[..|sources|] == sources;
    }

    /** `checkEmailNotifications()`, corrected: each source is judged
        against the e-mails listed now, so a contact is added at most once. */
    method CheckEmailNotificationsFixed(sources: seq<string>)
      modifies this
      ensures rows == old(rows) + NewRows(AddedOnce(sources, Emails(old(rows))), |old(rows)|)
    {
      ghost var listed := Emails(rows);
      ghost var rows0 := rows;
      ghost var added: seq<string> := [];
      for k := 0 to |sources|
        invariant added == Fresh(Wanted(sources[..k]), listed)
        invariant rows == rows0 + NewRows(added, |rows0|)
        invariant Emails(rows) == listed + added
      {
        ghost var before := rows;
        AddContact(sources[k], Emails(rows));
        ghost var next := Fresh(Wanted(sources[..k + 1]), listed);
        FreshRowsStep(sources, k, listed, rows0, added, before, rows);
        added := next;
      }
      assert sources[..|sources|] == sources;
    }
  }

  /** The row `AddContact` appends after `m` rows: none for an empty
      source or a contact already in `listed`. */
  function ContactRows(source: string, listed: seq<string>, m: int): seq<NotificationRow>
  {
    if source == "" || ContactFor(source) in listed then [] else [NotificationRow(ContactFor(source), true, m + 1)]
  }

  lemma WantedStep(sources: seq<string>, k: nat)
    requires k < |sources|
    ensures Wanted(sources[..k + 1]) ==
      Wanted(sources[..k]) + (if sources[k] == "" then [] else [ContactFor(sources[k])])
  {
    assert sources[..k + 1][..k] == sources[..k];
  }

  lemma NotInStep(w: seq<string>, a: string, listed: seq<string>)
    ensures var x := NotIn(w, listed);
      NotIn(w + [a], listed) == (if a in listed then x else x + [a])
  {
    assert (w + [a])[..|w|] == w;
    var x := NotIn(w, listed);
    assert x + [] == x;
  }

  /** One source more, as written: its contact, if it wants one that was
      not listed at the start, follows the contacts of the sources before
      it. */
  lemma AddedNext(sources: seq<string>, k: nat, listed: seq<string>, added: seq<string>)
    requires k < |sources|
    requires added == NotIn(Wanted(sources[..k]), listed)
    ensures var c := ContactFor(sources[k]);
      NotIn(Wanted(sources[..k + 1]), listed) == if sources[k] != "" && c !in listed then added + [c] else added
  {
    WantedStep(sources, k);
    var w := Wanted(sources[..k]);
    if sources[k] != "" {
      NotInStep(w, ContactFor(sources[k]), listed);
    } else {
      assert w + [] == w;
    }
  }

  /** The loop of `checkEmailNotifications`, as written, keeps its rows in
      step with `NotIn` for one source more. */
  lemma AddedRowsStep(sources: seq<string>, k: nat, listed: seq<string>,
                      rows0: seq<NotificationRow>, added: seq<string>,
                      before: seq<NotificationRow>, after: seq<NotificationRow>)
    requires k < |sources|
    requires added == NotIn(Wanted(sources[..k]), listed)
    requires before == rows0 + NewRows(added, |rows0|)
    requires after == before + ContactRows(sources[k], listed, |before|)
    ensures after == rows0 + NewRows(NotIn(Wanted(sources[..k + 1]), listed), |rows0|)
  {
    var c := ContactFor(sources[k]);
    var adds := sources[k] != "" && c !in listed;
    AddedNext(sources, k, listed, added);
    assert !adds ==> after == before + [] == before;
    RowsStep(rows0, added, NotIn(Wanted(sources[..k + 1]), listed), before, after, c, adds);
  }

  lemma FreshStep(w: seq<string>, a: string, listed: seq<string>)
    ensures var x := Fresh(w, listed);
      Fresh(w + [a], listed) == (if a in listed + x then x else x + [a])
  {
    assert (w + [a])[..|w|] == w;
  }

  lemma NewRowsSnoc(emails: seq<string>, a: string, n: int)
    ensures NewRows(emails + [a], n) == NewRows(emails, n) + [NotificationRow(a, true, n + |emails| + 1)]
  {
    assert (emails + [a])[..|emails|] == emails;
  }

  /** One source more, corrected: its contact, if it wants one not yet
      on the list, follows the contacts of the sources before it. */
  lemma FreshAddedStep(sources: seq<string>, k: nat, listed: seq<string>, n: int, added: seq<string>)
    requires k < |sources|
    requires added == Fresh(Wanted(sources[..k]), listed)
    ensures var c := ContactFor(sources[k]);
      var next := Fresh(Wanted(sources[..k + 1]), listed);
      if sources[k] != "" && c !in listed + added then
        next == added + [c] && NewRows(next, n) == NewRows(added, n) + [NotificationRow(c, true, n + |added| + 1)]
      else
        next == added
  {
    WantedStep(sources, k);
    var w := Wanted(sources[..k]);
    var c := ContactFor(sources[k]);
    if sources[k] != "" {
      assert Fresh(Wanted(sources[..k + 1]), listed) == (if c in listed + added then added else added + [c]) by {
        FreshStep(w, c, listed);
      }
      NewRowsSnoc(added, c, n);
    } else {
      assert w + [] == w;
    }
  }

  /** The loop of the corrected `checkEmailNotifications` keeps its rows
      and its list of e-mails in step with `Fresh` for one source more. */
  lemma FreshRowsStep(sources: seq<string>, k: nat, listed: seq<string>,
                      rows0: seq<NotificationRow>, added: seq<string>,
                      before: seq<NotificationRow>, after: seq<NotificationRow>)
    requires k < |sources|
    requires added == Fresh(Wanted(sources[..k]), listed)
    requires before == rows0 + NewRows(added, |rows0|)
    requires Emails(before) == listed + added
    requires after == before + ContactRows(sources[k], Emails(before), |before|)
    ensures after == rows0 + NewRows(Fresh(Wanted(sources[..k + 1]), listed), |rows0|)
    ensures Emails(after) == listed + Fresh(Wanted(sources[..k + 1]), listed)
  {
    var c := ContactFor(sources[k]);
    var adds := sources[k] != "" && c !in listed + added;
    var next := Fresh(Wanted(sources[..k + 1]), listed);
    FreshAddedStep(sources, k, listed, |rows0|, added);
    assert !adds ==> after == before + [] == before;
    RowsStep(rows0, added, next, before, after, c, adds);
    ListedStep(listed, added, next, before, after, NotificationRow(c, true, |before| + 1), adds);
  }

  /** Appending the row of `c`, or nothing, keeps the rows after `rows0`
      in step with the added contacts. */
  lemma RowsStep(rows0: seq<NotificationRow>, added: seq<string>, next: seq<string>,
                 before: seq<NotificationRow>, after: seq<NotificationRow>, c: string, adds: bool)
    requires before == rows0 + NewRows(added, |rows0|)
    requires adds ==> next == added + [c] && after == before + [NotificationRow(c, true, |before| + 1)]
    requires !adds ==> next == added && after == before
    ensures after == rows0 + NewRows(next, |rows0|)
  {
    if adds {
      NewRowsSnoc(added, c, |rows0|);
      AppendAssoc(rows0, NewRows(added, |rows0|), [NotificationRow(c, true, |before| + 1)]);
    }
  }

  /** Appending `row`, or nothing, keeps the listed e-mails in step with
      the added contacts. */
  lemma ListedStep(listed: seq<string>, added: seq<string>, next: seq<string>,
                   before: seq<NotificationRow>, after: seq<NotificationRow>, row: NotificationRow, adds: bool)
    requires Emails(before) == listed + added
    requires adds ==> next == added + [row.email] && after == before + [row]
    requires !adds ==> next == added && after == before
    ensures Emails(after) == listed + next
  {
    if adds {
      EmailsSnoc(before, row);
      AppendAssoc(listed, added, [row.email]);
    }
  }

  lemma EmailsSnoc(rows: seq<NotificationRow>, row: NotificationRow)
    ensures Emails(rows + [row]) == Emails(rows) + [row.email]
  {
    assert (rows + [row])[..|rows|] == rows;
  }

  // ------------------------------------------------- shipment source comments

  /** A row of `#shipmentSourcesBody`: the caption shown, the key in the
      textarea's id (`source_<key>`), and the comment in the textarea. */
  datatype CommentRow = CommentRow(caption: string, key: string, text: string)

  /** `sourceArray`: its keys in insertion order, which is the order
      `for (key in sourceArray)` visits them, and the comment per key. */
  datatype Memory = Memory(order: seq<string>, comments: map<string, string>)

  predicate WellFormed(m: Memory)
  {
    && (forall i :: 0 <= i < |m.order| ==> m.order[i] in m.comments)
    && (forall k :: k in m.comments ==> k in m.order)
    && (forall i, j :: 0 <= i < j < |m.order| ==> m.order[i] != m.order[j])
  }

  /** The key of a selected source: its spaces become underscores. */
  function KeyOf(source: string): string
  {
    ReplaceAll(source, ' ', '_')
  }

  /** The label shown for a key: its underscores become spaces. */
  function LabelOf(key: string): string
  {
    ReplaceAll(key, '_', ' ')
  }

  /** The label round trip: a source name without underscores is shown
      as it was selected. */
  lemma LabelRoundTrip(source: string)
    requires '_' !in source
    ensures LabelOf(KeyOf(source)) == source
  {
    var r := LabelOf(KeyOf(source));
    assert |r| == |source|;
    forall i | 0 <= i < |source|
      ensures r[i] == source[i]
    {
      assert source[i] != '_';
    }
  }

  /** The keys of the selected sources, empty ones included. */
  function KeysOf(sources: seq<string>): (r: seq<string>)
    ensures |r| == |sources|
    ensures forall i :: 0 <= i < |sources| ==> r[i] == KeyOf(sources[i])
  {
    if sources == [] then [] else KeysOf(sources[..|sources| - 1]) + [KeyOf(sources[|sources| - 1])]
  }

  lemma KeysOfSnoc(sources: seq<string>, i: nat)
    requires i < |sources|
    ensures KeysOf(sources[..i + 1]) == KeysOf(sources[..i]) + [KeyOf(sources[i])]
  {
    assert sources[..i + 1][..i] == sources[..i];
  }

  /** `$("#source_" + key).val()`, or "" when there is no such textarea:
      the first row of the body with that key, read back as it was
      stored. */
  function TextareaText(body: seq<CommentRow>, key: string): string
  {
    if body == [] then ""
    else if body[0].key == key then body[0].text
    else TextareaText(body[1..], key)
  }

  predicate InBody(body: seq<CommentRow>, key: string)
  {
    exists i :: 0 <= i < |body| && body[i].key == key
  }

  lemma {:induction false} TextareaAbsent(body: seq<CommentRow>, key: string)
    requires !InBody(body, key)
    ensures TextareaText(body, key) == ""
  {
    if body != [] {
      forall i | 0 <= i < |body[1..]|
        ensures body[1..][i].key != key
      {
        assert body[1..][i] == body[i + 1];
      }
      TextareaAbsent(body[1..], key);
    }
  }

  /** `sourceArray[k] = text`: a key not yet present goes to the end of the
      insertion order. */
  function Note(m: Memory, k: string, text: string): Memory
  {
    Memory(if k in m.comments then m.order else m.order + [k], m.comments[k := text])
  }

  /** `sourceArray` after the first loop of `updateShipmentComments`: every
      non-empty key takes the text of its textarea. */
  function Remember(m: Memory, keys: seq<string>, body: seq<CommentRow>): Memory
  {
    if keys == [] then m
    else
      var m' := Remember(m, keys[..|keys| - 1], body);
      var k := keys[|keys| - 1];
      if k == "" then m' else Note(m', k, TextareaText(body, k))
  }

  lemma RememberSnoc(m: Memory, keys: seq<string>, k: string, body: seq<CommentRow>)
    ensures Remember(m, keys + [k], body) ==
      if k == "" then Remember(m, keys, body) else Note(Remember(m, keys, body), k, TextareaText(body, k))
  {
    assert (keys + [k])[..|keys|] == keys;
  }

  /** `r` keeps the keys of `m` in their places, possibly followed by more. */
  predicate Extends(m: Memory, r: Memory)
  {
    |r.order| >= |m.order| && r.order[..|m.order|] == m.order
  }

  /** One assignment keeps `sourceArray` well formed and its keys in
      place, adds `k` and changes the comment of `k` alone. */
  lemma NoteMeaning(m: Memory, k: string, text: string)
    requires WellFormed(m)
    ensures var r := Note(m, k, text);
      && WellFormed(r)
      && Extends(m, r)
      && (forall x :: x in r.comments <==> x in m.comments || x == k)
      && r.comments[k] == text
      && (forall x :: x in m.comments && x != k ==> r.comments[x] == m.comments[x])
  {
    var r := Note(m, k, text);
    if k !in m.comments {
      assert k !in m.order;
      assert r.order[..|m.order|] == m.order;
    }
  }

  /** The first loop keeps `sourceArray` well formed, keeps every key it
      had in its place, gives each non-empty selected key the text of its
      textarea (or "" when there is none) and leaves the other comments
      alone. */
  lemma {:induction false} RememberMeaning(m: Memory, keys: seq<string>, body: seq<CommentRow>)
    requires WellFormed(m)
    ensures var r := Remember(m, keys, body);
      && WellFormed(r)
      && Extends(m, r)
      && (forall x :: x in r.comments <==> x in m.comments || (x in keys && x != ""))
      && (forall x :: x in keys && x != "" ==> r.comments[x] == TextareaText(body, x))
      && (forall x :: x in m.comments && x !in keys ==> r.comments[x] == m.comments[x])
    decreases |keys|
  {
    if keys != [] {
      var init := keys[..|keys| - 1];
      var k := keys[|keys| - 1];
      RememberMeaning(m, init, body);
      var m' := Remember(m, init, body);
      assert keys == init + [k];
      if k != "" {
        NoteMeaning(m', k, TextareaText(body, k));
        var r := Remember(m, keys, body);
        assert r.order[..|m.order|] == r.order[..|m'.order|][..|m.order|];
      }
    }
  }

  /** A comment survives only while its source stays selected: a key whose
      row is no longer shown gets an empty comment when it is selected
      again. */
  lemma ReselectedSourceForgets(m: Memory, keys: seq<string>, body: seq<CommentRow>, k: string)
    requires WellFormed(m) && k in keys && k != "" && !InBody(body, k)
    ensures var r := Remember(m, keys, body); k in r.comments && r.comments[k] == ""
  {
    RememberMeaning(m, keys, body);
    TextareaAbsent(body, k);
  }

  /** The rows the second loop renders: one per remembered key that is
      among the selected keys, in insertion order. */
  function Rows(order: seq<string>, comments: map<string, string>, selected: seq<string>): seq<CommentRow>
    requires forall i :: 0 <= i < |order| ==> order[i] in comments
  {
    if order == [] then []
    else
      var k := order[|order| - 1];
      Rows(order[..|order| - 1], comments, selected)
        + (if k in selected then [CommentRow(LabelOf(k), k, comments[k])] else [])
  }

  /** Row `row` shows a listed, selected key with its label and its
      comment. */
  predicate Shows(row: CommentRow, order: seq<string>, comments: map<string, string>, selected: seq<string>)
  {
    row.key in order && row.key in selected && row.key in comments
    && row.caption == LabelOf(row.key) && row.text == comments[row.key]
  }

  /** Every rendered row is a listed, selected key shown with its label
      and its comment. */
  lemma {:induction false} RowsSound(order: seq<string>, comments: map<string, string>, selected: seq<string>)
    requires forall i :: 0 <= i < |order| ==> order[i] in comments
    ensures forall i :: 0 <= i < |Rows(order, comments, selected)| ==>
      Shows(Rows(order, comments, selected)[i], order, comments, selected)
  {
    if order != [] {
      var init := order[..|order| - 1];
      RowsSound(init, comments, selected);
      var r := Rows(order, comments, selected);
      var ri := Rows(init, comments, selected);
      forall i | 0 <= i < |r|
        ensures Shows(r[i], order, comments, selected)
      {
        if i < |ri| {
          assert r[i] == ri[i];
          assert Shows(ri[i], init, comments, selected);
          var x := ri[i].key;
          var p :| 0 <= p < |init| && init[p] == x;
          assert order[p] == x;
        }
      }
    }
  }

  /** Every listed, selected key is rendered. */
  lemma {:induction false} RowsComplete(order: seq<string>, comments: map<string, string>, selected: seq<string>)
    requires forall i :: 0 <= i < |order| ==> order[i] in comments
    ensures forall k :: k in order && k in selected ==> InBody(Rows(order, comments, selected), k)
  {
    if order != [] {
      var init := order[..|order| - 1];
      var last := order[|order| - 1];
      RowsComplete(init, comments, selected);
      var r := Rows(order, comments, selected);
      var ri := Rows(init, comments, selected);
      forall k | k in order && k in selected
        ensures InBody(r, k)
      {
        if k != last {
          assert k in init by {
            var i :| 0 <= i < |order| && order[i] == k;
            assert init[i] == k;
          }
          var i :| 0 <= i < |ri| && ri[i].key == k;
          assert r[i] == ri[i];
        } else {
          assert r[|r| - 1].key == k;
        }
      }
    }
  }

  /** No two rows share a key: each textarea id is unique. */
  predicate DistinctKeys(r: seq<CommentRow>)
  {
    forall i, j :: 0 <= i < j < |r| ==> r[i].key != r[j].key
  }

  /** Distinct keys in the insertion order give rows with distinct keys. */
  lemma {:induction false} RowsDistinct(order: seq<string>, comments: map<string, string>, selected: seq<string>)
    requires forall i :: 0 <= i < |order| ==> order[i] in comments
    requires forall i, j :: 0 <= i < j < |order| ==> order[i] != order[j]
    ensures DistinctKeys(Rows(order, comments, selected))
  {
    if order != [] {
      var init := order[..|order| - 1];
      var last := order[|order| - 1];
      RowsDistinct(init, comments, selected);
      RowsSound(init, comments, selected);
      var r := Rows(order, comments, selected);
      var ri := Rows(init, comments, selected);
      forall i | 0 <= i < |init|
        ensures init[i] != last
      {
        assert init[i] == order[i];
      }
      forall i, j | 0 <= i < j < |r|
        ensures r[i].key != r[j].key
      {
        assert r[i] == ri[i];
        if j < |ri| {
          assert r[j] == ri[j];
        } else {
          assert r[j].key == last;
          assert Shows(ri[i], init, comments, selected);
        }
      }
    }
  }

  /** The rendered rows are exactly the remembered keys that are selected,
      in insertion order, each with its label and comment, none twice. */
  lemma RowsMeaning(m: Memory, selected: seq<string>)
    requires WellFormed(m)
    ensures forall i :: 0 <= i < |Rows(m.order, m.comments, selected)| ==>
      Shows(Rows(m.order, m.comments, selected)[i], m.order, m.comments, selected)
    ensures forall k :: k in m.comments && k in selected ==> InBody(Rows(m.order, m.comments, selected), k)
    ensures DistinctKeys(Rows(m.order, m.comments, selected))
  {
    RowsSound(m.order, m.comments, selected);
    RowsComplete(m.order, m.comments, selected);
    RowsDistinct(m.order, m.comments, selected);
  }

  class SourceComments {
    /** `sourceArray`. */
    var memory: Memory
    /** The rows of `#shipmentSourcesBody`, with what the user typed. */
    var body: seq<CommentRow>

    predicate Valid()
      reads this
    {
      WellFormed(memory)
    }

    constructor ()
      ensures Valid() && memory == Memory([], map[]) && body == []
    {
      memory := Memory([], map[]);
      body := [];
    }

    /** The user types `text` into the textarea of row `i`. */
    method Edit(i: nat, text: string)
      requires i < |body|
      modifies this
      ensures memory == old(memory)
      ensures body == old(body)[i := old(body)[i].(text := text)]
    {
      body := body[i := body[i].(text := text)];
    }

    /** `updateShipmentComments()` with the values of the `.sourceCombo`
        selects: remember the textarea text of every selected source, then
        render one row per remembered source that is still selected. A row
        holds the comment as text; the source pastes it into the row's
        HTML unescaped, which is not modelled. */
    method UpdateShipmentComments(sources: seq<string>)
      requires Valid()
      modifies this
      ensures Valid()
      ensures memory == Remember(old(memory), KeysOf(sources), old(body))
      ensures body == Rows(memory.order, memory.comments, KeysOf(sources))
    {
      var selectValues := RememberSelected(sources);
      RememberMeaning(old(memory), selectValues, body);
      Render(selectValues);
    }

    /** The first loop: each non-empty key of a selected source takes the
        text of its textarea; the keys are collected in `selectValues`. */
    method RememberSelected(sources: seq<string>) returns (selectValues: seq<string>)
      modifies this
      ensures selectValues == KeysOf(sources)
      ensures body == old(body)
      ensures memory == Remember(old(memory), selectValues, body)
    {
      selectValues := [];
      for i := 0 to |sources|
        invariant selectValues == KeysOf(sources[..i])
        invariant body == old(body)
        invariant memory == Remember(old(memory), selectValues, body)
      {
        var value := KeyOf(sources[i]);
        ghost var before := memory;
        if value != "" {
          var text := TextareaText(body, value);
          if value !in memory.comments {
            memory := Memory(memory.order + [value], memory.comments[value := text]);
          } else {
            memory := memory.(comments := memory.comments[value := text]);
          }
          assert memory == Note(before, value, TextareaText(body, value));
        }
        RememberSnoc(old(memory), selectValues, value, body);
        KeysOfSnoc(sources, i);
        selectValues := selectValues + [value];
      }
      assert sources[..|sources|] == sources;
    }

    /** The second loop: empty the body and append a row for each key of
        `sourceArray`, in insertion order, that is among `selected`. */
    method Render(selected: seq<string>)
      requires Valid()
      modifies this
      ensures memory == old(memory)
      ensures body == Rows(memory.order, memory.comments, selected)
    {
      body := [];
      var order := memory.order;
      for j := 0 to |order|
        invariant memory == old(memory)
        invariant body == Rows(order[..j], memory.comments, selected)
      {
        assert order[..j + 1][..j] == order[..j];
        var key := order[j];
        if key in selected {
          body := body + [CommentRow(LabelOf(key), key, memory.comments[key])];
        }
      }
      assert order[..|order|] == order;
    }
  }

  // ---------------------------------------------------------- box numbering

  /** A call `updateBoxNumber(id, index)`. */
  datatype BoxUpdate = BoxUpdate(id: string, index: int)

  /** The last `_`-separated segment of an element id. */
  function LastSegment(id: string): string
  {
    var pieces := Split(id, '_');
    pieces[|pieces| - 1]
  }

  /** The segment after the last underscore is the box's own id. */
  lemma {:induction false} LastSegmentOf(prefix: string, n: string)
    requires '_' !in n
    ensures |Split(prefix + "_" + n, '_')| >= 2
    ensures LastSegment(prefix + "_" + n) == n
    decreases |prefix|
  {
    var s := prefix + "_" + n;
    if prefix == [] {
      assert s == [] + ['_'] + n;
      SplitAfter([], '_', n);
      SplitNoSep(n, '_');
    } else {
      assert s[1..] == prefix[1..] + "_" + n;
      LastSegmentOf(prefix[1..], n);
    }
  }

  /** `recountBox()`: number the `.boxNumber` inputs 1, 2, … in document
      order and tell the server each box's new index. */
  method RecountBox(boxes: array<int>, ids: seq<string>) returns (calls: seq<BoxUpdate>)
    requires boxes.Length == |ids|
    modifies boxes
    ensures forall i :: 0 <= i < boxes.Length ==> boxes[i] == i + 1
    ensures |calls| == |ids|
    ensures forall i :: 0 <= i < |ids| ==> calls[i] == BoxUpdate(LastSegment(ids[i]), i)
  {
    var count := 1;
    calls := [];
    for i := 0 to boxes.Length
      invariant count == i + 1
      invariant |calls| == i
      invariant forall j :: 0 <= j < i ==> boxes[j] == j + 1
      invariant forall j :: 0 <= j < i ==> calls[j] == BoxUpdate(LastSegment(ids[j]), j)
    {
      boxes[i] := count;
      calls := calls + [BoxUpdate(LastSegment(ids[i]), count - 1)];
      count := count + 1;
    }
  }
}
