/** Shared value types: JavaScript numbers and JSON values as the browser
    code sees them, and the string operations it relies on (trim, split,
    join, decimal digits). */
module Text {

  datatype Option<+T> = None | Some(value: T)

  /** A JavaScript number: the special values that matter for truthiness
      and finiteness, and finite values as reals. */
  datatype JsNumber = NaN | PosInf | NegInf | Finite(v: real)

  /** `!!n` for a number: false exactly for NaN and zero. */
  predicate Truthy(n: JsNumber)
  {
    match n
    case NaN => false
    case Finite(v) => v != 0.0
    case _ => true
  }

  /** `Number.isFinite(n)`. */
  predicate IsFinite(n: JsNumber)
  {
    n.Finite?
  }

  /** `a || b` on numbers. */
  function OrElse(a: JsNumber, b: JsNumber): (r: JsNumber)
    ensures Truthy(a) ==> r == a
    ensures !Truthy(a) ==> r == b
  {
    if Truthy(a) then a else b
  }

  /** A parsed JSON value (JSON has no NaN or infinities). */
  datatype Json =
    | JNull
    | JBool(b: bool)
    | JNum(n: real)
    | JStr(s: string)
    | JArr(elems: seq<Json>)
    | JObj(fields: map<string, Json>)

  /** `!!v` for a JSON value: arrays and objects are always truthy. */
  predicate JsonTruthy(v: Json)
  {
    match v
    case JNull => false
    case JBool(b) => b
    case JNum(n) => n != 0.0
    case JStr(s) => s != ""
    case _ => true
  }

  // ---------------------------------------------------------------- whitespace

  /** The characters ECMAScript treats as WhiteSpace or LineTerminator:
      what `String.prototype.trim` removes and what `\s` matches. */
  predicate IsSpace(c: char)
  {
    c == '\t' || c == '\n' || c == '\U{000B}' || c == '\U{000C}' || c == '\r' || c == ' '
    || c == '\U{00A0}' || c == '\U{1680}' || ('\U{2000}' <= c <= '\U{200A}')
    || c == '\U{2028}' || c == '\U{2029}' || c == '\U{202F}' || c == '\U{205F}'
    || c == '\U{3000}' || c == '\U{FEFF}'
  }

  predicate AllSpace(s: string)
  {
    forall i :: 0 <= i < |s| ==> IsSpace(s[i])
  }

  /** A string with no leading or trailing whitespace. */
  predicate IsTrimmed(s: string)
  {
    s == [] || (!IsSpace(s[0]) && !IsSpace(s[|s| - 1]))
  }

  /** Leading whitespace dropped (what `\s*` at the start matches). */
  function TrimStart(s: string): (r: string)
    ensures |r| <= |s|
    ensures r == [] || !IsSpace(r[0])
  {
    if s == [] || !IsSpace(s[0]) then s else TrimStart(s[1..])
  }

  /** `r` is what is left of `s` once an all-whitespace head and an
      all-whitespace tail are cut off. */
  predicate CutFrom(s: string, r: string)
  {
    exists i, j :: 0 <= i <= j <= |s| && r == s[i..j] && AllSpace(s[..i]) && AllSpace(s[j..])
  }

  /** `s.trim()`: drop leading and trailing whitespace. The result is cut
      from `s` by whitespace alone and neither starts nor ends with
      whitespace, so exactly the leading and trailing whitespace goes. */
  function Trim(s: string): (r: string)
    ensures |r| <= |s|
    ensures IsTrimmed(r)
    ensures CutFrom(s, r)
  {
    if s == [] then
      assert s[0..0] == [] && s[..0] == [] && s[0..] == [];
      []
    else if IsSpace(s[0]) then
      var r := Trim(s[1..]);
      CutBehindSpace(s, r);
      r
    else if IsSpace(s[|s| - 1]) then
      var r := Trim(s[..|s| - 1]);
      CutBeforeSpace(s, r);
      r
    else
      assert s[0..|s|] == s && s[..0] == [] && s[|s|..] == [];
      s
  }

  lemma CutBehindSpace(s: string, r: string)
    requires s != [] && IsSpace(s[0]) && CutFrom(s[1..], r)
    ensures CutFrom(s, r)
  {
    var t := s[1..];
    var i, j :| 0 <= i <= j <= |t| && r == t[i..j] && AllSpace(t[..i]) && AllSpace(t[j..]);
    assert r == s[i + 1..j + 1];
    var head, tail := s[..i + 1], s[j + 1..];
    assert AllSpace(head) by {
      forall k | 0 <= k < |head|
        ensures IsSpace(head[k])
      {
        if k > 0 {
          assert head[k] == t[..i][k - 1];
        }
      }
    }
    assert AllSpace(tail) by {
      forall k | 0 <= k < |tail|
        ensures IsSpace(tail[k])
      {
        assert tail[k] == t[j..][k];
      }
    }
    assert 0 <= i + 1 <= j + 1 <= |s|;
  }

  lemma CutBeforeSpace(s: string, r: string)
    requires s != [] && IsSpace(s[|s| - 1]) && CutFrom(s[..|s| - 1], r)
    ensures CutFrom(s, r)
  {
    var t := s[..|s| - 1];
    var i, j :| 0 <= i <= j <= |t| && r == t[i..j] && AllSpace(t[..i]) && AllSpace(t[j..]);
    assert r == s[i..j];
    assert t[..i] == s[..i];
    var tail := s[j..];
    assert AllSpace(tail) by {
      forall k | 0 <= k < |tail|
        ensures IsSpace(tail[k])
      {
        if k < |t| - j {
          assert tail[k] == t[j..][k];
        }
      }
    }
  }

  /** Trimming removes only whitespace: a string with a non-space
      character never trims to the empty string, and an all-space one
      always does. */
  lemma {:induction false} TrimEmptyIff(s: string)
    ensures Trim(s) == [] <==> AllSpace(s)
  {
    if s != [] {
      if IsSpace(s[0]) {
        TrimEmptyIff(s[1..]);
        assert AllSpace(s) <==> AllSpace(s[1..]) by {
          assert forall i :: 0 <= i < |s[1..]| ==> s[1..][i] == s[i + 1];
        }
      } else if IsSpace(s[|s| - 1]) {
        TrimEmptyIff(s[..|s| - 1]);
        assert !AllSpace(s[..|s| - 1]) by {
          assert s[..|s| - 1][0] == s[0];
        }
      }
    }
  }

  /** Trimming adds no character. */
  lemma {:induction false} TrimNoNew(s: string, c: char)
    requires c !in s
    ensures c !in Trim(s)
  {
    if s != [] {
      if IsSpace(s[0]) {
        TrimNoNew(s[1..], c);
      } else if IsSpace(s[|s| - 1]) {
        TrimNoNew(s[..|s| - 1], c);
      }
    }
  }

  /** A trimmed string is its own trim, even behind one leading space. */
  lemma TrimSpaced(x: string)
    requires IsTrimmed(x) && x != []
    ensures Trim(x) == x
    ensures Trim([' '] + x) == x
  {
    assert ([' '] + x)[1..] == x;
  }

  // ---------------------------------------------------------------- split / join

  /** `xs.join(sep)`. */
  function Join(xs: seq<string>, sep: string): string
  {
    if |xs| == 0 then ""
    else if |xs| == 1 then xs[0]
    else xs[0] + sep + Join(xs[1..], sep)
  }

  /** `s.split(sep)` for a one-character separator: always at least one
      piece, no piece holds the separator, and joining the pieces back
      gives `s`. */
  function Split(s: string, sep: char): (r: seq<string>)
    ensures |r| >= 1
    ensures forall i :: 0 <= i < |r| ==> sep !in r[i]
    ensures Join(r, [sep]) == s
  {
    if |s| == 0 then [""]
    else if s[0] == sep then
      var rest := Split(s[1..], sep);
      assert [""] + rest == [""] + rest;
      assert s == [sep] + s[1..];
      [""] + rest
    else
      var rest := Split(s[1..], sep);
      var r := [[s[0]] + rest[0]] + rest[1..];
      assert r[1..] == rest[1..];
      JoinPrefix([s[0]], rest, [sep]);
      assert s == [s[0]] + s[1..];
      r
  }

  /** Prefixing the first piece prefixes the join. */
  lemma JoinPrefix(p: string, xs: seq<string>, sep: string)
    requires |xs| >= 1
    ensures Join([p + xs[0]] + xs[1..], sep) == p + Join(xs, sep)
  {
    var ys := [p + xs[0]] + xs[1..];
    if |xs| > 1 {
      assert ys[1..] == xs[1..];
    }
  }

  /** Splitting a string with no separator yields just that string. */
  lemma {:induction false} SplitNoSep(a: string, sep: char)
    requires sep !in a
    ensures Split(a, sep) == [a]
  {
    if |a| > 0 {
      assert sep !in a[1..];
      SplitNoSep(a[1..], sep);
    }
  }

  /** Splitting `a + sep + b`, where `a` holds no separator, yields `a`
      followed by the pieces of `b`. */
  lemma {:induction false} SplitAfter(a: string, sep: char, b: string)
    requires sep !in a
    ensures Split(a + [sep] + b, sep) == [a] + Split(b, sep)
  {
    var s := a + [sep] + b;
    if |a| == 0 {
      assert s[0] == sep && s[1..] == b;
    } else {
      assert s[0] == a[0] && s[1..] == a[1..] + [sep] + b;
      assert sep !in a[1..];
      SplitAfter(a[1..], sep, b);
      assert [a[0]] + a[1..] == a;
    }
  }

  /** The round trip: splitting the join of separator-free pieces gives
      the pieces back. */
  lemma {:induction false} SplitJoin(xs: seq<string>, sep: char)
    requires |xs| >= 1
    requires forall i :: 0 <= i < |xs| ==> sep !in xs[i]
    ensures Split(Join(xs, [sep]), sep) == xs
  {
    if |xs| == 1 {
      SplitNoSep(xs[0], sep);
    } else {
      SplitJoin(xs[1..], sep);
      SplitAfter(xs[0], sep, Join(xs[1..], [sep]));
      assert [xs[0]] + xs[1..] == xs;
    }
  }

  // ---------------------------------------------------------------- replace

  /** `s.replace(/a/g, b)` for single characters. */
  function ReplaceAll(s: string, a: char, b: char): (r: string)
    ensures |r| == |s|
    ensures forall i :: 0 <= i < |s| ==> r[i] == (if s[i] == a then b else s[i])
  {
    if s == [] then [] else [if s[0] == a then b else s[0]] + ReplaceAll(s[1..], a, b)
  }

  // ---------------------------------------------------------------- decimal digits

  predicate IsDigit(c: char)
  {
    '0' <= c <= '9'
  }

  /** `s.replace(/[^\d]/g, '')`: the ASCII digits of `s`, in order. */
  function DigitsOf(s: string): (r: string)
    ensures forall i :: 0 <= i < |r| ==> IsDigit(r[i])
    ensures |r| <= |s|
  {
    if s == [] then []
    else if IsDigit(s[0]) then [s[0]] + DigitsOf(s[1..])
    else DigitsOf(s[1..])
  }

  /** The value of a string of decimal digits (leading zeros allowed). */
  function DecimalValue(ds: string): nat
    requires forall i :: 0 <= i < |ds| ==> IsDigit(ds[i])
  {
    if ds == [] then 0
    else
      assert IsDigit(ds[|ds| - 1]);
      DecimalValue(ds[..|ds| - 1]) * 10 + (ds[|ds| - 1] as int - '0' as int)
  }

  /** `String(n)` for a non-negative integer. */
  function NatToDecimal(n: nat): (r: string)
    ensures |r| >= 1
    ensures n < 10 <==> |r| == 1
    ensures n < 100 ==> |r| <= 2
    ensures forall i :: 0 <= i < |r| ==> IsDigit(r[i])
  {
    if n < 10 then [('0' as int + n) as char]
    else NatToDecimal(n / 10) + [('0' as int + n % 10) as char]
  }

  /** Reading back a printed number gives the number. */
  lemma {:induction false} DecimalRoundTrip(n: nat)
    ensures DecimalValue(NatToDecimal(n)) == n
  {
    var r := NatToDecimal(n);
    if n >= 10 {
      DecimalRoundTrip(n / 10);
      assert r[..|r| - 1] == NatToDecimal(n / 10);
    }
  }

  /** Digits survive digit extraction unchanged. */
  lemma {:induction false} DigitsOfDigits(ds: string)
    requires forall i :: 0 <= i < |ds| ==> IsDigit(ds[i])
    ensures DigitsOf(ds) == ds
  {
    if ds != [] {
      DigitsOfDigits(ds[1..]);
    }
  }

  /** Digit extraction distributes over concatenation. */
  lemma {:induction false} DigitsOfAppend(a: string, b: string)
    ensures DigitsOf(a + b) == DigitsOf(a) + DigitsOf(b)
  {
    if a != [] {
      assert (a + b)[1..] == a[1..] + b;
      DigitsOfAppend(a[1..], b);
    } else {
      assert a + b == b;
    }
  }

  /** A string without digits contributes nothing. */
  lemma {:induction false} DigitsOfNone(s: string)
    requires forall i :: 0 <= i < |s| ==> !IsDigit(s[i])
    ensures DigitsOf(s) == []
  {
    if s != [] {
      DigitsOfNone(s[1..]);
    }
  }

  /** Concatenation is associative; stated once for the proofs that regroup
      a sequence built step by step. */
  lemma AppendAssoc<T>(a: seq<T>, b: seq<T>, c: seq<T>)
    ensures a + b + c == a + (b + c)
  {
  }
}
