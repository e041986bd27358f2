/** String <-> value conversion (`LexicalCast`, `CastFromString`,
    `CastToString`, `StringCaster`) and closed-choice validation
    (`ChoiceCaster`) of cmdline.h, over the kinds int, bool and string. */
module Cast {
  import opened Wrappers
  import opened Values
  import opened Errors
  import Text

  /** What `ss >> ret` followed by the `!eof() || fail()` test yields for a
      bool target and a token other than "true" and "false". That
      extraction belongs to the C++ standard library, so the model takes it
      as a parameter and states nothing about its outcome. */
  type BoolFallback = string -> Option<bool>

  predicate IsDigit(c: char)
  {
    '0' <= c <= '9'
  }

  predicate AllDigits(s: string)
  {
    forall i :: 0 <= i < |s| ==> IsDigit(s[i])
  }

  function DigitChar(d: nat): (c: char)
    requires d < 10
    ensures IsDigit(c)
  {
    ('0' as int + d) as char
  }

  function DigitValue(c: char): (d: nat)
    requires IsDigit(c)
    ensures d < 10
  {
    c as int - '0' as int
  }

  /** Decimal rendering of a natural number, most significant digit first. */
  function NatToString(n: nat): (r: string)
    ensures |r| >= 1 && AllDigits(r)
    ensures n < 10 <==> |r| == 1
    ensures r[0] == '0' <==> n == 0
    decreases n
  {
    if n < 10 then [DigitChar(n)] else NatToString(n / 10) + [DigitChar(n % 10)]
  }

  /** The number a digit string denotes. */
  function DigitsValue(s: string): nat
    requires AllDigits(s)
  {
    if |s| == 0 then 0 else DigitsValue(s[..|s| - 1]) * 10 + DigitValue(s[|s| - 1])
  }

  lemma {:induction false} NatRoundTrip(n: nat)
    ensures DigitsValue(NatToString(n)) == n
    decreases n
  {
    var s := NatToString(n);
    if n >= 10 {
      NatRoundTrip(n / 10);
      assert s[..|s| - 1] == NatToString(n / 10);
    }
  }

  /** A digit string with no superfluous leading zero. */
  predicate NoLeadingZero(d: string)
  {
    |d| > 0 && AllDigits(d) && (d[0] == '0' ==> |d| == 1)
  }

  /** The text `ss << i` produces: no plus sign, no leading zero, and a
      minus sign only before a non-zero magnitude. */
  predicate PlainDecimal(s: string)
  {
    || NoLeadingZero(s)
    || (|s| >= 2 && s[0] == '-' && NoLeadingZero(s[1..]) && s[1] != '0')
  }

  /** `ss << i` for an int: an optional minus sign, then the digits. */
  function IntToString(i: int): (r: string)
    ensures PlainDecimal(r)
  {
    if i < 0 then
      var m := NatToString(-i);
      assert ("-" + m)[1..] == m;
      "-" + m
    else NatToString(i)
  }

  /** A digit string without a superfluous leading zero is the decimal
      rendering of the number it denotes. */
  lemma {:induction false} DigitsRender(d: string)
    requires NoLeadingZero(d)
    ensures NatToString(DigitsValue(d)) == d
    decreases |d|
  {
    if |d| > 1 {
      var init := d[..|d| - 1];
      assert init[0] == d[0];
      DigitsRender(init);
      var v := DigitsValue(d);
      assert DigitsValue(init) != 0;
      assert v / 10 == DigitsValue(init) && v % 10 == DigitValue(d[|d| - 1]);
      assert d == init + [d[|d| - 1]];
    }
  }

  /** The shape of text that `ss >> ret` reads to its very end as an int:
      an optional sign and at least one digit, and nothing else. */
  predicate WholeInteger(s: string)
  {
    && |s| > 0
    && (IsDigit(s[0]) || ((s[0] == '-' || s[0] == '+') && |s| >= 2))
    && forall i :: 1 <= i < |s| ==> IsDigit(s[i])
  }

  /** Reading an int that must consume the whole token. */
  function ParseInt(s: string): (r: Option<int>)
    ensures r.Some? <==> WholeInteger(s)
    ensures r.Some? && r.value < 0 ==> s[0] == '-'
  {
    if |s| > 0 && (s[0] == '-' || s[0] == '+') then
      var digits := s[1..];
      if |digits| > 0 && AllDigits(digits) then
        var n: int := DigitsValue(digits);
        Some(if s[0] == '-' then -n else n)
      else None
    else if |s| > 0 && AllDigits(s) then Some(DigitsValue(s))
    else None
  }

  /** Reading a minus sign followed by a digit string. */
  lemma ParseNegative(s: string)
    requires |s| >= 2 && s[0] == '-' && AllDigits(s[1..])
    ensures ParseInt(s) == Some(-(DigitsValue(s[1..]) as int))
  {
  }

  /** Reading a digit string. */
  lemma ParseDigits(s: string)
    requires |s| >= 1 && AllDigits(s)
    ensures ParseInt(s) == Some(DigitsValue(s))
  {
    assert IsDigit(s[0]);
  }

  lemma NatReadBack(n: nat)
    ensures ParseInt(NatToString(n)) == Some(n)
  {
    NatRoundTrip(n);
    ParseDigits(NatToString(n));
  }

  lemma NegReadBack(n: nat)
    requires n > 0
    ensures ParseInt("-" + NatToString(n)) == Some(-(n as int))
  {
    var s := "-" + NatToString(n);
    NatRoundTrip(n);
    assert s[1..] == NatToString(n);
    ParseNegative(s);
  }

  /** Plain decimal text is the one text an int prints as: reading it and
      printing the value gives the text back. */
  lemma PlainDecimalPrints(s: string)
    requires PlainDecimal(s)
    ensures ParseInt(s).Some? && IntToString(ParseInt(s).value) == s
  {
    if s[0] == '-' {
      ParseNegative(s);
      DigitsRender(s[1..]);
    } else {
      ParseDigits(s);
      DigitsRender(s);
    }
  }

  /** A plus sign before the digits reads as the digits alone. */
  lemma PlusSign(t: string)
    requires |t| > 0 && AllDigits(t)
    ensures ParseInt("+" + t) == ParseInt(t)
  {
    assert ("+" + t)[1..] == t;
    ParseDigits(t);
  }

  /** Zeros have value zero. */
  lemma {:induction false} ZerosValue(z: string)
    requires forall i :: 0 <= i < |z| ==> z[i] == '0'
    ensures AllDigits(z) && DigitsValue(z) == 0
    decreases |z|
  {
    if |z| > 0 {
      ZerosValue(z[..|z| - 1]);
    }
  }

  /** Leading zeros do not change the value of a digit string. */
  lemma {:induction false} ZerosBefore(z: string, t: string)
    requires forall i :: 0 <= i < |z| ==> z[i] == '0'
    requires AllDigits(t)
    ensures AllDigits(z + t) && DigitsValue(z + t) == DigitsValue(t)
    decreases |t|
  {
    ZerosValue(z);
    if |t| > 0 {
      var init := t[..|t| - 1];
      ZerosBefore(z, init);
      assert (z + t)[..|z + t| - 1] == z + init;
    } else {
      assert z + t == z;
    }
  }

  /** Leading zeros do not change the int a token reads as. */
  lemma LeadingZeros(z: string, t: string)
    requires forall i :: 0 <= i < |z| ==> z[i] == '0'
    requires |t| > 0 && AllDigits(t)
    ensures ParseInt(z + t) == ParseInt(t)
  {
    ZerosBefore(z, t);
    ParseDigits(t);
    ParseDigits(z + t);
  }

  /** Tokens that are not plain decimal still read as ints: "+5" as 5,
      "007" as 7 and "-0" as 0. */
  lemma NonPlainReadings()
    ensures ParseInt("+5") == Some(5)
    ensures ParseInt("007") == Some(7)
    ensures ParseInt("-0") == Some(0)
  {
    PlusSign("5");
    ParseDigits("5");
    LeadingZeros("00", "7");
    assert "00" + "7" == "007";
    ParseDigits("7");
    ParseNegative("-0");
  }

  /** Printing an int and reading it back gives the same int. */
  lemma IntRoundTrip(i: int)
    ensures ParseInt(IntToString(i)) == Some(i)
  {
    if i < 0 {
      NegReadBack(-i);
    } else {
      NatReadBack(i);
    }
  }

  /** `CastToString`: ints in decimal, bools with `std::boolalpha`
      ("true"/"false"), strings unchanged. */
  function CastToString(v: Value): (r: string)
    ensures v.IntV? ==> |r| > 0 && ParseInt(r) == Some(v.i) && PlainDecimal(r)
    ensures v.IntV? ==> (r[0] == '-' <==> v.i < 0)
    ensures v.BoolV? ==> (r == "true" || r == "false") && (r == "true" <==> v.b)
    ensures v.StrV? ==> r == v.s
  {
    match v
    case IntV(i) => IntRoundTrip(i); IntToString(i)
    case BoolV(b) => if b then "true" else "false"
    case StrV(s) => s
  }

  /** `CastFromString<T>`: the identity for strings, the keyword path for
      "true"/"false" when the target is bool, otherwise a whole-input read. */
  function CastFromString(kind: Kind, token: string, fallback: BoolFallback): (r: Result<Value, Error>)
    ensures r.Success? ==> r.value.Kind() == kind
    ensures r.Failure? ==> r.error == BadCast(token, kind)
    ensures kind == StrKind ==> r == Success(StrV(token))
    ensures kind == BoolKind && token == "true" ==> r == Success(BoolV(true))
    ensures kind == BoolKind && token == "false" ==> r == Success(BoolV(false))
    ensures kind == IntKind ==> (r.Success? <==> WholeInteger(token))
    ensures kind == IntKind && r.Success? ==> r.value == IntV(ParseInt(token).value)
  {
    match kind
    case StrKind => Success(StrV(token))
    case BoolKind =>
      if token == "true" then Success(BoolV(true))
      else if token == "false" then Success(BoolV(false))
      else (match fallback(token)
            case Some(b) => Success(BoolV(b))
            case None => Failure(BadCast(token, BoolKind)))
    case IntKind =>
      match ParseInt(token)
      case Some(i) => Success(IntV(i))
      case None => Failure(BadCast(token, IntKind))
  }

  /** What an int argument stores for tokens that are not plain decimal. */
  lemma NonPlainCasts(fallback: BoolFallback)
    ensures CastFromString(IntKind, "+5", fallback) == Success(IntV(5))
    ensures CastFromString(IntKind, "007", fallback) == Success(IntV(7))
    ensures CastFromString(IntKind, "-0", fallback) == Success(IntV(0))
  {
    NonPlainReadings();
  }

  /** The fallback of a conforming C++ library: without `std::boolalpha`
      a bool is read as an integer, 0 giving false and 1 giving true, and
      any other number sets the fail bit (ISO/IEC 14882,
      [facet.num.get.virtuals], stage 3 of `num_get::do_get`). */
  function NumericBool(token: string): Option<bool>
  {
    match ParseInt(token)
    case Some(n) => if n == 0 then Some(false) else if n == 1 then Some(true) else None
    case None => None
  }

  /** With that fallback, a bool token is accepted exactly when it is one
      of the two keywords or a whole integer equal to 0 or 1. */
  lemma NumericBoolCast(token: string)
    ensures CastFromString(BoolKind, token, NumericBool).Success?
            <==> token == "true" || token == "false" || ParseInt(token) == Some(0) || ParseInt(token) == Some(1)
    ensures ParseInt(token) == Some(1) ==> CastFromString(BoolKind, token, NumericBool) == Success(BoolV(true))
    ensures ParseInt(token) == Some(0) ==> CastFromString(BoolKind, token, NumericBool) == Success(BoolV(false))
  {
  }

  /** Every value survives being printed and read back as its own kind,
      whatever the library does with other bool tokens. */
  lemma CastRoundTrip(v: Value, fallback: BoolFallback)
    ensures CastFromString(v.Kind(), CastToString(v), fallback) == Success(v)
  {
    if v.IntV? {
      IntRoundTrip(v.i);
    }
  }

  /** The choice items, each printed by `CastToString`, separated by ", ". */
  function Commas(items: seq<Value>): string
  {
    if |items| == 0 then ""
    else if |items| == 1 then CastToString(items[0])
    else CastToString(items[0]) + ", " + Commas(items[1..])
  }

  /** The description a `ChoiceCaster` keeps: "[a, b, c]". */
  function Render(items: seq<Value>): string
  {
    "[" + Commas(items) + "]"
  }

  /** What the loop appends for item `it`: its text, then ", " when
      another item follows. */
  function Piece(items: seq<Value>, it: nat): string
    requires it < |items|
  {
    CastToString(items[it]) + (if it + 1 < |items| then ", " else "")
  }

  /** Appending one piece keeps "what is written, then what is left" equal
      to the whole list. */
  lemma CommasStep(done: string, items: seq<Value>, it: nat)
    requires it < |items|
    requires done + Commas(items[it..]) == Commas(items)
    ensures (done + Piece(items, it)) + Commas(items[it + 1..]) == Commas(items)
  {
    var rest := items[it..];
    CommasHead(rest);
    assert rest[0] == items[it] && rest[1..] == items[it + 1..];
    AppendAssoc(done, Piece(items, it), Commas(items[it + 1..]));
  }

  /** The first item of a non-empty list, its separator, then the rest. */
  lemma CommasHead(rest: seq<Value>)
    requires |rest| > 0
    ensures Commas(rest) == CastToString(rest[0]) + (if |rest| > 1 then ", " else "") + Commas(rest[1..])
  {
    if |rest| == 1 {
      assert Commas(rest[1..]) == "";
    }
  }

  lemma AppendAssoc(a: string, b: string, c: string)
    ensures (a + b) + c == a + (b + c)
  {
  }

  /** The `ChoiceCaster` constructor's loop: open bracket, each item,
      ", " whenever another item follows, close bracket. */
  method RenderChoices(list: seq<Value>) returns (desc: string)
    ensures desc == Render(list)
  {
    desc := "[";
    ghost var done := "";
    var it := 0;
    while it != |list|
      invariant 0 <= it <= |list|
      invariant desc == "[" + done
      invariant done + Commas(list[it..]) == Commas(list)
    {
      CommasStep(done, list, it);
      ghost var piece := Piece(list, it);
      ghost var before := desc;
      desc := desc + CastToString(list[it]);
      it := it + 1;
      if it != |list| {
        desc := desc + ", ";
      }
      assert desc == before + piece;
      AppendAssoc("[", done, piece);
      done := done + piece;
    }
    desc := desc + "]";
  }

  /** `ChoiceCaster::operator()`: cast first, then require membership. */
  function ChoiceCast(name: string, items: seq<Value>, kind: Kind, token: string, fallback: BoolFallback)
    : (r: Result<Value, Error>)
    ensures r.Success? <==> CastFromString(kind, token, fallback).Success? && CastFromString(kind, token, fallback).value in items
    ensures r.Success? ==> r.value == CastFromString(kind, token, fallback).value
    ensures CastFromString(kind, token, fallback).Failure? ==> r == CastFromString(kind, token, fallback)
    ensures CastFromString(kind, token, fallback).Success? && r.Failure? ==>
              r.error == ChoiceViolation(name, Render(items), token)
  {
    var v :- CastFromString(kind, token, fallback);
    if v !in items then Failure(ChoiceViolation(name, Render(items), token)) else Success(v)
  }

  /** The choice-violation message names the argument, lists the choices
      and repeats the offending token. */
  lemma ChoiceMessageMentions(name: string, items: seq<Value>, token: string)
    ensures var m := Message(ChoiceViolation(name, Render(items), token));
            && Text.OccursAt(m, name, 10)
            && Text.OccursAt(m, Render(items), 10 + |name| + 14)
            && Text.OccursAt(m, token, 10 + |name| + 14 + |Render(items)| + 6)
  {
    FieldsAt("Argument: ", name, " should be in ", Render(items), ", got ", token, " indeed");
  }

  /** Where the fields of `a + b + (c + d + e + f + g)` sit. */
  lemma FieldsAt(a: string, b: string, c: string, d: string, e: string, f: string, g: string)
    ensures var m := a + b + (c + d + e + f + g);
            && Text.OccursAt(m, b, |a|)
            && Text.OccursAt(m, d, |a| + |b| + |c|)
            && Text.OccursAt(m, f, |a| + |b| + |c| + |d| + |e|)
  {
    var m := a + b + (c + d + e + f + g);
    var k := |a| + |b| + |c|;
    assert m[|a|..|a| + |b|] == b;
    assert m[k..k + |d|] == d;
    assert m[k + |d| + |e|..k + |d| + |e| + |f|] == f;
  }

}
