/** One registered argument (`BasicArgument<T>` and `ChoiceArgument<T>` of
    cmdline.h): immutable declaration data plus the parse-time state
    `setted_` and `actualValue_`. */
module Argument {
  import opened Wrappers
  import opened Values
  import opened Errors
  import opened Cast

  /** The caster `Read` goes through: the plain `StringCaster` of a
      `BasicArgument`, or the `ChoiceCaster` of a `ChoiceArgument` with its
      declared list in declaration order. */
  datatype Caster = Plain | Choice(items: seq<Value>)

  datatype Arg = Arg(
    fullName: string,
    shortName: string,
    description: string,
    required: bool,
    caster: Caster,
    defaultValue: Value,
    hasDefault: bool,
    actualValue: Value,
    setted: bool)
  {
    /** The declared type `T`. */
    function Kind(): Kind
    {
      defaultValue.Kind()
    }
  }

  /** Set by a token, or carrying a default. */
  predicate Ready(a: Arg)
  {
    a.setted || a.hasDefault
  }

  /** What the C++ type system guarantees of an argument, plus the choice
      invariant: a set choice argument holds one of its declared values. */
  predicate WellTyped(a: Arg)
  {
    && a.actualValue.Kind() == a.Kind()
    && (a.caster.Choice? ==> forall v :: v in a.caster.items ==> v.Kind() == a.Kind())
    && (a.caster.Choice? && a.setted ==> a.actualValue in a.caster.items)
  }

  /** The `BasicArgument` constructor (and the `ChoiceArgument` one when the
      list is non-empty): a string default counts when non-empty, any other
      default when it is truthy; only a counted default is copied into the
      actual value. No token has been read yet, so the argument starts
      unset. */
  function NewArg(
    fullName: string, shortName: string, description: string, required: bool,
    defaultValue: Value, choices: seq<Value>): (a: Arg)
    ensures a.hasDefault <==> defaultValue != Zero(defaultValue.Kind())
    ensures a.actualValue == defaultValue
    ensures !a.setted
    ensures !Ready(a) <==> defaultValue == Zero(defaultValue.Kind())
    ensures a.Kind() == defaultValue.Kind()
    ensures a.fullName == fullName && a.shortName == shortName
    ensures a.description == description && a.required == required
    ensures a.caster == if |choices| == 0 then Plain else Choice(choices)
    ensures (forall v :: v in choices ==> v.Kind() == defaultValue.Kind()) ==> WellTyped(a)
  {
    var hasDefault := match defaultValue
      case StrV(s) => |s| > 0
      case IntV(i) => i != 0
      case BoolV(b) => b;
    Arg(fullName, shortName, description, required,
        if |choices| == 0 then Plain else Choice(choices),
        defaultValue, hasDefault,
        if hasDefault then defaultValue else Zero(defaultValue.Kind()),
        false)
  }

  /** `IsGood`: true when set or defaulted, and otherwise a thrown error
      naming the argument; it never answers false, and `required` plays
      no part. */
  function IsGood(a: Arg): (r: Result<bool, Error>)
    ensures r.Success? <==> Ready(a)
    ensures r.Success? ==> r.value
    ensures r.Failure? ==> r.error == MissingDefault(a.fullName)
  {
    if a.setted || a.hasDefault || (!a.required && a.hasDefault) then Success(true)
    else Failure(MissingDefault(a.fullName))
  }

  /** Whether an argument is required does not change what `IsGood` says. */
  lemma IsGoodIgnoresRequired(a: Arg)
    ensures IsGood(a) == IsGood(a.(required := true)) == IsGood(a.(required := false))
  {
  }

  /** `Read`: convert through the argument's caster, then store the value
      and mark the argument set. A failed conversion changes nothing. */
  function Read(a: Arg, token: string, fallback: BoolFallback): (r: Result<Arg, Error>)
    ensures r.Success? ==> r.value == a.(actualValue := r.value.actualValue, setted := true)
    ensures r.Success? ==> CastFromString(a.Kind(), token, fallback) == Success(r.value.actualValue)
    ensures r.Success? && a.caster.Choice? ==> r.value.actualValue in a.caster.items
    ensures a.caster.Plain? ==> (r.Success? <==> CastFromString(a.Kind(), token, fallback).Success?)
    ensures a.caster.Choice? ==>
              (r.Success? <==> CastFromString(a.Kind(), token, fallback).Success?
                               && CastFromString(a.Kind(), token, fallback).value in a.caster.items)
    ensures r.Failure? ==>
              r.error == BadCast(token, a.Kind())
              || (a.caster.Choice? && r.error == ChoiceViolation(a.fullName, Render(a.caster.items), token))
    ensures CastFromString(a.Kind(), token, fallback).Failure? ==> r == Failure(BadCast(token, a.Kind()))
    ensures a.caster.Choice? && CastFromString(a.Kind(), token, fallback).Success?
            && CastFromString(a.Kind(), token, fallback).value !in a.caster.items ==>
              r == Failure(ChoiceViolation(a.fullName, Render(a.caster.items), token))
    ensures WellTyped(a) && r.Success? ==> WellTyped(r.value)
  {
    var v :- match a.caster
      case Plain => CastFromString(a.Kind(), token, fallback)
      case Choice(items) => ChoiceCast(a.fullName, items, a.Kind(), token, fallback);
    Success(a.(actualValue := v, setted := true))
  }

  /** A value read from its own printed form is stored unchanged. */
  lemma ReadPrinted(a: Arg, v: Value, fallback: BoolFallback)
    requires v.Kind() == a.Kind()
    requires a.caster.Choice? ==> v in a.caster.items
    ensures Read(a, CastToString(v), fallback) == Success(a.(actualValue := v, setted := true))
  {
    CastRoundTrip(v, fallback);
  }
}
