/** The registry and parser of cmdline.h (`class Parser`): registration
    with uniqueness checks, the token loop of `Parse`, the completeness
    pass, and typed retrieval. */
module Parser {
  import opened Wrappers
  import opened Values
  import opened Errors
  import opened Cast
  import opened Argument
  import opened Text

  /** `fullArguments` (full name to argument) and `shortToFull`. */
  datatype Registry = Registry(args: map<string, Arg>, shortToFull: map<string, string>)

  /** A freshly constructed `Parser`. */
  const Empty: Registry := Registry(map[], map[])

  /** What registration maintains: every argument is filed under its own
      full name, every short-name entry is non-empty and points at the
      argument carrying that short name, and every non-empty short name is
      entered. */
  predicate Valid(reg: Registry)
  {
    && (forall k :: k in reg.args ==> reg.args[k].fullName == k && WellTyped(reg.args[k]))
    && (forall s :: s in reg.shortToFull ==>
          |s| > 0 && reg.shortToFull[s] in reg.args && reg.args[reg.shortToFull[s]].shortName == s)
    && (forall k :: k in reg.args && |reg.args[k].shortName| > 0 ==>
          reg.args[k].shortName in reg.shortToFull && reg.shortToFull[reg.args[k].shortName] == k)
  }

  /** All arguments are set or defaulted. */
  predicate AllReady(reg: Registry)
  {
    forall k :: k in reg.args ==> Ready(reg.args[k])
  }

  /** The errors a single token can raise. */
  predicate TokenError(e: Error)
  {
    e.Malformed? || e.UnknownArgument? || e.AlreadySet? || e.BadCast? || e.ChoiceViolation?
  }

  /** The parser's state when `Parse` returns or throws, with what it threw. */
  datatype Step = Step(reg: Registry, thrown: Option<Error>)

  /** `CheckExist`: the full name must be new, and so must a non-empty
      short name. */
  function CheckExist(reg: Registry, fullName: string, shortName: string): (r: Option<Error>)
    ensures r.None? <==> fullName !in reg.args && (|shortName| == 0 || shortName !in reg.shortToFull)
    ensures fullName in reg.args ==> r == Some(MultipleDefinition(fullName))
    ensures fullName !in reg.args && r.Some? ==> r == Some(MultipleDefinition(shortName))
  {
    if fullName in reg.args then Some(MultipleDefinition(fullName))
    else if |shortName| > 0 && shortName in reg.shortToFull then Some(MultipleDefinition(shortName))
    else None
  }

  /** `AddArgument`: file the argument, and enter a non-empty short name.
      Both are `unordered_map::insert`, which would keep an entry already
      present; `Add` calls it only after `CheckExist` has found both names
      new, so the model asks the same of its callers. */
  function AddArgument(reg: Registry, fullName: string, shortName: string, a: Arg): (r: Registry)
    requires fullName !in reg.args && (|shortName| == 0 || shortName !in reg.shortToFull)
    ensures r.args.Keys == reg.args.Keys + {fullName} && r.args[fullName] == a
    ensures forall k :: k in reg.args && k != fullName ==> r.args[k] == reg.args[k]
    ensures |shortName| == 0 ==> r.shortToFull == reg.shortToFull
    ensures |shortName| > 0 ==>
              r.shortToFull.Keys == reg.shortToFull.Keys + {shortName}
              && r.shortToFull[shortName] == fullName
              && forall s :: s in reg.shortToFull && s != shortName ==> r.shortToFull[s] == reg.shortToFull[s]
  {
    Registry(reg.args[fullName := a],
             if |shortName| > 0 then reg.shortToFull[shortName := fullName] else reg.shortToFull)
  }

  /** `Parser::Add<T>`. The default's kind is `T`; the choice list is an
      `initializer_list<T>`, so its items share that kind. */
  function Add(
    reg: Registry, fullName: string, shortName: string, description: string,
    required: bool, defaultValue: Value, choices: seq<Value>): (r: Result<Registry, Error>)
    requires forall v :: v in choices ==> v.Kind() == defaultValue.Kind()
    ensures r.Failure? <==> fullName in reg.args || (|shortName| > 0 && shortName in reg.shortToFull)
    ensures fullName in reg.args ==> r == Failure(MultipleDefinition(fullName))
    ensures fullName !in reg.args && r.Failure? ==> r.error == MultipleDefinition(shortName)
    ensures r.Success? ==> r.value.args.Keys == reg.args.Keys + {fullName}
    ensures r.Success? ==>
              r.value.args[fullName] == NewArg(fullName, shortName, description, required, defaultValue, choices)
    ensures r.Success? ==> forall k :: k in reg.args ==> r.value.args[k] == reg.args[k]
    ensures r.Success? && |shortName| == 0 ==> r.value.shortToFull == reg.shortToFull
    ensures r.Success? && |shortName| > 0 ==>
              r.value.shortToFull.Keys == reg.shortToFull.Keys + {shortName}
              && r.value.shortToFull[shortName] == fullName
              && forall s :: s in reg.shortToFull ==> r.value.shortToFull[s] == reg.shortToFull[s]
    ensures Valid(reg) && r.Success? ==> Valid(r.value)
  {
    match CheckExist(reg, fullName, shortName)
    case Some(e) => Failure(e)
    case None =>
      var a := NewArg(fullName, shortName, description, required, defaultValue, choices);
      Success(AddArgument(reg, fullName, shortName, a))
  }

  /** A second registration of a full name fails, whatever its type. */
  lemma AddFullNameTwice(
    reg: Registry, fullName: string, shortName: string, description: string, required: bool,
    defaultValue: Value, choices: seq<Value>,
    shortName2: string, description2: string, required2: bool, defaultValue2: Value, choices2: seq<Value>)
    requires forall v :: v in choices ==> v.Kind() == defaultValue.Kind()
    requires forall v :: v in choices2 ==> v.Kind() == defaultValue2.Kind()
    requires Add(reg, fullName, shortName, description, required, defaultValue, choices).Success?
    ensures var reg' := Add(reg, fullName, shortName, description, required, defaultValue, choices).value;
            Add(reg', fullName, shortName2, description2, required2, defaultValue2, choices2)
              == Failure(MultipleDefinition(fullName))
  {
  }

  /** A second registration of a non-empty short name fails, whatever the
      full name and type. */
  lemma AddShortNameTwice(
    reg: Registry, fullName: string, shortName: string, description: string, required: bool,
    defaultValue: Value, choices: seq<Value>,
    fullName2: string, description2: string, required2: bool, defaultValue2: Value, choices2: seq<Value>)
    requires forall v :: v in choices ==> v.Kind() == defaultValue.Kind()
    requires forall v :: v in choices2 ==> v.Kind() == defaultValue2.Kind()
    requires |shortName| > 0
    requires Add(reg, fullName, shortName, description, required, defaultValue, choices).Success?
    ensures var reg' := Add(reg, fullName, shortName, description, required, defaultValue, choices).value;
            Add(reg', fullName2, shortName, description2, required2, defaultValue2, choices2).Failure?
  {
  }

  /** How a name is dispatched: by whether it contains `--`, else `-`,
      anywhere in it (`find != npos`, not a prefix test). */
  datatype NameForm = LongForm | ShortForm | NoDash

  function Form(name: string): (f: NameForm)
    ensures f == LongForm <==> exists k: nat :: OccursAt(name, "--", k)
    ensures f == NoDash <==> '-' !in name
  {
    ContainsIffOccurs(name, "--");
    FindChar(name, '-', 0);
    assert name[0..] == name;
    if Contains(name, "--") then LongForm
    else if Contains(name, "-") then ShortForm
    else NoDash
  }

  /** The resolution step of `Parse` for one token: the full name it
      designates and the value text it carries. */
  function ResolveToken(shortToFull: map<string, string>, token: string): (r: Result<(string, string), Error>)
    ensures Separator !in token ==> r == Failure(Malformed(token))
    ensures r.Success? ==> Form(r.value.0) == LongForm || r.value.0 in shortToFull.Values
  {
    FindChar(token, Separator, 0);
    if !Contains(token, [Separator]) then Failure(Malformed(token))
    else
      SplitFields(token);
      var pieces := StringSplit(token);
      var name := pieces[0];
      var value := pieces[1];
      match Form(name)
      case LongForm => Success((name, value))
      case ShortForm =>
        if name in shortToFull then Success((shortToFull[name], value))
        else Failure(UnknownArgument(name))
      case NoDash => Failure(Malformed(token))
  }

  /** Token dispatch stated without `StringSplit`: `name` is the text before
      the first `=` and `value` the text between it and the next `=` (or the
      end of the token). */
  lemma ResolveTokenFields(shortToFull: map<string, string>, token: string, name: string, value: string)
    requires |name| < |token| && LeadingField(token, name)
    requires LeadingField(token[|name| + 1..], value)
    ensures Form(name) == LongForm ==> ResolveToken(shortToFull, token) == Success((name, value))
    ensures Form(name) == ShortForm && name in shortToFull ==>
              ResolveToken(shortToFull, token) == Success((shortToFull[name], value))
    ensures Form(name) == ShortForm && name !in shortToFull ==>
              ResolveToken(shortToFull, token) == Failure(UnknownArgument(name))
    ensures Form(name) == NoDash ==> ResolveToken(shortToFull, token) == Failure(Malformed(token))
  {
    assert token[|name|] == Separator;
    FindChar(token, Separator, 0);
    SplitFields(token);
    var pieces := StringSplit(token);
    LeadingFieldUnique(token, name, pieces[0]);
    LeadingFieldUnique(token[|name| + 1..], value, pieces[1]);
  }

  /** `ReadWithFullName`: the argument must exist and must not be set yet;
      then it reads the value, and nothing else changes. */
  function ReadWithFullName(reg: Registry, fullName: string, value: string, fallback: BoolFallback)
    : (r: Result<Registry, Error>)
    ensures fullName !in reg.args ==> r == Failure(UnknownArgument(fullName))
    ensures fullName in reg.args && reg.args[fullName].setted ==> r == Failure(AlreadySet(fullName))
    ensures fullName in reg.args && !reg.args[fullName].setted ==>
              match Read(reg.args[fullName], value, fallback)
              case Success(a) => r == Success(reg.(args := reg.args[fullName := a]))
              case Failure(e) => r == Failure(e)
    ensures r.Success? ==> r.value.shortToFull == reg.shortToFull && r.value.args.Keys == reg.args.Keys
    ensures Valid(reg) && r.Success? ==> Valid(r.value)
  {
    if fullName !in reg.args then Failure(UnknownArgument(fullName))
    else if reg.args[fullName].setted then Failure(AlreadySet(fullName))
    else
      var a :- Read(reg.args[fullName], value, fallback);
      Success(reg.(args := reg.args[fullName := a]))
  }

  /** A read into an unset argument that succeeds is filed under its
      full name. */
  lemma ReadWithFullNameStores(reg: Registry, fullName: string, value: string, fallback: BoolFallback, a: Arg)
    requires fullName in reg.args && !reg.args[fullName].setted
    requires Read(reg.args[fullName], value, fallback) == Success(a)
    ensures ReadWithFullName(reg, fullName, value, fallback) == Success(reg.(args := reg.args[fullName := a]))
  {
  }

  /** The body of the token loop of `Parse`. */
  function ApplyToken(reg: Registry, token: string, fallback: BoolFallback): (r: Result<Registry, Error>)
    ensures r.Failure? ==> TokenError(r.error)
    ensures r.Success? ==> r.value.shortToFull == reg.shortToFull && r.value.args.Keys == reg.args.Keys
    ensures r.Success? ==>
              && ResolveToken(reg.shortToFull, token).Success?
              && var (f, v) := ResolveToken(reg.shortToFull, token).value;
              && f in reg.args && !reg.args[f].setted
              && Read(reg.args[f], v, fallback).Success?
              && r.value.args == reg.args[f := Read(reg.args[f], v, fallback).value]
    ensures ResolveToken(reg.shortToFull, token).Failure? ==>
              r == Failure(ResolveToken(reg.shortToFull, token).error)
    ensures Valid(reg) && r.Success? ==> Valid(r.value)
  {
    var (fullName, value) :- ResolveToken(reg.shortToFull, token);
    ReadWithFullName(reg, fullName, value, fallback)
  }

  /** A token that resolves is read into the argument it names. */
  lemma ApplyResolved(reg: Registry, token: string, fullName: string, value: string, fallback: BoolFallback)
    requires ResolveToken(reg.shortToFull, token) == Success((fullName, value))
    ensures ApplyToken(reg, token, fallback) == ReadWithFullName(reg, fullName, value, fallback)
  {
  }

  /** The full name a token designates, when it resolves. */
  function Target(shortToFull: map<string, string>, token: string): Option<string>
  {
    match ResolveToken(shortToFull, token)
    case Success((f, _)) => Some(f)
    case Failure(_) => None
  }

  /** Between two states of the parser: the name maps and the set of
      arguments are the same, and each argument either kept its state or
      went from unset to set. */
  predicate Advances(before: Registry, after: Registry)
  {
    && after.shortToFull == before.shortToFull
    && after.args.Keys == before.args.Keys
    && forall k :: k in before.args ==>
         after.args[k] == before.args[k] || (!before.args[k].setted && after.args[k].setted)
  }

  lemma AdvancesTransitive(a: Registry, b: Registry, c: Registry)
    requires Advances(a, b) && Advances(b, c)
    ensures Advances(a, c)
  {
  }

  /** The token loop of `Parse`, left to right, stopping at the first
      error with the state reached so far. */
  function ParseTokens(reg: Registry, tokens: seq<string>, fallback: BoolFallback): (r: Step)
    ensures Advances(reg, r.reg)
    ensures Valid(reg) ==> Valid(r.reg)
    ensures |tokens| == 0 ==> r == Step(reg, None)
    ensures r.thrown.Some? ==> TokenError(r.thrown.value)
    decreases |tokens|
  {
    if |tokens| == 0 then Step(reg, None)
    else
      match ApplyToken(reg, tokens[0], fallback)
      case Failure(e) => Step(reg, Some(e))
      case Success(reg') =>
        var r := ParseTokens(reg', tokens[1..], fallback);
        AdvancesTransitive(reg, reg', r.reg);
        r
  }

  /** Token `i` resolved to an argument that was unset before the loop,
      its value was read, and the loop left that argument as the read made it. */
  predicate TokenApplied(reg: Registry, token: string, fallback: BoolFallback, out: Registry)
  {
    && ResolveToken(reg.shortToFull, token).Success?
    && var (f, v) := ResolveToken(reg.shortToFull, token).value;
    && f in reg.args && !reg.args[f].setted
    && Read(reg.args[f], v, fallback).Success?
    && f in out.args
    && out.args[f] == Read(reg.args[f], v, fallback).value
  }

  /** A loop that threw nothing applied every token, each to a different
      argument. */
  lemma {:induction false} ParseTokensApplied(reg: Registry, tokens: seq<string>, fallback: BoolFallback)
    requires ParseTokens(reg, tokens, fallback).thrown.None?
    ensures forall i :: 0 <= i < |tokens| ==>
              TokenApplied(reg, tokens[i], fallback, ParseTokens(reg, tokens, fallback).reg)
    ensures forall i, j :: 0 <= i < j < |tokens| ==>
              Target(reg.shortToFull, tokens[i]) != Target(reg.shortToFull, tokens[j])
    decreases |tokens|
  {
    if |tokens| > 0 {
      var reg' := ApplyToken(reg, tokens[0], fallback).value;
      ParseTokensCons(reg, tokens, fallback);
      ParseTokensApplied(reg', tokens[1..], fallback);
      AppliedFromRest(reg, reg', tokens, fallback, ParseTokens(reg', tokens[1..], fallback).reg);
    }
  }

  /** The inductive step of `ParseTokensApplied`: what holds of the tokens
      after the first, from the state the first one left, holds of all the
      tokens from the state before it. */
  lemma AppliedFromRest(reg: Registry, reg': Registry, tokens: seq<string>, fallback: BoolFallback, out: Registry)
    requires |tokens| > 0 && ApplyToken(reg, tokens[0], fallback) == Success(reg')
    requires Advances(reg', out)
    requires forall i :: 0 <= i < |tokens[1..]| ==> TokenApplied(reg', tokens[1..][i], fallback, out)
    requires forall i, j :: 0 <= i < j < |tokens[1..]| ==>
               Target(reg'.shortToFull, tokens[1..][i]) != Target(reg'.shortToFull, tokens[1..][j])
    ensures forall i :: 0 <= i < |tokens| ==> TokenApplied(reg, tokens[i], fallback, out)
    ensures forall i, j :: 0 <= i < j < |tokens| ==>
              Target(reg.shortToFull, tokens[i]) != Target(reg.shortToFull, tokens[j])
  {
    var rest := tokens[1..];
    FirstTokenApplied(reg, tokens[0], fallback, reg', out);
    forall i | 0 < i < |tokens|
      ensures TokenApplied(reg, tokens[i], fallback, out)
      ensures Target(reg.shortToFull, tokens[0]) != Target(reg.shortToFull, tokens[i])
    {
      assert tokens[i] == rest[i - 1];
      LaterTokenApplied(reg, reg', tokens[0], tokens[i], fallback, out);
    }
    forall i, j | 0 < i < j < |tokens|
      ensures Target(reg.shortToFull, tokens[i]) != Target(reg.shortToFull, tokens[j])
    {
      assert tokens[i] == rest[i - 1];
      assert tokens[j] == rest[j - 1];
    }
  }

  /** An argument that no token names leaves the loop as it entered it,
      whether or not the loop threw: a default it had still counts. */
  lemma {:induction false} ParseTokensUntouched(reg: Registry, tokens: seq<string>, fallback: BoolFallback, k: string)
    requires k in reg.args
    requires forall i :: 0 <= i < |tokens| ==> Target(reg.shortToFull, tokens[i]) != Some(k)
    ensures k in ParseTokens(reg, tokens, fallback).reg.args
    ensures ParseTokens(reg, tokens, fallback).reg.args[k] == reg.args[k]
    decreases |tokens|
  {
    if |tokens| > 0 {
      ParseTokensCons(reg, tokens, fallback);
      if ApplyToken(reg, tokens[0], fallback).Success? {
        var reg' := ApplyToken(reg, tokens[0], fallback).value;
        assert reg'.args[k] == reg.args[k];
        forall i | 0 <= i < |tokens[1..]|
          ensures Target(reg'.shortToFull, tokens[1..][i]) != Some(k)
        {
          assert tokens[1..][i] == tokens[i + 1];
        }
        ParseTokensUntouched(reg', tokens[1..], fallback, k);
      }
    }
  }

  /** One round of the token loop. */
  lemma ParseTokensCons(reg: Registry, tokens: seq<string>, fallback: BoolFallback)
    requires |tokens| > 0
    ensures ApplyToken(reg, tokens[0], fallback).Failure? ==>
              ParseTokens(reg, tokens, fallback) == Step(reg, Some(ApplyToken(reg, tokens[0], fallback).error))
    ensures ApplyToken(reg, tokens[0], fallback).Success? ==>
              ParseTokens(reg, tokens, fallback)
                == ParseTokens(ApplyToken(reg, tokens[0], fallback).value, tokens[1..], fallback)
  {
  }

  /** The first token of a successful loop is applied and stays applied. */
  lemma FirstTokenApplied(reg: Registry, token: string, fallback: BoolFallback, reg': Registry, out: Registry)
    requires ApplyToken(reg, token, fallback) == Success(reg')
    requires Advances(reg', out)
    ensures TokenApplied(reg, token, fallback, out)
  {
    var f := Target(reg.shortToFull, token).value;
    assert reg'.args[f].setted;
  }

  /** A later token of a successful loop targets an argument the first
      token did not, and its application carries back to the start. */
  lemma LaterTokenApplied(reg: Registry, reg': Registry, first: string, token: string, fallback: BoolFallback, out: Registry)
    requires ApplyToken(reg, first, fallback) == Success(reg')
    requires TokenApplied(reg', token, fallback, out)
    ensures TokenApplied(reg, token, fallback, out)
    ensures Target(reg.shortToFull, first) != Target(reg.shortToFull, token)
  {
    var f0 := Target(reg.shortToFull, first).value;
    assert reg'.args[f0].setted;
    var f := Target(reg'.shortToFull, token).value;
    assert reg'.args[f] == reg.args[f];
  }

  /** The completeness pass of `Parse`: `IsGood` on every argument, in an
      order the model leaves open; the first argument that is not good
      decides the error. */
  ghost function CheckAll(reg: Registry): (r: Option<Error>)
    ensures r.None? <==> AllReady(reg)
    ensures r.Some? ==> exists k :: k in reg.args && !Ready(reg.args[k]) && r.value == MissingDefault(reg.args[k].fullName)
  {
    if k :| k in reg.args && IsGood(reg.args[k]) != Success(true) then
      match IsGood(reg.args[k])
      case Failure(e) => Some(e)
      case Success(_) => Some(RequiredNotSet(k))
    else None
  }

  /** With exactly one argument neither set nor defaulted, the order of
      the pass does not matter: that argument is the one reported. */
  lemma CheckAllSingleMissing(reg: Registry, k: string)
    requires k in reg.args && !Ready(reg.args[k])
    requires forall j :: j in reg.args && j != k ==> Ready(reg.args[j])
    ensures CheckAll(reg) == Some(MissingDefault(reg.args[k].fullName))
  {
  }

  /** `Parser::Parse` on the tokens after the program name. */
  ghost function Parse(reg: Registry, tokens: seq<string>, fallback: BoolFallback): (r: Step)
    ensures |tokens| == 0 ==> r == Step(reg, Some(UsageExit))
    ensures r.thrown.None? ==> AllReady(r.reg)
    ensures r.thrown.None? <==>
              |tokens| > 0 && ParseTokens(reg, tokens, fallback).thrown.None?
              && AllReady(ParseTokens(reg, tokens, fallback).reg)
    ensures |tokens| > 0 && ParseTokens(reg, tokens, fallback).thrown.None? && r.thrown.Some? ==>
              exists k :: k in r.reg.args && !Ready(r.reg.args[k])
                          && r.thrown == Some(MissingDefault(r.reg.args[k].fullName))
    ensures |tokens| > 0 ==> r.reg == ParseTokens(reg, tokens, fallback).reg
    ensures |tokens| > 0 && ParseTokens(reg, tokens, fallback).thrown.Some? ==>
              r == ParseTokens(reg, tokens, fallback)
    ensures r.thrown.Some? ==> !r.thrown.value.RequiredNotSet?
    ensures Valid(reg) ==> Valid(r.reg)
  {
    if |tokens| == 0 then Step(reg, Some(UsageExit))
    else
      var s := ParseTokens(reg, tokens, fallback);
      if s.thrown.Some? then s else Step(s.reg, CheckAll(s.reg))
  }

  /** A loop that threw nothing, followed by a pass that finds every
      argument ready. */
  lemma ParseCompletes(reg: Registry, tokens: seq<string>, fallback: BoolFallback, out: Registry)
    requires |tokens| > 0 && ParseTokens(reg, tokens, fallback) == Step(out, None)
    requires AllReady(out)
    ensures Parse(reg, tokens, fallback) == Step(out, None)
  {
  }

  /** Defaults fill the gaps: a loop that threw nothing completes the parse
      when every argument that is neither set nor defaulted is named by
      some token. */
  lemma ParseWithDefaults(reg: Registry, tokens: seq<string>, fallback: BoolFallback)
    requires |tokens| > 0 && ParseTokens(reg, tokens, fallback).thrown.None?
    requires forall k :: k in reg.args && !Ready(reg.args[k]) ==>
               exists i :: 0 <= i < |tokens| && Target(reg.shortToFull, tokens[i]) == Some(k)
    ensures Parse(reg, tokens, fallback) == Step(ParseTokens(reg, tokens, fallback).reg, None)
  {
    var out := ParseTokens(reg, tokens, fallback).reg;
    ParseTokensApplied(reg, tokens, fallback);
    forall k | k in out.args
      ensures Ready(out.args[k])
    {
      if i :| 0 <= i < |tokens| && Target(reg.shortToFull, tokens[i]) == Some(k) {
        assert TokenApplied(reg, tokens[i], fallback, out);
      } else {
        ParseTokensUntouched(reg, tokens, fallback, k);
      }
    }
    ParseCompletes(reg, tokens, fallback, out);
  }

  /** A loop that threw nothing, followed by a pass that finds exactly one
      argument neither set nor defaulted. */
  lemma ParseMissesOne(reg: Registry, tokens: seq<string>, fallback: BoolFallback, out: Registry, k: string)
    requires |tokens| > 0 && ParseTokens(reg, tokens, fallback) == Step(out, None)
    requires k in out.args && !Ready(out.args[k])
    requires forall j :: j in out.args && j != k ==> Ready(out.args[j])
    ensures Parse(reg, tokens, fallback) == Step(out, Some(MissingDefault(out.args[k].fullName)))
  {
    CheckAllSingleMissing(out, k);
  }

  lemma {:induction false} ParseTokensAppend(reg: Registry, a: seq<string>, b: seq<string>, fallback: BoolFallback)
    ensures ParseTokens(reg, a + b, fallback) ==
              var s := ParseTokens(reg, a, fallback);
              if s.thrown.Some? then s else ParseTokens(s.reg, b, fallback)
    decreases |a|
  {
    if |a| > 0 {
      assert (a + b)[0] == a[0];
      assert (a + b)[1..] == a[1..] + b;
      match ApplyToken(reg, a[0], fallback)
      case Failure(_) =>
      case Success(reg') => ParseTokensAppend(reg', a[1..], b, fallback);
    } else {
      assert a + b == b;
    }
  }

  /** A token for an argument that an earlier token already set fails with
      `AlreadySet`, whether either token uses the full or the short name;
      the parse stops there. */
  lemma DuplicateAssignment(reg: Registry, tokens: seq<string>, i: nat, j: nat, fallback: BoolFallback)
    requires i < j < |tokens|
    requires ParseTokens(reg, tokens[..j], fallback).thrown.None?
    requires Target(reg.shortToFull, tokens[j]).Some?
    requires Target(reg.shortToFull, tokens[i]) == Target(reg.shortToFull, tokens[j])
    ensures ParseTokens(reg, tokens, fallback) ==
              Step(ParseTokens(reg, tokens[..j], fallback).reg,
                   Some(AlreadySet(Target(reg.shortToFull, tokens[j]).value)))
  {
    var pre := tokens[..j];
    var post := tokens[j..];
    var s := ParseTokens(reg, pre, fallback);
    assert pre[i] == tokens[i];
    var f := AppliedTokenSet(reg, pre, i, fallback);
    assert s.reg.shortToFull == reg.shortToFull;
    assert post[0] == tokens[j];
    AlreadySetToken(s.reg, post[0], fallback, f);
    ParseTokensCons(s.reg, post, fallback);
    ParseTokensSplit(reg, tokens, j, fallback);
  }

  /** The token loop over a sequence is the loop over a prefix followed,
      if nothing was thrown, by the loop over the rest. */
  lemma ParseTokensSplit(reg: Registry, tokens: seq<string>, j: nat, fallback: BoolFallback)
    requires j <= |tokens|
    ensures ParseTokens(reg, tokens, fallback) ==
              var s := ParseTokens(reg, tokens[..j], fallback);
              if s.thrown.Some? then s else ParseTokens(s.reg, tokens[j..], fallback)
  {
    assert tokens == tokens[..j] + tokens[j..];
    ParseTokensAppend(reg, tokens[..j], tokens[j..], fallback);
  }

  /** After a loop that threw nothing, the argument of each token is set. */
  lemma AppliedTokenSet(reg: Registry, tokens: seq<string>, i: nat, fallback: BoolFallback) returns (f: string)
    requires i < |tokens|
    requires ParseTokens(reg, tokens, fallback).thrown.None?
    ensures Target(reg.shortToFull, tokens[i]) == Some(f)
    ensures f in ParseTokens(reg, tokens, fallback).reg.args
    ensures ParseTokens(reg, tokens, fallback).reg.args[f].setted
  {
    ParseTokensApplied(reg, tokens, fallback);
    assert TokenApplied(reg, tokens[i], fallback, ParseTokens(reg, tokens, fallback).reg);
    f := Target(reg.shortToFull, tokens[i]).value;
  }

  /** A token naming an argument that is already set throws `AlreadySet`. */
  lemma AlreadySetToken(reg: Registry, token: string, fallback: BoolFallback, f: string)
    requires Target(reg.shortToFull, token) == Some(f)
    requires f in reg.args && reg.args[f].setted
    ensures ApplyToken(reg, token, fallback) == Failure(AlreadySet(f))
  {
  }

  /** A failed parse stopped at one token: every earlier token was applied,
      that token threw, and the state is the one the earlier tokens left. */
  lemma {:induction false} StopsAtFirstError(reg: Registry, tokens: seq<string>, fallback: BoolFallback)
    returns (j: nat)
    requires ParseTokens(reg, tokens, fallback).thrown.Some?
    ensures j < |tokens|
    ensures ParseTokens(reg, tokens[..j], fallback).thrown.None?
    ensures ParseTokens(reg, tokens[..j], fallback).reg == ParseTokens(reg, tokens, fallback).reg
    ensures ApplyToken(ParseTokens(reg, tokens[..j], fallback).reg, tokens[j], fallback)
              == Failure(ParseTokens(reg, tokens, fallback).thrown.value)
    decreases |tokens|
  {
    ParseTokensCons(reg, tokens, fallback);
    if ApplyToken(reg, tokens[0], fallback).Failure? {
      j := 0;
      assert tokens[..0] == [];
    } else {
      var reg' := ApplyToken(reg, tokens[0], fallback).value;
      var j' := StopsAtFirstError(reg', tokens[1..], fallback);
      StopsLater(reg, reg', tokens, fallback, j');
      j := j' + 1;
    }
  }

  /** The inductive step of `StopsAtFirstError`: a stop at token `j'` of
      the tail, after a first token that applied, is a stop at `j' + 1`. */
  lemma StopsLater(reg: Registry, reg': Registry, tokens: seq<string>, fallback: BoolFallback, j': nat)
    requires |tokens| > 0 && ApplyToken(reg, tokens[0], fallback) == Success(reg')
    requires j' < |tokens[1..]|
    requires ParseTokens(reg', tokens[1..][..j'], fallback).thrown.None?
    requires ParseTokens(reg', tokens[1..][..j'], fallback).reg == ParseTokens(reg', tokens[1..], fallback).reg
    requires ParseTokens(reg', tokens[1..], fallback).thrown.Some?
    requires ApplyToken(ParseTokens(reg', tokens[1..][..j'], fallback).reg, tokens[1..][j'], fallback)
               == Failure(ParseTokens(reg', tokens[1..], fallback).thrown.value)
    ensures ParseTokens(reg, tokens[..j' + 1], fallback).thrown.None?
    ensures ParseTokens(reg, tokens[..j' + 1], fallback).reg == ParseTokens(reg, tokens, fallback).reg
    ensures ApplyToken(ParseTokens(reg, tokens[..j' + 1], fallback).reg, tokens[j' + 1], fallback)
              == Failure(ParseTokens(reg, tokens, fallback).thrown.value)
  {
    ParseTokensCons(reg, tokens, fallback);
    PrefixCons(reg, tokens, j', fallback);
    assert tokens[1..][j'] == tokens[j' + 1];
  }

  /** The loop over a non-empty prefix starts with the first token. */
  lemma PrefixCons(reg: Registry, tokens: seq<string>, n: nat, fallback: BoolFallback)
    requires n < |tokens|
    requires ApplyToken(reg, tokens[0], fallback).Success?
    ensures ParseTokens(reg, tokens[..n + 1], fallback)
              == ParseTokens(ApplyToken(reg, tokens[0], fallback).value, tokens[1..][..n], fallback)
  {
    var prefix := tokens[..n + 1];
    assert prefix[0] == tokens[0] && prefix[1..] == tokens[1..][..n];
    ConsOf(reg, prefix, tokens[0], tokens[1..][..n], fallback);
  }

  /** The loop over a list with a given first token and tail, when that
      token applies. */
  lemma ConsOf(reg: Registry, tokens: seq<string>, head: string, tail: seq<string>, fallback: BoolFallback)
    requires |tokens| > 0 && tokens[0] == head && tokens[1..] == tail
    requires ApplyToken(reg, head, fallback).Success?
    ensures ParseTokens(reg, tokens, fallback) == ParseTokens(ApplyToken(reg, head, fallback).value, tail, fallback)
  {
    ParseTokensCons(reg, tokens, fallback);
  }

  /** `GetWithFullName<T>`, with the downcast replaced by a kind check. */
  function GetWithFullName(reg: Registry, fullName: string, kind: Kind): (r: Result<Value, Error>)
    ensures fullName !in reg.args ==> r == Failure(UnknownArgument(fullName))
    ensures r.Success? ==> fullName in reg.args && r.value == reg.args[fullName].actualValue
    ensures fullName in reg.args ==> (r.Success? <==> reg.args[fullName].Kind() == kind)
    ensures Valid(reg) && r.Success? ==> r.value.Kind() == kind
  {
    if fullName !in reg.args then Failure(UnknownArgument(fullName))
    else if reg.args[fullName].Kind() != kind then
      Failure(TypeMismatch(fullName, kind, reg.args[fullName].Kind()))
    else Success(reg.args[fullName].actualValue)
  }

  /** `Parser::Get<T>`: names resolve as in `Parse`, except that a name
      without any dash is reported as unknown. */
  function Get(reg: Registry, name: string, kind: Kind): (r: Result<Value, Error>)
    ensures Form(name) == NoDash ==> r == Failure(UnknownArgument(name))
    ensures Form(name) == ShortForm && name !in reg.shortToFull ==> r == Failure(UnknownArgument(name))
    ensures Form(name) == LongForm ==> r == GetWithFullName(reg, name, kind)
    ensures Form(name) == ShortForm && name in reg.shortToFull ==>
              r == GetWithFullName(reg, reg.shortToFull[name], kind)
    ensures Valid(reg) && r.Success? ==> r.value.Kind() == kind
  {
    match Form(name)
    case LongForm => GetWithFullName(reg, name, kind)
    case ShortForm =>
      if name in reg.shortToFull then GetWithFullName(reg, reg.shortToFull[name], kind)
      else Failure(UnknownArgument(name))
    case NoDash => Failure(UnknownArgument(name))
  }

  /** An argument's short name retrieves what its full name retrieves. */
  lemma GetShortAsFull(reg: Registry, fullName: string, kind: Kind)
    requires Valid(reg) && fullName in reg.args
    requires Form(fullName) == LongForm
    requires Form(reg.args[fullName].shortName) == ShortForm
    ensures Get(reg, reg.args[fullName].shortName, kind) == Get(reg, fullName, kind)
  {
  }

  /** After a successful parse, every token's argument holds the value its
      token carried, converted to the argument's type. */
  lemma ParseThenGet(reg: Registry, tokens: seq<string>, fallback: BoolFallback, i: nat)
    requires Parse(reg, tokens, fallback).thrown.None?
    requires i < |tokens|
    ensures ResolveToken(reg.shortToFull, tokens[i]).Success?
    ensures var (f, v) := ResolveToken(reg.shortToFull, tokens[i]).value;
            && f in reg.args
            && GetWithFullName(Parse(reg, tokens, fallback).reg, f, reg.args[f].Kind())
                 == CastFromString(reg.args[f].Kind(), v, fallback)
            && (Form(f) == LongForm ==>
                  Get(Parse(reg, tokens, fallback).reg, f, reg.args[f].Kind())
                    == CastFromString(reg.args[f].Kind(), v, fallback))
  {
    ParseTokensApplied(reg, tokens, fallback);
    var out := ParseTokens(reg, tokens, fallback).reg;
    assert Parse(reg, tokens, fallback).reg == out;
    assert TokenApplied(reg, tokens[i], fallback, out);
  }
}
