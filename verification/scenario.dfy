/** The demonstration program test.cpp as concrete facts about the model:
    its string, int and bool registrations (the float one is not modelled)
    and what `Parse` and `Get` make of a few invocations. */
module Scenario {
  import opened Wrappers
  import opened Values
  import opened Errors
  import opened Cast
  import opened Argument
  import opened Parser
  import opened Text

  const StringArg: Arg := NewArg("--stringArg", "-s", "this is a string argument", true, StrV(""), [])
  const IntArg: Arg := NewArg("--intArg", "-i", "this is a int argument with default value 1", true, IntV(1), [])
  const BoolArg: Arg := NewArg("--boolArg", "", "this is a bool argument with default value true", false, BoolV(true), [])

  const Reg1: Registry := Registry(map["--stringArg" := StringArg], map["-s" := "--stringArg"])
  const Reg2: Registry :=
    Registry(map["--stringArg" := StringArg, "--intArg" := IntArg],
             map["-s" := "--stringArg", "-i" := "--intArg"])
  const Reg3: Registry :=
    Registry(map["--stringArg" := StringArg, "--intArg" := IntArg, "--boolArg" := BoolArg],
             map["-s" := "--stringArg", "-i" := "--intArg"])

  /** The string, int and bool registrations of test.cpp. */
  function Demo(): Result<Registry, Error>
  {
    var r1 :- Add(Empty, "--stringArg", "-s", "this is a string argument", true, StrV(""), []);
    var r2 :- Add(r1, "--intArg", "-i", "this is a int argument with default value 1", true, IntV(1), []);
    Add(r2, "--boolArg", "", "this is a bool argument with default value true", false, BoolV(true), [])
  }

  lemma Step1()
    ensures Add(Empty, "--stringArg", "-s", "this is a string argument", true, StrV(""), []) == Success(Reg1)
  {
  }

  lemma Step2()
    ensures Add(Reg1, "--intArg", "-i", "this is a int argument with default value 1", true, IntV(1), []) == Success(Reg2)
  {
  }

  lemma Step3()
    ensures Add(Reg2, "--boolArg", "", "this is a bool argument with default value true", false, BoolV(true), [])
            == Success(Reg3)
  {
  }

  /** The three registrations succeed and leave a well-formed registry. */
  lemma DemoRegisters()
    ensures Demo() == Success(Reg3) && Valid(Reg3)
  {
    Step1();
    Step2();
    Step3();
    assert Valid(Empty);
    assert Valid(Reg1);
    assert Valid(Reg2);
  }

  /** Only the int and bool arguments start out with a default. */
  lemma DemoDefaults()
    ensures Reg3.args.Keys == {"--stringArg", "--intArg", "--boolArg"}
    ensures !Ready(StringArg) && Ready(IntArg) && Ready(BoolArg)
    ensures IntArg.actualValue == IntV(1) && BoolArg.actualValue == BoolV(true)
  {
  }

  /** A token "name=value" whose name is a long name reads `value` into
      that argument. */
  lemma ApplyLong(reg: Registry, token: string, name: string, value: string, fallback: BoolFallback)
    requires token == name + "=" + value && Separator !in name && Separator !in value
    requires OccursAt(name, "--", 0)
    ensures ApplyToken(reg, token, fallback) == ReadWithFullName(reg, name, value, fallback)
  {
    assert token[..|name|] == name;
    assert token[|name| + 1..] == value;
    ResolveTokenFields(reg.shortToFull, token, name, value);
  }

  /** The same for a registered short name. */
  lemma ApplyShort(reg: Registry, token: string, name: string, value: string, fallback: BoolFallback)
    requires token == name + "=" + value && Separator !in name && Separator !in value
    requires Form(name) == ShortForm && name in reg.shortToFull
    ensures ApplyToken(reg, token, fallback) == ReadWithFullName(reg, reg.shortToFull[name], value, fallback)
  {
    assert token[..|name|] == name;
    assert token[|name| + 1..] == value;
    ResolveTokenFields(reg.shortToFull, token, name, value);
  }

  /** A dash followed by one other character is a short name. */
  lemma OneLetterShort(c: char)
    requires c != '-'
    ensures Form(['-', c]) == ShortForm
  {
    var name := ['-', c];
    assert name[0..2][1] != "--"[1];
    assert forall k: nat :: !OccursAt(name, "--", k);
  }

  /** The states after each token of "--stringArg=a -i=5 --boolArg=false". */
  const Parsed1: Registry :=
    Reg3.(args := Reg3.args["--stringArg" := StringArg.(actualValue := StrV("a"), setted := true)])
  const Parsed2: Registry :=
    Parsed1.(args := Parsed1.args["--intArg" := IntArg.(actualValue := IntV(5), setted := true)])
  const Parsed3: Registry :=
    Parsed2.(args := Parsed2.args["--boolArg" := BoolArg.(actualValue := BoolV(false), setted := true)])

  lemma Token1(fallback: BoolFallback)
    ensures ApplyToken(Reg3, "--stringArg=a", fallback) == Success(Parsed1)
  {
    ApplyLong(Reg3, "--stringArg=a", "--stringArg", "a", fallback);
    assert Read(StringArg, "a", fallback) == Success(StringArg.(actualValue := StrV("a"), setted := true));
    ReadWithFullNameStores(Reg3, "--stringArg", "a", fallback, StringArg.(actualValue := StrV("a"), setted := true));
  }

  lemma ReadFive(fallback: BoolFallback)
    ensures Read(IntArg, "5", fallback) == Success(IntArg.(actualValue := IntV(5), setted := true))
  {
    assert DigitsValue("5") == 5;
  }

  /** "-i=5" in any state of the demonstration registry. */
  lemma ApplyI(reg: Registry, fallback: BoolFallback)
    requires reg.shortToFull == Reg3.shortToFull
    ensures ApplyToken(reg, "-i=5", fallback) == ReadWithFullName(reg, "--intArg", "5", fallback)
  {
    OneLetterShort('i');
    ApplyShort(reg, "-i=5", "-i", "5", fallback);
  }

  lemma Token2(fallback: BoolFallback)
    ensures ApplyToken(Parsed1, "-i=5", fallback) == Success(Parsed2)
  {
    ApplyI(Parsed1, fallback);
    ReadFive(fallback);
    ReadWithFullNameStores(Parsed1, "--intArg", "5", fallback, IntArg.(actualValue := IntV(5), setted := true));
  }

  lemma ReadFalse(fallback: BoolFallback)
    ensures Read(BoolArg, "false", fallback) == Success(BoolArg.(actualValue := BoolV(false), setted := true))
  {
  }

  lemma Token3(fallback: BoolFallback)
    ensures ApplyToken(Parsed2, "--boolArg=false", fallback) == Success(Parsed3)
  {
    ApplyLong(Parsed2, "--boolArg=false", "--boolArg", "false", fallback);
    ReadFalse(fallback);
    ReadWithFullNameStores(Parsed2, "--boolArg", "false", fallback, BoolArg.(actualValue := BoolV(false), setted := true));
  }

  lemma Loop3(fallback: BoolFallback)
    ensures ParseTokens(Parsed2, ["--boolArg=false"], fallback) == Step(Parsed3, None)
  {
    Token3(fallback);
    ParseTokensCons(Parsed2, ["--boolArg=false"], fallback);
  }

  lemma Loop2(fallback: BoolFallback)
    ensures ParseTokens(Parsed1, ["-i=5", "--boolArg=false"], fallback) == Step(Parsed3, None)
  {
    Token2(fallback);
    Loop3(fallback);
    ParseTokensCons(Parsed1, ["-i=5", "--boolArg=false"], fallback);
  }

  /** The token loop applies all three tokens. */
  lemma FullTokens(fallback: BoolFallback)
    ensures ParseTokens(Reg3, ["--stringArg=a", "-i=5", "--boolArg=false"], fallback) == Step(Parsed3, None)
  {
    Token1(fallback);
    Loop2(fallback);
    ParseTokensCons(Reg3, ["--stringArg=a", "-i=5", "--boolArg=false"], fallback);
  }

  /** Retrieval by a name that starts with "--" looks the name up directly. */
  lemma GetLong(reg: Registry, name: string, kind: Kind)
    requires OccursAt(name, "--", 0)
    ensures Get(reg, name, kind) == GetWithFullName(reg, name, kind)
  {
  }

  /** What the three tokens leave behind, retrieved by full and by short
      name. */
  lemma FullString()
    ensures Get(Parsed3, "--stringArg", StrKind) == Success(StrV("a"))
  {
    GetLong(Parsed3, "--stringArg", StrKind);
  }

  lemma FullIntShort()
    ensures Get(Parsed3, "-i", IntKind) == Success(IntV(5))
  {
    OneLetterShort('i');
    assert Parsed3.shortToFull["-i"] == "--intArg";
  }

  lemma FullIntLong()
    ensures Get(Parsed3, "--intArg", IntKind) == Success(IntV(5))
  {
    GetLong(Parsed3, "--intArg", IntKind);
  }

  lemma FullBool()
    ensures Get(Parsed3, "--boolArg", BoolKind) == Success(BoolV(false))
  {
    GetLong(Parsed3, "--boolArg", BoolKind);
  }

  lemma Parsed3Ready()
    ensures AllReady(Parsed3)
  {
    forall k | k in Parsed3.args
      ensures Ready(Parsed3.args[k])
    {
      assert k == "--stringArg" || k == "--intArg" || k == "--boolArg";
    }
  }

  lemma Parsed1Ready()
    ensures AllReady(Parsed1)
  {
    forall k | k in Parsed1.args
      ensures Ready(Parsed1.args[k])
    {
      assert k == "--stringArg" || k == "--intArg" || k == "--boolArg";
    }
  }

  /** Every argument given, by full and by short name: the completeness
      pass finds nothing missing. */
  lemma FullInvocation(fallback: BoolFallback)
    ensures Parse(Reg3, ["--stringArg=a", "-i=5", "--boolArg=false"], fallback) == Step(Parsed3, None)
  {
    FullTokens(fallback);
    Parsed3Ready();
    ParseCompletes(Reg3, ["--stringArg=a", "-i=5", "--boolArg=false"], fallback, Parsed3);
  }

  lemma StringOnlyTokens(fallback: BoolFallback)
    ensures ParseTokens(Reg3, ["--stringArg=a"], fallback) == Step(Parsed1, None)
  {
    Token1(fallback);
    ParseTokensCons(Reg3, ["--stringArg=a"], fallback);
  }

  /** Only the required string argument given: the completeness pass
      accepts the defaults of the other two. */
  lemma DefaultsApply(fallback: BoolFallback)
    ensures Parse(Reg3, ["--stringArg=a"], fallback) == Step(Parsed1, None)
  {
    StringOnlyTokens(fallback);
    Parsed1Ready();
    ParseCompletes(Reg3, ["--stringArg=a"], fallback, Parsed1);
  }

  /** ... and retrieval yields those defaults. */
  lemma DefaultValues()
    ensures Get(Parsed1, "--intArg", IntKind) == Success(IntV(1))
    ensures Get(Parsed1, "--boolArg", BoolKind) == Success(BoolV(true))
  {
    assert OccursAt("--intArg", "--", 0) && OccursAt("--boolArg", "--", 0);
  }

  /** The state after "-i=5" alone. */
  const IntOnly: Registry :=
    Reg3.(args := Reg3.args["--intArg" := IntArg.(actualValue := IntV(5), setted := true)])

  lemma IntOnlyToken(fallback: BoolFallback)
    ensures ApplyToken(Reg3, "-i=5", fallback) == Success(IntOnly)
  {
    ApplyI(Reg3, fallback);
    ReadFive(fallback);
    ReadWithFullNameStores(Reg3, "--intArg", "5", fallback, IntArg.(actualValue := IntV(5), setted := true));
  }

  lemma IntOnlyTokens(fallback: BoolFallback)
    ensures ParseTokens(Reg3, ["-i=5"], fallback) == Step(IntOnly, None)
  {
    IntOnlyToken(fallback);
    ParseTokensCons(Reg3, ["-i=5"], fallback);
  }

  lemma IntOnlyOthersReady()
    ensures "--stringArg" in IntOnly.args && !Ready(IntOnly.args["--stringArg"])
    ensures forall j :: j in IntOnly.args && j != "--stringArg" ==> Ready(IntOnly.args[j])
  {
    forall j | j in IntOnly.args && j != "--stringArg"
      ensures Ready(IntOnly.args[j])
    {
      assert j == "--intArg" || j == "--boolArg";
    }
  }

  /** The string argument, which has no default, left out. */
  lemma MissingString(fallback: BoolFallback)
    ensures Parse(Reg3, ["-i=5"], fallback) == Step(IntOnly, Some(MissingDefault("--stringArg")))
  {
    IntOnlyTokens(fallback);
    IntOnlyOthersReady();
    ParseMissesOne(Reg3, ["-i=5"], fallback, IntOnly, "--stringArg");
  }

  lemma SecondValue(fallback: BoolFallback)
    ensures ApplyToken(Parsed1, "--stringArg=b", fallback) == Failure(AlreadySet("--stringArg"))
  {
    ApplyLong(Parsed1, "--stringArg=b", "--stringArg", "b", fallback);
  }

  /** A second value for the same argument stops the loop with the first
      value in place. */
  lemma Duplicate(fallback: BoolFallback)
    ensures Parse(Reg3, ["--stringArg=a", "--stringArg=b"], fallback) == Step(Parsed1, Some(AlreadySet("--stringArg")))
  {
    Token1(fallback);
    SecondValue(fallback);
    ParseTokensCons(Reg3, ["--stringArg=a", "--stringArg=b"], fallback);
    ParseTokensCons(Parsed1, ["--stringArg=b"], fallback);
  }

  /** A token without "=" is rejected before any lookup. */
  lemma NoSeparator(fallback: BoolFallback)
    ensures Parse(Reg3, ["foo"], fallback) == Step(Reg3, Some(Malformed("foo")))
  {
    assert Separator !in "foo";
    ParseTokensCons(Reg3, ["foo"], fallback);
  }

  lemma InnerDashesResolve(shortToFull: map<string, string>)
    ensures ResolveToken(shortToFull, "x--y=1") == Success(("x--y", "1"))
  {
    assert OccursAt("x--y", "--", 1);
    assert "x--y=1"[..4] == "x--y" && "x--y=1"[5..] == "1";
    ResolveTokenFields(shortToFull, "x--y=1", "x--y", "1");
  }

  /** "--" anywhere in the name, not only at its start, makes it a full
      name: "x--y" is looked up as a full name and, in any registry without
      it, is unknown. */
  lemma InnerDashes(reg: Registry, fallback: BoolFallback)
    requires "x--y" !in reg.args
    ensures ApplyToken(reg, "x--y=1", fallback) == Failure(UnknownArgument("x--y"))
  {
    InnerDashesResolve(reg.shortToFull);
    ApplyResolved(reg, "x--y=1", "x--y", "1", fallback);
  }

  /** Text after the number is not an int. */
  lemma TrailingText(fallback: BoolFallback)
    ensures ApplyToken(Reg3, "-i=5x", fallback) == Failure(BadCast("5x", IntKind))
  {
    OneLetterShort('i');
    ApplyShort(Reg3, "-i=5x", "-i", "5x", fallback);
    assert !IsDigit("5x"[1]);
  }

  /** Only the text up to a second "=" is the value. */
  lemma SecondSeparator()
    ensures ResolveToken(Reg3.shortToFull, "--stringArg=b=c") == Success(("--stringArg", "b"))
  {
    assert "--stringArg=b=c"[..11] == "--stringArg" && "--stringArg=b=c"[12..] == "b=c";
    assert LeadingField("b=c", "b");
    assert OccursAt("--stringArg", "--", 0);
    ResolveTokenFields(Reg3.shortToFull, "--stringArg=b=c", "--stringArg", "b");
  }

  /** An int argument restricted to 1, 2 and 3, in the manner of the float
      choice argument of test.cpp. */
  const Levels: seq<Value> := [IntV(1), IntV(2), IntV(3)]
  const LevelArg: Arg := NewArg("--level", "-l", "", false, IntV(1), Levels)
  const LevelReg: Registry := Registry(map["--level" := LevelArg], map["-l" := "--level"])

  lemma LevelAdd()
    ensures Add(Empty, "--level", "-l", "", false, IntV(1), Levels) == Success(LevelReg)
    ensures Valid(LevelReg)
  {
    assert Valid(Empty);
  }

  lemma LevelRender()
    ensures Render(Levels) == "[1, 2, 3]"
  {
    assert Levels[1..] == [IntV(2), IntV(3)];
    assert Levels[1..][1..] == [IntV(3)];
  }

  lemma ReadLevel(token: string, n: nat, fallback: BoolFallback)
    requires n < 10 && token == [DigitChar(n)]
    ensures CastFromString(IntKind, token, fallback) == Success(IntV(n))
  {
    assert DigitsValue(token) == n;
  }

  lemma LevelFive(fallback: BoolFallback)
    ensures Read(LevelArg, "5", fallback) == Failure(ChoiceViolation("--level", "[1, 2, 3]", "5"))
  {
    ReadLevel("5", 5, fallback);
    LevelRender();
  }

  /** A value outside the list is refused, naming the argument, the list
      and the token. */
  lemma LevelRefused(fallback: BoolFallback)
    ensures ApplyToken(LevelReg, "-l=5", fallback) == Failure(ChoiceViolation("--level", "[1, 2, 3]", "5"))
  {
    OneLetterShort('l');
    ApplyShort(LevelReg, "-l=5", "-l", "5", fallback);
    LevelFive(fallback);
  }

  lemma LevelTwo(fallback: BoolFallback)
    ensures Read(LevelArg, "2", fallback) == Success(LevelArg.(actualValue := IntV(2), setted := true))
  {
    ReadLevel("2", 2, fallback);
    assert Levels[1] == IntV(2);
  }

  /** A value in the list is stored. */
  lemma LevelAccepted(fallback: BoolFallback)
    ensures ApplyToken(LevelReg, "-l=2", fallback)
            == Success(LevelReg.(args := LevelReg.args["--level" := LevelArg.(actualValue := IntV(2), setted := true)]))
  {
    OneLetterShort('l');
    ApplyShort(LevelReg, "-l=2", "-l", "2", fallback);
    LevelTwo(fallback);
  }
}
