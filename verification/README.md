# cmdline.h in Dafny

A model of the single-header C++ command-line parser `cmdline.h` (namespace
`cmd`): the string/value conversions (`LexicalCast`, `CastFromString`,
`CastToString`), the two casters (`StringCaster`, `ChoiceCaster`), the two
argument classes (`BasicArgument`, `ChoiceArgument`) with `Read` and
`IsGood`, the `=`-splitting of a token (`detail::StringSplit`), and the
`Parser` itself: `Add` with `CheckExist` and `AddArgument`, `Parse` with its
token loop and completeness pass, `ReadWithFullName`, `Get` and
`GetWithFullName`.

Layout, one module per file:

- `wrappers.dfy` (`Wrappers`): `Option` and `Result`.
- `text.dfy` (`Text`): `std::string::find` as `Find`, `StringSplit` both as a
  function and as a method that follows the C++ loop, and the split/join
  facts `Parse` relies on.
- `values.dfy` (`Values`): the three supported types `int`, `bool` and
  `std::string` as one tagged `Value`.
- `errors.dfy` (`Errors`): one constructor per kind of `CMDError`, with the
  message texts, plus `UsageExit` (the bare-invocation exit) and
  `TypeMismatch` (in place of an undefined downcast), which are the model's
  own.
- `cast.dfy` (`Cast`): conversions, the choice description and the choice
  check.
- `argument.dfy` (`Argument`): an argument's declaration data and parse
  state, its constructor, `IsGood` and `Read`.
- `parser.dfy` (`Parser`): the registry and every `Parser` operation.
- `scenario.dfy` (`Scenario`): the registrations of `test.cpp` and concrete
  invocations, stated as lemmas about the model.

The operations are pure functions, plus two methods that follow the C++
loops (`Text.StringSplitLoop` and `Cast.RenderChoices`). A state change
returns a new value. A
throw becomes a `Failure`. `Parse` returns the state it reached together
with what it threw, because a failed parse keeps the values read before the
failing token.

Behaviour of the code that the model keeps, and that a reader might not
expect:

- The value of a token is the text between the first and the *second* `=`.
  `StringSplit` cuts at every `=`, and `Parse` keeps only pieces 0 and 1, so
  `--stringArg=b=c` stores `b` (`Scenario.SecondSeparator`).
- A name counts as a full name when it contains `--` anywhere, and as a
  short name when it contains `-` anywhere. These are `find` tests, not
  prefix tests, so `x--y=1` is looked up as the full name `x--y`
  (`Scenario.InnerDashes`).
- `IsGood` never answers false. It throws "is not required, but has no
  default value yet" for any argument that is neither set nor defaulted,
  whether required or not. So the "Required argument ... is not setted"
  error of `Parse` can never be raised (`Parser.Parse`).
- A default counts only when it is truthy: a non-empty string, a non-zero
  int, or `true`. A required `int` argument with default 0 therefore has
  no default (`Argument.NewArg`).
- The default of a choice argument is not checked against its list.

## Model

| member | source | states |
|---|---|---|
| Text.Find | cmdline.h:341-342 | the result is the first occurrence of the pattern at or after the start index; no earlier one exists; `None` (npos) means no occurrence at all |
| Text.StringSplit | cmdline.h:329-349 | empty input gives no pieces; otherwise at least one piece, none containing `=`, and joining them with `=` gives back the input |
| Text.StringSplitLoop | cmdline.h:329-349 | the C++ scan over `src + "="` with `find` and `substr` returns exactly the pieces `StringSplit` specifies |
| Text.JoinUnique | cmdline.h:338-347 | two `=`-free piece sequences that join to the same text are equal, so the split is unique |
| Text.SplitJoin | cmdline.h:329-349 | splitting the join of `=`-free pieces gives the pieces back (split inverts join) |
| Text.SplitCount | cmdline.h:338-347 | a non-empty input splits into one more piece than it has `=` characters |
| Text.SplitFields | cmdline.h:397-399 | for a token holding `=`, there are at least two pieces; piece 0 is all the text before the first `=`; piece 1 is the text after it up to the next `=` or the end |
| Cast.ParseInt | cmdline.h:98-103 | a token reads as an int exactly when it is an optional sign followed by digits and nothing else; a negative result needs a leading minus (its value for a plus sign or leading zeros is given by `Cast.PlusSign` and `Cast.LeadingZeros`) |
| Cast.IntRoundTrip | cmdline.h:81-84 | reading back the decimal text an int prints as gives the same int |
| Cast.PlainDecimalPrints | cmdline.h:81-84 | plain decimal text is the one text its int prints as: it reads as an int, and printing that int gives the text back |
| Cast.PlusSign | cmdline.h:98-103 | a plus sign before a digit string reads as the digits alone |
| Cast.LeadingZeros | cmdline.h:98-103 | leading zeros before a digit string do not change the int it reads as |
| Cast.NonPlainReadings | cmdline.h:98-103 | "+5" reads as 5, "007" as 7 and "-0" as 0 |
| Cast.CastToString | cmdline.h:81-84 | an int prints as plain decimal (no plus sign, no leading zero, a minus only before a non-zero magnitude) that reads back as that int, starting with a minus exactly when it is negative; a bool prints as "true" or "false" (`std::boolalpha`) according to its value; a string prints unchanged. `Cast.CastRoundTrip` is its inverse |
| Cast.CastFromString | cmdline.h:75-118 | the result has the requested type; failure is "Bad cast" naming the token and type; strings pass unchanged; "true" and "false" read as bools; an int token is accepted exactly when it is a whole integer, and then stores the value `Cast.ParseInt` reads, so `Cast.PlusSign`, `Cast.LeadingZeros` and `Cast.NonPlainReadings` give what "+5", "007" or "-0" store |
| Cast.NonPlainCasts | cmdline.h:98-105 | an int argument given "+5", "007" or "-0" stores 5, 7 or 0 |
| Cast.NumericBoolCast | cmdline.h:98-103 | with a conforming library's numeric bool extraction, a bool token is accepted exactly when it is "true", "false", or a whole integer 0 or 1 |
| Cast.CastRoundTrip | cmdline.h:114-123 | every int, bool and string value read back from its own printed form is the same value |
| Cast.RenderChoices | cmdline.h:160-173 | the constructor loop produces "[" then the items printed and separated by ", " in declaration order, then "]" |
| Cast.ChoiceCast | cmdline.h:175-185 | succeeds exactly when the cast succeeds and the value is in the list; a cast failure passes through unchanged; an out-of-list value fails naming the argument, the rendered list and the token |
| Cast.ChoiceMessageMentions | cmdline.h:179-181 | the choice error message contains the argument name, the rendered list and the offending token, at fixed positions |
| Errors.Message | cmdline.h:94-101 | the text of each kind of error, as thrown at cmdline.h:94-95, 101-102, 179-181, 264-266, 392-395, 406, 420-421, 478, 486 and 489, opens with that kind's fixed words and then the token or name the error is about; `TypeMismatch` has a text of the model's own |
| Argument.NewArg | cmdline.h:205-234 | a default counts exactly when it is non-empty or non-zero or true; the actual value starts as that default or the type's zero; an argument starts unset (`setted_` is false) and is ready at birth exactly when its default counts; the declaration data is kept and a non-empty list makes it a choice argument |
| Argument.IsGood | cmdline.h:257-269 | succeeds exactly when the argument is set or defaulted, and then says true; otherwise throws the missing-default error naming the argument |
| Argument.Read | cmdline.h:274-278 | on success only the value and the set flag change and the value is the cast of the token; success exactly when the cast succeeds, and for a choice argument the value is also in the list; a failed cast is a bad cast, checked before the list, and a cast value outside the list is a choice violation naming the argument, the rendered list and the token; well-typedness is kept |
| Argument.ReadPrinted | cmdline.h:319-323 | reading a value's own printed text stores that value, for plain and choice arguments alike |
| Parser.Add | cmdline.h:361-380 | fails exactly when the full name or a non-empty short name is taken, with "Multiple definition" naming it; on success adds one argument built as the constructor builds it, keeps the others, files a non-empty short name, and keeps the registry well-formed |
| Parser.CheckExist | cmdline.h:483-491 | no error exactly when the full name is new and the short name is empty or new; a taken full name is reported before a taken short name, each as "Multiple definition" naming it |
| Parser.AddArgument | cmdline.h:493-501 | for names not yet present (the only case `Add` reaches, after `CheckExist`), the argument is filed under its full name and every other argument is kept; a non-empty short name is mapped to the full name and every other short name is kept; an empty one leaves the map alone |
| Parser.AddFullNameTwice | cmdline.h:483-487 | registering a full name a second time fails, whatever the type |
| Parser.AddShortNameTwice | cmdline.h:488-490 | registering a non-empty short name a second time fails, whatever the full name |
| Parser.Form | cmdline.h:400-403 | a name is dispatched as a full name exactly when `--` occurs in it anywhere, and as neither kind exactly when it contains no `-` |
| Parser.ResolveToken | cmdline.h:390-415 | a token without `=` is malformed; a resolved name is either a full-form name or one that a short name maps to |
| Parser.ResolveTokenFields | cmdline.h:397-415 | given the text before the first `=` and the value up to the next `=`, gives the result for each dispatch case: full name, known short name, unknown short name, and no dash |
| Parser.ReadWithFullName | cmdline.h:471-481 | an unknown name and an already-set argument each fail with their own error; otherwise the result is exactly what `Read` gives, filed under the name; nothing else changes |
| Parser.ApplyToken | cmdline.h:389-416 | a token that does not resolve fails with exactly the resolution error; any failure is a token error; on success it resolved to an unset argument, the read succeeded, and only that argument changed |
| Parser.ParseTokens | cmdline.h:389-416 | the loop only moves arguments from unset to set, keeps the name maps and the well-formedness, and stops only on a token error |
| Parser.ParseTokensApplied | cmdline.h:389-416 | when the loop throws nothing, every token was applied to an argument that was unset before the loop, and no two tokens name the same argument |
| Parser.ParseTokensUntouched | cmdline.h:389-416 | an argument that no token names leaves the loop exactly as it entered it, whether or not the loop threw, so a default it had still counts |
| Parser.CheckAll | cmdline.h:418-423 | the pass throws nothing exactly when every argument is set or defaulted; otherwise it throws the missing-default error of an argument that is neither |
| Parser.CheckAllSingleMissing | cmdline.h:418-423 | with exactly one argument neither set nor defaulted, the pass reports that argument, whatever the map order |
| Parser.Parse | cmdline.h:382-424 | no tokens gives the usage exit; otherwise the state returned is the one the loop left, and a loop that threw is reported with that same error; success means every argument is ready, and happens exactly when the loop threw nothing and left every argument ready; the required-not-set error is never raised; well-formedness is kept |
| Parser.ParseWithDefaults | cmdline.h:382-424 | when the loop throws nothing and every argument that is neither set nor defaulted is named by some token, the parse succeeds with the state the loop left |
| Parser.DuplicateAssignment | cmdline.h:477-479 | a later token naming an argument an earlier token set, by either name, fails with "has been setted", leaving the state of the tokens before it |
| Parser.StopsAtFirstError | cmdline.h:389-416 | a failed loop stopped at one token: the tokens before it all applied, that token threw, and the reported state is the one they left |
| Parser.ParseTokensAppend | cmdline.h:389-416 | the loop over two token lists runs the second list from the state the first list left, unless the first list threw |
| Parser.GetWithFullName | cmdline.h:460-469 | an unknown name fails; otherwise the stored value is returned exactly when the requested type is the registered one |
| Parser.Get | cmdline.h:426-441 | a name containing `--` is looked up directly; a name containing only `-` goes through the short-name map; a name that is neither, or an unknown short name, fails |
| Parser.GetShortAsFull | cmdline.h:426-437 | an argument's short name retrieves exactly what its full name retrieves |
| Parser.ParseThenGet | cmdline.h:382-441 | after a successful parse, each token's argument holds the cast of that token's value |
| Scenario.DemoRegisters | test.cpp:8-18 | the string, int and bool registrations of the demonstration program succeed and leave a well-formed registry |
| Scenario.FullInvocation | test.cpp:19-24 | giving all three values succeeds |
| Scenario.FullIntShort | test.cpp:22 | `-i` then retrieves 5 |
| Scenario.DefaultsApply | cmdline.h:418-423 | giving only the string value succeeds, because the other two keep their defaults |
| Scenario.MissingString | cmdline.h:257-267 | leaving out the string argument throws the missing-default error naming it |
| Scenario.Duplicate | cmdline.h:477-479 | a second value for `--stringArg` throws "has been setted" |
| Scenario.NoSeparator | cmdline.h:391-396 | the token `foo` is malformed |
| Scenario.InnerDashes | cmdline.h:400-401 | `x--y=1` is treated as a full name, and reported unknown in any registry that lacks that name |
| Scenario.SecondSeparator | cmdline.h:397-399 | `--stringArg=b=c` carries the value `b` |
| Scenario.TrailingText | cmdline.h:99-103 | `-i=5x` is a bad cast to int |
| Scenario.LevelRefused | cmdline.h:175-182 | for an int choice argument over [1, 2, 3], the token 5 is refused and the message lists "[1, 2, 3]" |
| Scenario.LevelAccepted | cmdline.h:175-185 | the token 2 is stored |

## Left out

- Floating-point and other types: only `int`, `bool` and `std::string`
  are modelled. So the float choice argument of `test.cpp` is replaced in
  the scenarios by an int choice argument.
- `Demangle`, `RealTypeName` and `RealTypeNameOfValue`: they need the C++
  ABI's demangler, so type names are the fixed strings of
  `Values.KindName`.
- Cast.ParseInt: accepts integers of any size and no leading whitespace.
  `std::stringstream` skips leading whitespace and fails outside the
  32-bit range of `int`. These are library details, and the model's `int`
  is unbounded.
- Cast.CastFromString: for a bool token other than "true" and "false",
  the outcome is a parameter of the model. That extraction belongs to the
  C++ library. `Cast.NumericBool` gives what a conforming library does,
  and `Cast.NumericBoolCast` states the result of using it.
- The "Unsupported cast" branch of `LexicalCast`: it cannot be reached
  with the three modelled types.
- `Usage()`, the per-argument usage strings, `progName`, and the printing
  and `exit(1)` of a bare invocation: a bare invocation is the `UsageExit`
  outcome of `Parser.Parse`.
- The iteration order of `std::unordered_map`: it is unspecified, so the
  completeness pass picks an argument that is not ready without saying
  which. This makes `Parser.CheckAll` and `Parser.Parse` ghost.
- The `reinterpret_cast` of `GetWithFullName`: retrieving with the wrong
  type is undefined behaviour in the C++. The model reports it as
  `TypeMismatch` instead.
- The `CMDError` class and its "CmdLine Error: " prefix: `Errors.Message`
  gives the text after the prefix.
- `TypeCaster::SetName`/`GetName`/`SetDesc`/`GetDesc` and the argument
  accessors: these are plain fields and parameters in the model.
- The `unordered_set` of choices: only membership is modelled. The
  rendered list keeps declaration order, including any duplicates.
- The `Parser` destructor and `shared_ptr` ownership: the model has no
  heap.
