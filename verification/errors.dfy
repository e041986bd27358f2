/** The conditions under which cmdline.h throws a `CMDError`, one
    constructor per kind of message. */
module Errors {
  import opened Values

  datatype Error =
    /** A token could not be converted to the argument's type. */
    | BadCast(token: string, target: Kind)
    /** A converted token is not in the declared choice list. */
    | ChoiceViolation(name: string, choices: string, token: string)
    /** `IsGood` on an argument that is neither set nor defaulted. */
    | MissingDefault(name: string)
    /** The completeness pass found `IsGood()` false. */
    | RequiredNotSet(name: string)
    /** A token without `=`, or whose name carries no `-` at all. */
    | Malformed(token: string)
    /** A name that resolves to no registered argument. */
    | UnknownArgument(name: string)
    /** A second value for an argument that is already set. */
    | AlreadySet(name: string)
    /** A full or short name registered twice. */
    | MultipleDefinition(name: string)
    /** Retrieval with a type other than the registered one; this replaces
        the unchecked downcast of `GetWithFullName`. */
    | TypeMismatch(name: string, requested: Kind, registered: Kind)
    /** A bare invocation: usage is printed and the process exits with 1. */
    | UsageExit

  /** The token or name an error is about. */
  function Subject(e: Error): string
  {
    match e
    case BadCast(token, _) => token
    case ChoiceViolation(name, _, _) => name
    case MissingDefault(name) => name
    case RequiredNotSet(name) => name
    case Malformed(token) => token
    case UnknownArgument(name) => name
    case AlreadySet(name) => name
    case MultipleDefinition(name) => name
    case TypeMismatch(name, _, _) => name
    case UsageExit => ""
  }

  /** The fixed text that opens each kind of message. */
  function Lead(e: Error): string
  {
    match e
    case BadCast(_, _) => "Bad cast from std::string "
    case ChoiceViolation(_, _, _) => "Argument: "
    case MissingDefault(_) => "Argument: "
    case RequiredNotSet(_) => "Required argument: "
    case Malformed(_) => "Argument should be in the form of '--fullName=value' or '-shorName=value', got "
    case UnknownArgument(_) => "Not exist argument: "
    case AlreadySet(_) => "Argument "
    case MultipleDefinition(_) => "Multiple definition for "
    case TypeMismatch(_, _, _) => "Argument "
    case UsageExit => "usage"
  }

  /** The message text, without the common "CmdLine Error: " prefix. Every
      message opens with its kind's fixed text followed by the token or
      name it is about. */
  function Message(e: Error): (r: string)
    ensures Lead(e) + Subject(e) <= r
  {
    var rest := match e
      case BadCast(_, target) => " to " + KindName(target)
      case ChoiceViolation(_, choices, token) => " should be in " + choices + ", got " + token + " indeed"
      case MissingDefault(_) => " is not required, but has no default value yet"
      case RequiredNotSet(_) => " is not setted"
      case Malformed(_) => " indeed"
      case UnknownArgument(_) => ""
      case AlreadySet(_) => " has been setted"
      case MultipleDefinition(_) => ""
      case TypeMismatch(_, requested, registered) =>
        " holds " + KindName(registered) + ", not " + KindName(requested)
      case UsageExit => "";
    Lead(e) + Subject(e) + rest
  }
}
