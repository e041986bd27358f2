/** The scalar types an argument can be declared with (the template
    parameter `T` of `Parser::Add<T>`), as a closed tagged union. */
module Values {

  datatype Kind = IntKind | BoolKind | StrKind

  datatype Value = IntV(i: int) | BoolV(b: bool) | StrV(s: string) {

    function Kind(): Kind
    {
      match this
      case IntV(_) => IntKind
      case BoolV(_) => BoolKind
      case StrV(_) => StrKind
    }
  }

  /** The value-initialised `T{}` of each kind: `0`, `false`, `""`. */
  function Zero(k: Kind): (v: Value)
    ensures v.Kind() == k
  {
    match k
    case IntKind => IntV(0)
    case BoolKind => BoolV(false)
    case StrKind => StrV("")
  }

  /** The type name used in cast-failure messages, in place of the
      demangled `typeid` name. */
  function KindName(k: Kind): string
  {
    match k
    case IntKind => "int"
    case BoolKind => "bool"
    case StrKind => "std::string"
  }
}
