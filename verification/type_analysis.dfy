/** Questions asked about type syntax. */
module TypeAnalysis {
  import opened Wrappers
  import opened Syntax

  /** Whether a type is spelled as an optional: `T?`, or the identifier
      `Optional` (as in `Optional<Int>`), whatever its generic arguments.
      The check looks at the outermost node only. */
  predicate IsOptional(t: Type) {
    t.Optional? || (t.Named? && t.name == "Optional")
  }

  lemma IsOptionalCases(t: Type, n: string, args: seq<Type>, u: Type, es: seq<TypeElement>, fx: Option<Effects>)
    ensures IsOptional(Optional(t))
    ensures IsOptional(Named(n, args)) <==> n == "Optional"
    ensures IsOptional(Named("Optional", [t]))
    ensures !IsOptional(ArrayType(u))
    ensures !IsOptional(DictionaryType(t, u))
    ensures !IsOptional(TupleType(es))
    ensures !IsOptional(FunctionType(es, fx, u))
    ensures !IsOptional(Missing(n)) && !IsOptional(OtherType(n))
  {
  }

  /** Every type name a type mentions, at any depth. */
  ghost function TypeNames(t: Type): set<string>
    decreases t
  {
    match t
    case Named(n, args) => {n} + (set i, m | 0 <= i < |args| && m in TypeNames(args[i]) :: m)
    case Optional(w) => TypeNames(w)
    case ArrayType(x) => TypeNames(x)
    case DictionaryType(k, v) => TypeNames(k) + TypeNames(v)
    case TupleType(es) => set i, n | 0 <= i < |es| && n in TypeNames(es[i].elementType) :: n
    case FunctionType(ps, _, r) =>
      (set i, n | 0 <= i < |ps| && n in TypeNames(ps[i].elementType) :: n) + TypeNames(r)
    case Missing(_) => {}
    case OtherType(_) => {}
  }

  /** Every type name mentioned by a list of tuple or parameter elements. */
  ghost function ElementNames(es: seq<TypeElement>): set<string> {
    set i, n | 0 <= i < |es| && n in TypeNames(es[i].elementType) :: n
  }
}
