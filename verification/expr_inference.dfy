/** Type inference from the surface form of an expression
    (`SemanticAnalysis<ExprSyntax>.inferredType`). No symbol table is
    consulted: a type is derived only from literals, written types and a few
    well-known constructor calls. */
module ExprInference {
  import opened Wrappers
  import opened Syntax
  import opened TypeAnalysis

  /** Why inference failed (`InferTypeError`). */
  datatype InferTypeError =
    | UnexpectedPattern
    | ClosureTooComplicated
    | CannotInferFromReference(name: string)
    | CannotInferBindingWithoutTypeOrInitializer

  /** The user-facing explanation of each failure. */
  function Description(err: InferTypeError): (s: string)
    ensures |s| > 0
  {
    match err
    case UnexpectedPattern => "Unexpected pattern caused type inference failure"
    case ClosureTooComplicated => "Closure too complicated to infer type. Please annotate types explicitly"
    case CannotInferFromReference(name) => "Type cannot be inferred from referring to `" + name + "`"
    case CannotInferBindingWithoutTypeOrInitializer => "Cannot infer the type of a binding without type annotation or initializer"
  }

  /** The explanations of the three fixed failures differ, and a reference
      failure's explanation quotes the name it refers to, so a note built
      from a description identifies the failure. */
  lemma DescriptionInjective(a: InferTypeError, b: InferTypeError)
    requires Description(a) == Description(b)
    requires a.CannotInferFromReference? <==> b.CannotInferFromReference?
    ensures a == b
  {
    if a.CannotInferFromReference? {
      var pre := "Type cannot be inferred from referring to `";
      assert Description(a) == pre + a.name + "`";
      assert Description(b) == pre + b.name + "`";
      assert a.name == Description(a)[|pre|..|Description(a)| - 1];
      assert b.name == Description(b)[|pre|..|Description(b)| - 1];
    }
  }

  /** The names a literal can be inferred to without any written type. */
  const BuiltinNames: set<string> := {"Int", "Bool", "Double", "String", "UUID"}

  /** `i` is the first element of `es` that is not `nil`. */
  predicate FirstNonNilAt(es: seq<Expr>, i: int) {
    0 <= i < |es| && !es[i].NilLiteral? && forall j :: 0 <= j < i ==> es[j].NilLiteral?
  }

  predicate ContainsNil(es: seq<Expr>) {
    exists i :: 0 <= i < |es| && es[i].NilLiteral?
  }

  /** `first(where: { !$0.is(NilLiteralExprSyntax.self) })`, as an index. */
  function FirstNonNil(es: seq<Expr>): (r: Option<nat>)
    ensures r.Some? ==> FirstNonNilAt(es, r.value)
    ensures r.None? ==> forall j :: 0 <= j < |es| ==> es[j].NilLiteral?
  {
    if |es| == 0 then None
    else if !es[0].NilLiteral? then Some(0)
    else match FirstNonNil(es[1..])
      case None => None
      case Some(i) => Some(i + 1)
  }

  /** `i` is the first dictionary entry whose value is not `nil`. */
  predicate FirstNonNilValueAt(ds: seq<DictEntry>, i: int) {
    0 <= i < |ds| && !ds[i].value.NilLiteral? && forall j :: 0 <= j < i ==> ds[j].value.NilLiteral?
  }

  predicate ContainsNilValue(ds: seq<DictEntry>) {
    exists i :: 0 <= i < |ds| && ds[i].value.NilLiteral?
  }

  function FirstNonNilValue(ds: seq<DictEntry>): (r: Option<nat>)
    ensures r.Some? ==> FirstNonNilValueAt(ds, r.value)
    ensures r.None? ==> forall j :: 0 <= j < |ds| ==> ds[j].value.NilLiteral?
  {
    if |ds| == 0 then None
    else if !ds[0].value.NilLiteral? then Some(0)
    else match FirstNonNilValue(ds[1..])
      case None => None
      case Some(i) => Some(i + 1)
  }

  /** The parameters of a closure that carry a type, in order, as function-type
      parameters; untyped and shorthand parameters contribute nothing. */
  function TypedParameters(ps: seq<ClosureParameter>): (r: seq<TypeElement>)
    ensures |r| <= |ps|
    ensures forall k :: 0 <= k < |r| ==>
      exists i :: 0 <= i < |ps| && ps[i].paramType == Some(r[k].elementType)
        && r[k].firstName == Some(ps[i].firstName) && r[k].secondName == ps[i].secondName
    ensures (forall i :: 0 <= i < |ps| ==> ps[i].paramType.Some?) ==> |r| == |ps|
  {
    if |ps| == 0 then []
    else
      var rest := TypedParameters(ps[1..]);
      assert forall k :: 0 <= k < |rest| ==>
        exists i :: 0 <= i < |ps| && ps[i].paramType == Some(rest[k].elementType)
          && rest[k].firstName == Some(ps[i].firstName) && rest[k].secondName == ps[i].secondName
      by {
        forall k | 0 <= k < |rest|
          ensures exists i :: (0 <= i < |ps| && ps[i].paramType == Some(rest[k].elementType)
            && rest[k].firstName == Some(ps[i].firstName) && rest[k].secondName == ps[i].secondName)
        {
          var i :| 0 <= i < |ps[1..]| && ps[1..][i].paramType == Some(rest[k].elementType)
            && rest[k].firstName == Some(ps[1..][i].firstName) && rest[k].secondName == ps[1..][i].secondName;
          assert ps[i + 1] == ps[1..][i];
        }
      }
      match ps[0].paramType
      case None => rest
      case Some(t) => [TypeElement(Some(ps[0].firstName), ps[0].secondName, t)] + rest
  }

  /** The function type's parameter list taken from a closure signature:
      the annotated parameters of a parenthesized clause; shorthand names
      carry no types and give none. */
  function ClosureParameters(sig: Option<ClosureSignature>): (r: seq<TypeElement>)
    ensures sig.None? || sig.value.parameterClause.None? ==> r == []
    ensures sig.Some? && sig.value.parameterClause.Some? && sig.value.parameterClause.value.ShorthandParameters? ==> r == []
    ensures sig.Some? && sig.value.parameterClause.Some? && sig.value.parameterClause.value.ParenthesizedParameters? ==>
      var ps := sig.value.parameterClause.value.parameters;
      && |r| <= |ps|
      && (forall k :: 0 <= k < |r| ==> exists i :: 0 <= i < |ps| && ps[i].paramType == Some(r[k].elementType))
      && ((forall i :: 0 <= i < |ps| ==> ps[i].paramType.Some?) ==> |r| == |ps|)
  {
    if sig.Some? && sig.value.parameterClause.Some? && sig.value.parameterClause.value.ParenthesizedParameters?
    then TypedParameters(sig.value.parameterClause.value.parameters)
    else []
  }

  /** Every type name written anywhere inside an expression. */
  ghost function WrittenNames(e: Expr): set<string>
    decreases e
  {
    match e
    case Sequence(es) => set i, n | 0 <= i < |es| && n in WrittenNames(es[i]) :: n
    case TypeExpr(t) => TypeNames(t)
    case ArrayLiteral(es) => set i, n | 0 <= i < |es| && n in WrittenNames(es[i]) :: n
    case TupleLiteral(es) => set i, n | 0 <= i < |es| && n in WrittenNames(es[i]) :: n
    case DictionaryLiteral(ds) =>
      (set i, n | 0 <= i < |ds| && n in WrittenNames(ds[i].key) :: n)
      + (set i, n | 0 <= i < |ds| && n in WrittenNames(ds[i].value) :: n)
    case Closure(sig, items) =>
      SignatureNames(sig)
      + (set i, n | 0 <= i < |items| && items[i].ExprItem? && n in WrittenNames(items[i].expr) :: n)
      + (set i, n | 0 <= i < |items| && items[i].StmtItem? && items[i].stmt.ReturnStmt?
                    && items[i].stmt.returned.Some? && n in WrittenNames(items[i].stmt.returned.value) :: n)
    case Try(x) => WrittenNames(x)
    case Await(x) => WrittenNames(x)
    case FunctionCall(c, _, args) =>
      WrittenNames(c) + (set i, n | 0 <= i < |args| && n in WrittenNames(args[i]) :: n)
    case _ => {}
  }

  /** The type names written in a closure signature: its return clause and
      the annotations of its parenthesized parameters. */
  ghost function SignatureNames(sig: Option<ClosureSignature>): set<string> {
    if sig.None? then {}
    else
      (if sig.value.returnClause.Some? then TypeNames(sig.value.returnClause.value) else {})
      + (match sig.value.parameterClause
         case Some(ParenthesizedParameters(ps)) => AnnotationNames(ps)
         case _ => {})
  }

  /** The type names written in parameter annotations. */
  ghost function AnnotationNames(ps: seq<ClosureParameter>): set<string> {
    set i, n | 0 <= i < |ps| && ps[i].paramType.Some? && n in TypeNames(ps[i].paramType.value) :: n
  }

  /** Infers the type of an expression from its syntax. The first matching
      case wins: literals, `x as T` sequences, array, dictionary and tuple
      literals, closures, references, calls, and `UnexpectedPattern` for
      everything else. A failure inside an array, dictionary or tuple element
      is discarded and the literal as a whole ends in `UnexpectedPattern`. */
  function Infer(e: Expr): (r: Result<Type, InferTypeError>)
    decreases e
    // only a binding can lack both annotation and initializer
    ensures r.Err? ==> r.error != CannotInferBindingWithoutTypeOrInitializer
    ensures r.Err? && r.error.CannotInferFromReference? ==> e.DeclReference? || e.FunctionCall?
    ensures r == Err(ClosureTooComplicated) ==> e.Closure?
    // a closure is a function or too complicated, never an unexpected pattern
    ensures e.Closure? ==> (r.Ok? ==> r.value.FunctionType?) && (r.Err? ==> r.error == ClosureTooComplicated)
    ensures e.ArrayLiteral? && r.Ok? ==> r.value.ArrayType?
    ensures e.DictionaryLiteral? && r.Ok? ==> r.value.DictionaryType?
    ensures e.TupleLiteral? && r.Ok? ==> r.value.TupleType? && |r.value.elements| == |e.elements|
  {
    match e
    case IntegerLiteral => Ok(Named("Int", []))
    case BooleanLiteral => Ok(Named("Bool", []))
    case FloatLiteral => Ok(Named("Double", []))
    case StringLiteral => Ok(Named("String", []))
    case Sequence(es) =>
      if |es| == 3 && es[1].UnresolvedAs? && es[2].TypeExpr? then
        Ok(if es[1].mark == Question then Optional(es[2].typ) else es[2].typ)
      else Err(UnexpectedPattern)
    case ArrayLiteral(es) =>
      (match FirstNonNil(es)
       case None => Err(UnexpectedPattern)
       case Some(i) =>
         (match Infer(es[i])
          case Err(_) => Err(UnexpectedPattern)
          case Ok(t) => Ok(ArrayType(if ContainsNil(es) then Optional(t) else t))))
    case DictionaryLiteral(ds) =>
      (match FirstNonNilValue(ds)
       case None => Err(UnexpectedPattern)
       case Some(i) =>
         (match (Infer(ds[i].key), Infer(ds[i].value))
          case (Ok(k), Ok(v)) => Ok(DictionaryType(k, if ContainsNilValue(ds) then Optional(v) else v))
          case _ => Err(UnexpectedPattern)))
    case TupleLiteral(es) =>
      var rs := seq(|es|, i requires 0 <= i < |es| => Infer(es[i]));
      if forall i :: 0 <= i < |rs| ==> rs[i].Ok? then
        Ok(TupleType(seq(|rs|, i requires 0 <= i < |rs| && rs[i].Ok? => TypeElement(None, None, rs[i].value))))
      else Err(UnexpectedPattern)
    case Closure(sig, items) =>
      var params := ClosureParameters(sig);
      if sig.Some? && sig.value.returnClause.Some? then
        Ok(FunctionType(params, sig.value.effects, sig.value.returnClause.value))
      else if |items| == 1 then
        (match items[0]
         case ExprItem(x) => InferClosureBody(e, params, x)
         case StmtItem(ReturnStmt(Some(x))) => InferClosureBody(e, params, x)
         case _ => Err(ClosureTooComplicated))
      else Err(ClosureTooComplicated)
    case DeclReference(name) => Err(CannotInferFromReference(name))
    case FunctionCall(callee, text, _) =>
      if callee.DeclReference? && callee.baseName == "UUID" then Ok(Named("UUID", []))
      else Err(CannotInferFromReference(text))
    case _ => Err(UnexpectedPattern)
  }

  /** The closure `c` consists of the single expression `x`: one leading `try`
      marks the function `throws`, one `await` under it marks it `async`, and
      the rest must infer. */
  function InferClosureBody(c: Expr, params: seq<TypeElement>, x: Expr): (r: Result<Type, InferTypeError>)
    requires c.Closure? && |c.statements| == 1
    requires c.statements[0] == ExprItem(x) || c.statements[0] == StmtItem(ReturnStmt(Some(x)))
    decreases c, 0
    ensures r.Ok? ==> r.value.FunctionType? && r.value.parameters == params && r.value.effects.Some?
    ensures r.Err? ==> r.error == ClosureTooComplicated
  {
    if x.Try? then
      if x.expression.Await? then ClosureType(params, Infer(x.expression.expression), true, true)
      else ClosureType(params, Infer(x.expression), false, true)
    else if x.Await? then ClosureType(params, Infer(x.expression), true, false)
    else ClosureType(params, Infer(x), false, false)
  }

  /** The function type of a closure whose returned expression inferred to `inner`. */
  function ClosureType(params: seq<TypeElement>, inner: Result<Type, InferTypeError>, isAsync: bool, isThrows: bool)
    : Result<Type, InferTypeError>
  {
    match inner
    case Err(_) => Err(ClosureTooComplicated)
    case Ok(t) => Ok(FunctionType(params, Some(Effects(isAsync, isThrows)), t))
  }

  /** The inferred type never mentions a type name that is neither built in
      nor written somewhere inside the expression: no symbol is resolved. */
  lemma {:induction false} InferredNamesAreWritten(e: Expr)
    ensures Infer(e).Ok? ==> TypeNames(Infer(e).value) <= BuiltinNames + WrittenNames(e)
    decreases e
  {
    match e
    case Sequence(es) =>
      if |es| == 3 && es[1].UnresolvedAs? && es[2].TypeExpr? {
        assert TypeNames(es[2].typ) == WrittenNames(es[2]);
      }
    case ArrayLiteral(es) =>
      if Infer(e).Ok? {
        ArrayNamesAreWritten(e);
      }
    case DictionaryLiteral(ds) =>
      if Infer(e).Ok? {
        DictionaryNamesAreWritten(e);
      }
    case TupleLiteral(es) =>
      if Infer(e).Ok? {
        TupleNamesAreWritten(e);
      }
    case Closure(sig, items) =>
      if Infer(e).Ok? {
        ClosureNamesAreWritten(e);
      }
    case _ =>
  }

  lemma {:induction false} ArrayNamesAreWritten(e: Expr)
    requires e.ArrayLiteral? && Infer(e).Ok?
    ensures TypeNames(Infer(e).value) <= BuiltinNames + WrittenNames(e)
    decreases e, 3
  {
    var i := FirstNonNil(e.elements).value;
    InferredNamesAreWritten(e.elements[i]);
  }

  lemma {:induction false} DictionaryNamesAreWritten(e: Expr)
    requires e.DictionaryLiteral? && Infer(e).Ok?
    ensures TypeNames(Infer(e).value) <= BuiltinNames + WrittenNames(e)
    decreases e, 3
  {
    var i := FirstNonNilValue(e.entries).value;
    InferredNamesAreWritten(e.entries[i].key);
    InferredNamesAreWritten(e.entries[i].value);
  }

  lemma {:induction false} TupleNamesAreWritten(e: Expr)
    requires e.TupleLiteral? && Infer(e).Ok?
    ensures TypeNames(Infer(e).value) <= BuiltinNames + WrittenNames(e)
    decreases e, 3
  {
    var es := e.elements;
    forall i | 0 <= i < |es| {
      InferredNamesAreWritten(es[i]);
    }
    var ts := Infer(e).value.elements;
    assert forall i :: 0 <= i < |ts| ==> Infer(es[i]) == Ok(ts[i].elementType);
  }

  lemma {:induction false} ClosureNamesAreWritten(c: Expr)
    requires c.Closure? && Infer(c).Ok?
    ensures TypeNames(Infer(c).value) <= BuiltinNames + WrittenNames(c)
    decreases c, 2
  {
    var params := ClosureParameters(c.signature);
    SignatureNamesAreWritten(c);
    var sig := c.signature;
    if sig.Some? && sig.value.returnClause.Some? {
      var t := FunctionType(params, sig.value.effects, sig.value.returnClause.value);
      assert Infer(c) == Ok(t);
      assert TypeNames(t) == ElementNames(params) + TypeNames(sig.value.returnClause.value);
    } else {
      var x := if c.statements[0].ExprItem? then c.statements[0].expr else c.statements[0].stmt.returned.value;
      assert Infer(c) == InferClosureBody(c, params, x);
      ItemNamesAreWritten(c, x);
      BodyNamesAreWritten(c, params, x);
    }
  }

  /** The parameter list and return type a closure's function type takes
      from its signature name only types the signature spells out. */
  lemma SignatureNamesAreWritten(c: Expr)
    requires c.Closure?
    ensures ElementNames(ClosureParameters(c.signature)) <= WrittenNames(c)
    ensures c.signature.Some? && c.signature.value.returnClause.Some? ==>
      TypeNames(c.signature.value.returnClause.value) <= WrittenNames(c)
  {
    var sig := c.signature;
    if sig.Some? && sig.value.parameterClause.Some? && sig.value.parameterClause.value.ParenthesizedParameters? {
      TypedParameterNames(sig.value.parameterClause.value.parameters);
    } else {
      assert ClosureParameters(sig) == [];
    }
  }

  /** The kept parameters' types are exactly annotations the parameters carry. */
  lemma TypedParameterNames(ps: seq<ClosureParameter>)
    ensures ElementNames(TypedParameters(ps)) <= AnnotationNames(ps)
  {
    var r := TypedParameters(ps);
    forall n | n in ElementNames(r)
      ensures n in AnnotationNames(ps)
    {
      var k :| 0 <= k < |r| && n in TypeNames(r[k].elementType);
      var i :| 0 <= i < |ps| && ps[i].paramType == Some(r[k].elementType)
        && r[k].firstName == Some(ps[i].firstName) && r[k].secondName == ps[i].secondName;
    }
  }

  lemma ItemNamesAreWritten(c: Expr, x: Expr)
    requires c.Closure? && |c.statements| == 1
    requires c.statements[0] == ExprItem(x) || c.statements[0] == StmtItem(ReturnStmt(Some(x)))
    ensures WrittenNames(x) <= WrittenNames(c)
  {
    if c.statements[0].ExprItem? {
      assert forall n :: n in WrittenNames(c.statements[0].expr) ==> n in WrittenNames(c);
    } else {
      assert forall n :: n in WrittenNames(c.statements[0].stmt.returned.value) ==> n in WrittenNames(c);
    }
  }

  lemma {:induction false} BodyNamesAreWritten(c: Expr, params: seq<TypeElement>, x: Expr)
    requires c.Closure? && |c.statements| == 1
    requires c.statements[0] == ExprItem(x) || c.statements[0] == StmtItem(ReturnStmt(Some(x)))
    requires WrittenNames(x) <= WrittenNames(c) && ElementNames(params) <= WrittenNames(c)
    ensures InferClosureBody(c, params, x).Ok? ==>
      TypeNames(InferClosureBody(c, params, x).value) <= BuiltinNames + WrittenNames(c)
    decreases c, 1
  {
    if x.Try? {
      assert WrittenNames(x.expression) <= WrittenNames(x);
      if x.expression.Await? {
        assert WrittenNames(x.expression.expression) <= WrittenNames(x.expression);
        ReturnedNamesAreWritten(c, params, x.expression.expression, true, true);
      } else {
        ReturnedNamesAreWritten(c, params, x.expression, false, true);
      }
    } else if x.Await? {
      assert WrittenNames(x.expression) <= WrittenNames(x);
      ReturnedNamesAreWritten(c, params, x.expression, true, false);
    } else {
      ReturnedNamesAreWritten(c, params, x, false, false);
    }
  }

  /** The function type around a returned expression `y` of closure `c`
      names only what `c` spells out or a built-in type. */
  lemma {:induction false} ReturnedNamesAreWritten(c: Expr, params: seq<TypeElement>, y: Expr, isAsync: bool, isThrows: bool)
    requires y < c
    requires WrittenNames(y) <= WrittenNames(c) && ElementNames(params) <= WrittenNames(c)
    ensures ClosureType(params, Infer(y), isAsync, isThrows).Ok? ==>
      TypeNames(ClosureType(params, Infer(y), isAsync, isThrows).value) <= BuiltinNames + WrittenNames(c)
    decreases c, 0
  {
    InferredNamesAreWritten(y);
  }
}
