/** What expression inference promises, case by case, and how the result
    reacts when a literal grows. */
module InferenceProperties {
  import opened Wrappers
  import opened Syntax
  import opened TypeAnalysis
  import opened ExprInference

  lemma LiteralsInfer()
    ensures Infer(IntegerLiteral) == Ok(Named("Int", []))
    ensures Infer(BooleanLiteral) == Ok(Named("Bool", []))
    ensures Infer(FloatLiteral) == Ok(Named("Double", []))
    ensures Infer(StringLiteral) == Ok(Named("String", []))
    ensures Infer(NilLiteral) == Err(UnexpectedPattern)
  {
  }

  /** `x as? T` is `T?` and `x as T` / `x as! T` is `T`, whatever `x` is. */
  lemma CastInfersTarget(x: Expr, mark: CastMark, t: Type)
    ensures Infer(Sequence([x, UnresolvedAs(mark), TypeExpr(t)])) == Ok(if mark == Question then Optional(t) else t)
    ensures mark == Question ==> IsOptional(Infer(Sequence([x, UnresolvedAs(mark), TypeExpr(t)])).value)
  {
  }

  /** Any other operator sequence is not understood. */
  lemma OtherSequencesFail(es: seq<Expr>)
    requires |es| != 3 || !es[1].UnresolvedAs? || !es[2].TypeExpr?
    ensures Infer(Sequence(es)) == Err(UnexpectedPattern)
  {
  }

  /** An array literal infers exactly when its first non-`nil` element does;
      the element type is made optional when some element is `nil`; every
      failure, including the element's own, is `UnexpectedPattern`. */
  lemma ArrayLiteralInference(es: seq<Expr>)
    ensures Infer(ArrayLiteral(es)).Ok? <==> exists i :: FirstNonNilAt(es, i) && Infer(es[i]).Ok?
    ensures forall i :: FirstNonNilAt(es, i) && Infer(es[i]).Ok? ==>
      Infer(ArrayLiteral(es)) == Ok(ArrayType(if ContainsNil(es) then Optional(Infer(es[i]).value) else Infer(es[i]).value))
    ensures Infer(ArrayLiteral(es)).Err? ==> Infer(ArrayLiteral(es)).error == UnexpectedPattern
  {
  }

  lemma EmptyOrAllNilArrayFails(es: seq<Expr>)
    requires forall i :: 0 <= i < |es| ==> es[i].NilLiteral?
    ensures Infer(ArrayLiteral(es)) == Err(UnexpectedPattern)
  {
  }

  /** A `nil` element makes the element type optional. */
  lemma ArrayWithNilHasOptionalElement(es: seq<Expr>)
    requires ContainsNil(es) && Infer(ArrayLiteral(es)).Ok?
    ensures IsOptional(Infer(ArrayLiteral(es)).value.element)
  {
  }

  /** Only the first non-`nil` element is consulted: appending another
      non-`nil` element, of whatever type, changes nothing. */
  lemma ArrayLaterElementsIgnored(es: seq<Expr>, x: Expr)
    requires Infer(ArrayLiteral(es)).Ok? && !x.NilLiteral?
    ensures Infer(ArrayLiteral(es + [x])) == Infer(ArrayLiteral(es))
  {
    var i := FirstNonNil(es).value;
    assert FirstNonNilAt(es + [x], i);
    ArrayLiteralInference(es + [x]);
    ArrayLiteralInference(es);
    assert ContainsNil(es + [x]) == ContainsNil(es) by {
      if ContainsNil(es + [x]) {
        var j :| 0 <= j < |es + [x]| && (es + [x])[j].NilLiteral?;
        assert j < |es|;
      }
      if ContainsNil(es) {
        var j :| 0 <= j < |es| && es[j].NilLiteral?;
        assert (es + [x])[j].NilLiteral?;
      }
    }
  }

  /** Appending `nil` wraps the element type in an optional, once. */
  lemma ArrayNilAppended(es: seq<Expr>)
    requires Infer(ArrayLiteral(es)).Ok?
    ensures var t := Infer(ArrayLiteral(es)).value.element;
      Infer(ArrayLiteral(es + [NilLiteral])) == Ok(ArrayType(if ContainsNil(es) then t else Optional(t)))
  {
    var i := FirstNonNil(es).value;
    var es' := es + [NilLiteral];
    assert FirstNonNilAt(es', i);
    assert es'[|es|].NilLiteral?;
    ArrayLiteralInference(es');
    if ContainsNil(es) {
      var j :| 0 <= j < |es| && es[j].NilLiteral?;
      assert es'[j].NilLiteral?;
    }
  }

  /** A dictionary literal infers exactly when the key and the value of its
      first entry with a non-`nil` value do; the value type is made optional
      when some value is `nil`. */
  lemma DictionaryLiteralInference(ds: seq<DictEntry>)
    ensures Infer(DictionaryLiteral(ds)).Ok? <==>
      exists i :: FirstNonNilValueAt(ds, i) && Infer(ds[i].key).Ok? && Infer(ds[i].value).Ok?
    ensures forall i :: FirstNonNilValueAt(ds, i) && Infer(ds[i].key).Ok? && Infer(ds[i].value).Ok? ==>
      Infer(DictionaryLiteral(ds)) == Ok(DictionaryType(Infer(ds[i].key).value,
        if ContainsNilValue(ds) then Optional(Infer(ds[i].value).value) else Infer(ds[i].value).value))
    ensures Infer(DictionaryLiteral(ds)).Err? ==> Infer(DictionaryLiteral(ds)).error == UnexpectedPattern
  {
  }

  /** `[:]` (no entries) is not understood. */
  lemma EmptyDictionaryFails()
    ensures Infer(DictionaryLiteral([])) == Err(UnexpectedPattern)
  {
  }

  /** A tuple literal infers exactly when every element does, to the tuple
      of the element types in order. */
  lemma TupleLiteralInference(es: seq<Expr>)
    ensures Infer(TupleLiteral(es)).Ok? <==> forall i :: 0 <= i < |es| ==> Infer(es[i]).Ok?
    ensures Infer(TupleLiteral(es)).Ok? ==>
      forall i :: 0 <= i < |es| ==>
        Infer(TupleLiteral(es)).value.elements[i] == TypeElement(None, None, Infer(es[i]).value)
    ensures Infer(TupleLiteral(es)).Err? ==> Infer(TupleLiteral(es)).error == UnexpectedPattern
  {
    var rs := seq(|es|, i requires 0 <= i < |es| => Infer(es[i]));
    assert forall i :: 0 <= i < |es| ==> rs[i] == Infer(es[i]);
  }

  /** Growing a tuple literal by one element grows its type by that element's type. */
  lemma TupleAppend(es: seq<Expr>, x: Expr)
    ensures Infer(TupleLiteral(es + [x])).Ok? <==> Infer(TupleLiteral(es)).Ok? && Infer(x).Ok?
    ensures Infer(TupleLiteral(es + [x])).Ok? ==>
      Infer(TupleLiteral(es + [x])).value.elements
        == Infer(TupleLiteral(es)).value.elements + [TypeElement(None, None, Infer(x).value)]
  {
    var es' := es + [x];
    TupleLiteralInference(es);
    TupleLiteralInference(es');
    assert forall i :: 0 <= i < |es| ==> es'[i] == es[i];
    assert es'[|es|] == x;
    if Infer(TupleLiteral(es')).Ok? {
      var a := Infer(TupleLiteral(es')).value.elements;
      var b := Infer(TupleLiteral(es)).value.elements + [TypeElement(None, None, Infer(x).value)];
      assert |a| == |b|;
      forall i | 0 <= i < |a|
        ensures a[i] == b[i]
      {
        if i < |es| {
          assert a[i] == TypeElement(None, None, Infer(es[i]).value);
        }
      }
    }
  }

  /** Parameter extraction distributes over a split parameter list, so order is kept. */
  lemma {:induction false} TypedParametersAppend(ps: seq<ClosureParameter>, qs: seq<ClosureParameter>)
    ensures TypedParameters(ps + qs) == TypedParameters(ps) + TypedParameters(qs)
    decreases |ps|
  {
    if |ps| == 0 {
      assert ps + qs == qs;
    } else {
      assert (ps + qs)[1..] == ps[1..] + qs;
      assert (ps + qs)[0] == ps[0];
      TypedParametersAppend(ps[1..], qs);
    }
  }

  /** A closure with a declared return type is a function of its typed
      parameters, its declared effects and that return type; its body is
      never looked at. */
  lemma ClosureWithReturnClause(sig: ClosureSignature, items: seq<CodeBlockItem>, other: seq<CodeBlockItem>)
    requires sig.returnClause.Some?
    ensures Infer(Closure(Some(sig), items))
      == Ok(FunctionType(ClosureParameters(Some(sig)), sig.effects, sig.returnClause.value))
    ensures Infer(Closure(Some(sig), items)) == Infer(Closure(Some(sig), other))
  {
  }

  /** The signature `sig` with its return clause, if any, removed. */
  function NoReturnType(sig: Option<ClosureSignature>): Option<ClosureSignature> {
    match sig
    case None => None
    case Some(s) => Some(ClosureSignature(s.parameterClause, s.effects, None))
  }

  /** Without a declared return type a closure is too complicated unless its
      body is one expression or one `return e`. */
  lemma ClosureShapesTooComplicated(sig: Option<ClosureSignature>, items: seq<CodeBlockItem>, text: string)
    ensures |items| != 1 ==> Infer(Closure(NoReturnType(sig), items)) == Err(ClosureTooComplicated)
    ensures Infer(Closure(NoReturnType(sig), [DeclItem(text)])) == Err(ClosureTooComplicated)
    ensures Infer(Closure(NoReturnType(sig), [StmtItem(OtherStmt(text))])) == Err(ClosureTooComplicated)
    ensures Infer(Closure(NoReturnType(sig), [StmtItem(ReturnStmt(None))])) == Err(ClosureTooComplicated)
  {
  }

  /** `{ e }` and `{ return e }` infer alike. */
  lemma ClosureReturnMatchesExpression(sig: Option<ClosureSignature>, x: Expr)
    ensures Infer(Closure(NoReturnType(sig), [ExprItem(x)]))
         == Infer(Closure(NoReturnType(sig), [StmtItem(ReturnStmt(Some(x)))]))
  {
  }

  /** One outer `try` marks the function `throws`, one `await` (under the
      `try`, or alone) marks it `async`; the remaining expression gives the
      return type, and its failure is reported as `ClosureTooComplicated`. */
  lemma ClosureEffects(sig: Option<ClosureSignature>, y: Expr)
    requires !y.Try? && !y.Await?
    ensures Infer(Closure(NoReturnType(sig), [ExprItem(y)])) == EffectfulClosure(sig, y, false, false)
    ensures Infer(Closure(NoReturnType(sig), [ExprItem(Try(y))])) == EffectfulClosure(sig, y, false, true)
    ensures Infer(Closure(NoReturnType(sig), [ExprItem(Await(y))])) == EffectfulClosure(sig, y, true, false)
    ensures Infer(Closure(NoReturnType(sig), [ExprItem(Try(Await(y)))])) == EffectfulClosure(sig, y, true, true)
  {
  }

  /** The type a closure returning `y` with the given effects is expected to have. */
  function EffectfulClosure(sig: Option<ClosureSignature>, y: Expr, isAsync: bool, isThrows: bool)
    : Result<Type, InferTypeError>
  {
    if Infer(y).Ok?
    then Ok(FunctionType(ClosureParameters(sig), Some(Effects(isAsync, isThrows)), Infer(y).value))
    else Err(ClosureTooComplicated)
  }

  /** Only one `try` and one `await` are unwrapped: `try try e` is too complicated. */
  lemma ClosureNestedEffectsTooComplicated(sig: Option<ClosureSignature>, y: Expr)
    ensures Infer(Closure(NoReturnType(sig), [ExprItem(Try(Try(y)))])) == Err(ClosureTooComplicated)
    ensures Infer(Closure(NoReturnType(sig), [ExprItem(Await(Await(y)))])) == Err(ClosureTooComplicated)
  {
    assert Infer(Try(y)) == Err(UnexpectedPattern);
    assert Infer(Await(y)) == Err(UnexpectedPattern);
  }

  /** A bare reference cannot be resolved; among calls only `UUID()` is known. */
  lemma ReferencesAndCalls(name: string, callee: Expr, text: string, args: seq<Expr>)
    ensures Infer(DeclReference(name)) == Err(CannotInferFromReference(name))
    ensures Infer(FunctionCall(DeclReference("UUID"), text, args)) == Ok(Named("UUID", []))
    ensures callee != DeclReference("UUID") ==>
      Infer(FunctionCall(callee, text, args)) == Err(CannotInferFromReference(text))
  {
  }

  /** Every expression outside the handled kinds is an unexpected pattern:
      a bare `try` or `await`, a cast operator or a type on its own, and
      anything else (member accesses, operators, ...). */
  lemma Fallback(t: string, y: Expr, m: CastMark, ty: Type)
    ensures Infer(OtherExpr(t)) == Err(UnexpectedPattern)
    ensures Infer(Try(y)) == Err(UnexpectedPattern)
    ensures Infer(Await(y)) == Err(UnexpectedPattern)
    ensures Infer(UnresolvedAs(m)) == Err(UnexpectedPattern)
    ensures Infer(TypeExpr(ty)) == Err(UnexpectedPattern)
    ensures Infer(NilLiteral) == Err(UnexpectedPattern)
  {
  }
}
