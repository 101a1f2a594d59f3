/** The type of one variable binding (`SemanticAnalysis<PatternBindingSyntax>.inferredType`):
    the written annotation, else the initializer's inferred type. */
module BindingInference {
  import opened Wrappers
  import opened Syntax
  import opened TypeAnalysis
  import opened ExprInference

  function InferBinding(b: PatternBinding): (r: Result<Type, InferTypeError>)
    // an annotated binding never fails
    ensures r.Err? ==> b.typeAnnotation.None?
    // the binding-level failure arises exactly for a bare `var a`
    ensures r == Err(CannotInferBindingWithoutTypeOrInitializer) <==> b.typeAnnotation.None? && b.initializer.None?
    // the accessor block and pattern play no part
    ensures r.Ok? && b.typeAnnotation.None? ==> r == Infer(b.initializer.value)
  {
    if b.typeAnnotation.Some? then Ok(b.typeAnnotation.value)
    else if b.initializer.Some? then Infer(b.initializer.value)
    else Err(CannotInferBindingWithoutTypeOrInitializer)
  }

  /** A written annotation is returned as written, whatever the initializer. */
  lemma AnnotationWins(b: PatternBinding, init: Option<Expr>)
    requires b.typeAnnotation.Some?
    ensures InferBinding(b) == Ok(b.typeAnnotation.value)
    ensures InferBinding(b.(initializer := init)) == InferBinding(b)
  {
  }

  /** Without an annotation the initializer's result, failure included, is passed on unchanged. */
  lemma InitializerPassesThrough(b: PatternBinding)
    requires b.typeAnnotation.None? && b.initializer.Some?
    ensures InferBinding(b) == Infer(b.initializer.value)
  {
  }

  /** The names in a binding's type are written in the binding or built in. */
  lemma BindingNamesAreWritten(b: PatternBinding)
    requires InferBinding(b).Ok?
    ensures b.typeAnnotation.Some? ==> TypeNames(InferBinding(b).value) == TypeNames(b.typeAnnotation.value)
    ensures b.typeAnnotation.None? ==>
      TypeNames(InferBinding(b).value) <= BuiltinNames + WrittenNames(b.initializer.value)
  {
    if b.typeAnnotation.None? {
      InferredNamesAreWritten(b.initializer.value);
    }
  }
}
