/** The "type cannot be inferred" diagnostic built when a stored property's
    type is asked for and inference fails, with its fix-it that writes a
    type placeholder onto the declaration's last binding
    (`PatternBindingSyntax.inferredType(in:)`). */
module BindingDiagnostics {
  import opened Wrappers
  import opened Syntax
  import opened ExprInference
  import opened BindingInference
  import opened Diagnostics

  const DefaultPlaceholder := "<#type#>"

  predicate IsUppercase(c: char) {
    'A' <= c <= 'Z'
  }

  /** The type name offered in the fix-it: the callee of an initializer
      `Name(...)` whose name starts with a capital letter, else the editor
      placeholder. */
  function Placeholder(last: PatternBinding): (s: string)
    ensures s == DefaultPlaceholder || (
      && last.initializer.Some?
      && last.initializer.value.FunctionCall?
      && last.initializer.value.callee == DeclReference(s)
      && |s| > 0 && IsUppercase(s[0]))
  {
    match last.initializer
    case Some(FunctionCall(DeclReference(n), _, _)) =>
      if |n| > 0 && IsUppercase(n[0]) then n else DefaultPlaceholder
    case _ => DefaultPlaceholder
  }

  /** The declaration with its last binding replaced by one that keeps the
      pattern and initializer and is annotated with the placeholder type. */
  function AnnotateLastBinding(decl: VariableDecl): (fixed: VariableDecl)
    requires |decl.bindings| > 0
    ensures fixed.attributes == decl.attributes && fixed.modifiers == decl.modifiers && fixed.specifier == decl.specifier
    ensures |fixed.bindings| == |decl.bindings|
    ensures forall i :: 0 <= i < |decl.bindings| - 1 ==> fixed.bindings[i] == decl.bindings[i]
    ensures var last := decl.bindings[|decl.bindings| - 1];
      fixed.bindings[|fixed.bindings| - 1] == PatternBinding(last.pattern, Some(Missing(Placeholder(last))), last.initializer, None)
  {
    var n := |decl.bindings| - 1;
    var last := decl.bindings[n];
    decl.(bindings := decl.bindings[n := PatternBinding(last.pattern, Some(Missing(Placeholder(last))), last.initializer, None)])
  }

  /** The diagnostic for `binding` of `decl` whose inference failed with `err`:
      anchored at and highlighting the declaration, a note at the binding
      carrying the inference error, and a fix-it annotating the last binding.
      `shown` is the name in the messages; every message shares `id`. */
  function CannotInferType(decl: VariableDecl, binding: PatternBinding, shown: string, id: string, err: InferTypeError): (r: DiagnosticsError)
    requires |decl.bindings| > 0
    ensures |r.diagnostics| == 1
    ensures var d := r.diagnostics[0];
      && d.node == VariableDeclNode(decl)
      && d.message == Message("Type of `" + shown + "` cannot be inferred, please declare explicitly", id)
      && d.highlights == Some([VariableDeclNode(decl)])
      && d.notes == [Note(BindingNode(binding), Message(Description(err), id))]
      && |d.fixIts| == 1
      && d.fixIts[0].message == Message("Declare Type for `" + shown + "`", id)
      && d.fixIts[0].oldNode == VariableDeclNode(decl)
      && d.fixIts[0].newNode == VariableDeclNode(AnnotateLastBinding(decl))
  {
    DiagnosticsError([
      Diagnostic(VariableDeclNode(decl),
                 Message("Type of `" + shown + "` cannot be inferred, please declare explicitly", id),
                 Some([VariableDeclNode(decl)]),
                 [Note(BindingNode(binding), Message(Description(err), id))],
                 [Replace(Message("Declare Type for `" + shown + "`", id), VariableDeclNode(decl), VariableDeclNode(AnnotateLastBinding(decl)))])
    ])
  }

  /** The binding's type, or the diagnostic explaining why it has none.
      The identifier is the binding node's type name, then the pattern. */
  function InferredTypeIn(binding: PatternBinding, decl: VariableDecl): (r: Result<Type, DiagnosticsError>)
    requires InferBinding(binding).Ok? || |decl.bindings| > 0
    ensures r.Ok? <==> InferBinding(binding).Ok?
    ensures r.Ok? ==> r.value == InferBinding(binding).value
    ensures r.Err? ==>
      var name := PatternText(binding.pattern);
      r.error == CannotInferType(decl, binding, name, "PatternBindingSyntax.cannotInferType." + name, InferBinding(binding).error)
  {
    match InferBinding(binding)
    case Ok(t) => Ok(t)
    case Err(err) =>
      var name := PatternText(binding.pattern);
      Err(CannotInferType(decl, binding, name, "PatternBindingSyntax.cannotInferType." + name, err))
  }

  /** Accepting the fix-it settles the question: the declaration's last
      binding then has a type, the placeholder. */
  lemma FixItMakesLastBindingTyped(decl: VariableDecl)
    requires |decl.bindings| > 0
    ensures var fixed := AnnotateLastBinding(decl);
      var last := decl.bindings[|decl.bindings| - 1];
      InferBinding(fixed.bindings[|fixed.bindings| - 1]) == Ok(Missing(Placeholder(last)))
  {
    var fixed := AnnotateLastBinding(decl);
    AnnotationWins(fixed.bindings[|fixed.bindings| - 1], fixed.bindings[|fixed.bindings| - 1].initializer);
  }

  /** The fix-it always edits the LAST binding: a failing binding written
      earlier in `var a = f(), b = g()` is left as it was, and the note still
      points at it. */
  lemma FixItTargetsLastBinding(decl: VariableDecl, i: nat)
    requires i < |decl.bindings| - 1
    requires InferBinding(decl.bindings[i]).Err?
    ensures var r := InferredTypeIn(decl.bindings[i], decl);
      && r.Err?
      && r.error.diagnostics[0].notes[0].node == BindingNode(decl.bindings[i])
      && r.error.diagnostics[0].fixIts[0].newNode.decl.bindings[i] == decl.bindings[i]
  {
  }

  /** The placeholder names the constructor only for capitalised calls:
      `Foo()` offers `Foo`, while `foo()` or a literal offers `<#type#>`. */
  lemma PlaceholderCases(b: PatternBinding, n: string, text: string, args: seq<Expr>)
    ensures b.initializer == Some(FunctionCall(DeclReference(n), text, args)) && |n| > 0 && IsUppercase(n[0]) ==>
      Placeholder(b) == n
    ensures b.initializer == Some(FunctionCall(DeclReference(n), text, args)) && (|n| == 0 || !IsUppercase(n[0])) ==>
      Placeholder(b) == DefaultPlaceholder
    ensures b.initializer.None? || !b.initializer.value.FunctionCall? ==> Placeholder(b) == DefaultPlaceholder
  {
  }
}
