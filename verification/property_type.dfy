/** The five kinds of property (`PropertyType`) and how a variable
    declaration is classified (`PropertyType.init(of:)`). */
module PropertyTypes {
  import opened Wrappers
  import opened Syntax

  datatype PropertyType = StoredConstant | StoredVariable | Computed | StaticConstant | StaticVariable

  /** Some modifier of the declaration is the `static` keyword. */
  predicate IsStatic(d: VariableDecl) {
    exists i :: 0 <= i < |d.modifiers| && d.modifiers[i] == "static"
  }

  /** What classification needs of its input: a `var` or `let` specifier
      (any other one stops the program) and, unless the declaration is
      static, a last binding to inspect. */
  predicate Classifiable(d: VariableDecl) {
    (d.specifier.Var? || d.specifier.Let?) && (IsStatic(d) || |d.bindings| > 0)
  }

  /** An accessor block that defines the property's value: the implicit
      getter `{ 2 }`, or an accessor list with `get` or `set`. Observers
      (`willSet`, `didSet`) alone do not. */
  predicate DefinesAccessors(block: AccessorBlock) {
    match block
    case Getter(_) => true
    case Accessors(list) => exists i :: 0 <= i < |list| && (list[i] == Get || list[i] == Set)
  }

  predicate IsComputedBinding(b: PatternBinding) {
    b.accessorBlock.Some? && DefinesAccessors(b.accessorBlock.value)
  }

  function Classify(d: VariableDecl): (r: PropertyType)
    requires Classifiable(d)
    // static-ness decides the static kinds, ignoring accessors
    ensures r.StaticConstant? || r.StaticVariable? <==> IsStatic(d)
    // mutability follows the specifier
    ensures r.StoredConstant? || r.StaticConstant? <==> d.specifier.Let?
    // only a non-static `var` whose last binding defines accessors is computed
    ensures r.Computed? <==> !IsStatic(d) && d.specifier.Var? && IsComputedBinding(d.bindings[|d.bindings| - 1])
  {
    if IsStatic(d) then
      if d.specifier.Var? then StaticVariable else StaticConstant
    else
      var binding := d.bindings[|d.bindings| - 1];
      if d.specifier.Var? then
        match binding.accessorBlock
        case None => StoredVariable
        case Some(Accessors(list)) =>
          if exists i :: 0 <= i < |list| && (list[i] == Get || list[i] == Set) then Computed else StoredVariable
        case Some(Getter(_)) => Computed
      else StoredConstant
  }

  /** Only the last binding is consulted: earlier bindings never matter. */
  lemma ClassifyLooksAtLastBinding(d: VariableDecl, earlier: seq<PatternBinding>)
    requires Classifiable(d) && |d.bindings| > 0
    ensures Classifiable(d.(bindings := earlier + d.bindings))
    ensures Classify(d.(bindings := earlier + d.bindings)) == Classify(d)
  {
    var d' := d.(bindings := earlier + d.bindings);
    assert d'.bindings[|d'.bindings| - 1] == d.bindings[|d.bindings| - 1];
    assert IsStatic(d') == IsStatic(d);
  }

  /** A static declaration's kind depends on its specifier alone. */
  lemma StaticIgnoresBindings(d: VariableDecl, bindings: seq<PatternBinding>)
    requires Classifiable(d) && IsStatic(d)
    ensures Classifiable(d.(bindings := bindings))
    ensures Classify(d.(bindings := bindings)) == Classify(d)
    ensures Classify(d) == if d.specifier.Var? then StaticVariable else StaticConstant
  {
    assert IsStatic(d.(bindings := bindings)) == IsStatic(d);
  }

  /** A non-static `let` is a stored constant, even with observers. */
  lemma LetIsStoredConstant(d: VariableDecl)
    requires Classifiable(d) && !IsStatic(d) && d.specifier.Let?
    ensures Classify(d) == StoredConstant
  {
  }

  /** Observers alone leave a `var` stored, whatever their order or number. */
  lemma ObserversStayStored(d: VariableDecl)
    requires Classifiable(d) && !IsStatic(d) && d.specifier.Var?
    requires var b := d.bindings[|d.bindings| - 1];
      b.accessorBlock.Some? && b.accessorBlock.value.Accessors? &&
      forall i :: 0 <= i < |b.accessorBlock.value.accessors| ==>
        b.accessorBlock.value.accessors[i] in {WillSet, DidSet}
    ensures Classify(d) == StoredVariable
  {
  }

  /** The seven declarations of the library's own regression test. */
  lemma DevelopmentTestCases()
    ensures Classify(Decl(Let, Some(IntegerLiteral), None)) == StoredConstant                       // let a = 2
    ensures Classify(Decl(Let, Some(IntegerLiteral), Some(Accessors([DidSet])))) == StoredConstant  // let a = 2 { didSet {} }
    ensures Classify(Decl(Var, Some(IntegerLiteral), None)) == StoredVariable                       // var a = 2
    ensures Classify(Decl(Var, Some(IntegerLiteral), Some(Accessors([DidSet])))) == StoredVariable  // var a = 2 { didSet {} }
    ensures Classify(Decl(Var, Some(IntegerLiteral), Some(Accessors([DidSet, WillSet])))) == StoredVariable
    ensures Classify(Decl(Var, None, Some(Getter([ExprItem(IntegerLiteral)])))) == Computed          // var a { 2 }
    ensures Classify(Decl(Var, None, Some(Accessors([Get])))) == Computed                          // var a { get { 2 } }
  {
    assert Get in [Get];
  }

  /** `<specifier> a <= init> <accessors>` with no attributes or modifiers. */
  function Decl(specifier: BindingSpecifier, init: Option<Expr>, block: Option<AccessorBlock>): VariableDecl {
    VariableDecl([], [], specifier, [PatternBinding(IdentifierPattern("a"), None, init, block)])
  }
}
