/** The analyses a macro reaches through `Self.analysis` (`MacroAnalysis`):
    a loop over a type's stored and computed properties, and the type of
    one of them with a diagnostic when it cannot be inferred. */
module MacroAnalysis {
  import opened Wrappers
  import opened Syntax
  import opened PropertyTypes
  import opened ExprInference
  import opened BindingInference
  import opened DeclGroups
  import opened Diagnostics
  import opened BindingDiagnostics

  lemma MembersSuffixClassifiable(ms: seq<Member>, i: nat)
    requires i <= |ms|
    requires MembersClassifiable(ms)
    ensures MembersClassifiable(ms[i..])
  {
    forall k | 0 <= k < |ms[i..]|
      ensures ms[i..][k].VariableMember? && HasIdentifierBinding(ms[i..][k].decl.bindings) ==> Classifiable(ms[i..][k].decl)
    {
      assert ms[i..][k] == ms[i + k];
    }
  }

  lemma ThenUnit<T, E>(x: Result<seq<T>, E>)
    ensures Then(Ok([]), x) == x
  {
    if x.Ok? {
      assert [] + x.value == x.value;
    }
  }

  /** One step of the member walk: the first member's bindings, then the rest. */
  lemma {:induction false} MembersStep<T, E>(ms: seq<Member>, h: Handler<T, E>, out: seq<T>)
    requires |ms| > 0 && MembersClassifiable(ms)
    ensures MembersClassifiable(ms[1..])
    ensures ms[0].VariableMember? ==> HasIdentifierBinding(ms[0].decl.bindings) ==> Classifiable(ms[0].decl)
    ensures var line := if ms[0].VariableMember? then MapBindings(ms[0].decl, ms[0].decl.bindings, h) else Ok([]);
      Then(Ok(out), MapMembers(ms, h)) ==
        if line.Err? then Err(line.error) else Then(Ok(out + line.value), MapMembers(ms[1..], h))
  {
    MembersSuffixClassifiable(ms, 1);
    var line := if ms[0].VariableMember? then MapBindings(ms[0].decl, ms[0].decl.bindings, h) else Ok([]);
    var rest := MapMembers(ms[1..], h);
    if line.Ok? && rest.Ok? {
      assert out + (line.value + rest.value) == (out + line.value) + rest.value;
    }
  }

  /** One step of the binding walk: the first binding, then the rest. */
  lemma {:induction false} BindingsStep<T, E>(d: VariableDecl, bs: seq<PatternBinding>, h: Handler<T, E>, out: seq<T>)
    requires |bs| > 0 && (HasIdentifierBinding(bs) ==> Classifiable(d))
    ensures HasIdentifierBinding(bs[1..]) ==> Classifiable(d)
    ensures bs[0].pattern.IdentifierPattern? ==> Classifiable(d)
    ensures var head := if bs[0].pattern.IdentifierPattern? then h(bs[0], d, bs[0].pattern.identifier, Classify(d)) else Ok(None);
      Then(Ok(out), MapBindings(d, bs, h)) ==
        if head.Err? then Err(head.error)
        else Then(Ok(out + if head.value.Some? then [head.value.value] else []), MapBindings(d, bs[1..], h))
  {
    IdentifierBindingInTail(bs);
    if bs[0].pattern.IdentifierPattern? {
      assert HasIdentifierBinding(bs);
    }
    var head := if bs[0].pattern.IdentifierPattern? then h(bs[0], d, bs[0].pattern.identifier, Classify(d)) else Ok(None);
    var rest := MapBindings(d, bs[1..], h);
    if head.Ok? && rest.Ok? {
      var x := if head.value.Some? then [head.value.value] else [];
      assert out + (x + rest.value) == (out + x) + rest.value;
    }
  }

  /** The bindings of one declaration, walked with a loop; `out` collects
      the handler's non-nil results. */
  method MapDeclaration<T, E>(d: VariableDecl, h: Handler<T, E>) returns (r: Result<seq<T>, E>)
    requires HasIdentifierBinding(d.bindings) ==> Classifiable(d)
    ensures r == MapBindings(d, d.bindings, h)
  {
    var bs := d.bindings;
    var out: seq<T> := [];
    var j := 0;
    assert bs[0..] == bs;
    ThenUnit(MapBindings(d, bs, h));
    while j < |bs|
      invariant 0 <= j <= |bs|
      invariant HasIdentifierBinding(bs[j..]) ==> Classifiable(d)
      invariant MapBindings(d, bs, h) == Then(Ok(out), MapBindings(d, bs[j..], h))
    {
      BindingsStep(d, bs[j..], h, out);
      assert bs[j..][1..] == bs[j + 1..];
      assert bs[j..][0] == bs[j];
      if bs[j].pattern.IdentifierPattern? {
        var res := h(bs[j], d, bs[j].pattern.identifier, Classify(d));
        if res.Err? {
          return Err(res.error);
        }
        if res.value.Some? {
          out := out + [res.value.value];
        } else {
          assert out + [] == out;
        }
      } else {
        assert out + [] == out;
      }
      j := j + 1;
    }
    assert out + [] == out;
    return Ok(out);
  }

  /** `memberwiseMap(for:handler:)`: every plainly named binding of every
      variable member, in order, handed to `h` with its declaration, name
      and property kind; `nil` results are dropped and the first thrown
      error is rethrown. */
  method MemberwiseMap<T, E>(g: DeclGroup, h: Handler<T, E>) returns (r: Result<seq<T>, E>)
    requires MembersClassifiable(g.members)
    ensures r == MapProperties(g, h)
  {
    var ms := g.members;
    var out: seq<T> := [];
    var i := 0;
    assert ms[0..] == ms;
    ThenUnit(MapMembers(ms, h));
    while i < |ms|
      invariant 0 <= i <= |ms|
      invariant MembersClassifiable(ms[i..])
      invariant MapMembers(ms, h) == Then(Ok(out), MapMembers(ms[i..], h))
    {
      MembersStep(ms[i..], h, out);
      assert ms[i..][1..] == ms[i + 1..];
      assert ms[i..][0] == ms[i];
      var line: Result<seq<T>, E> := Ok([]);
      if ms[i].VariableMember? {
        line := MapDeclaration(ms[i].decl, h);
      }
      if line.Err? {
        return Err(line.error);
      }
      out := out + line.value;
      i := i + 1;
    }
    assert out + [] == out;
    return Ok(out);
  }

  /** `getType(for:decl:name:of:)`: the binding's inferred type, or the
      diagnostic for it, identified by `selfName` (the analysing macro's
      type name) and the property name. */
  function GetType(selfName: string, variable: PatternBinding, decl: VariableDecl, name: string): (r: Result<Type, DiagnosticsError>)
    requires InferBinding(variable).Ok? || |decl.bindings| > 0
    ensures r.Ok? <==> InferBinding(variable).Ok?
    ensures r.Ok? ==> r.value == InferBinding(variable).value
    ensures r.Err? ==>
      var id := selfName + ".cannotInferType." + name;
      && |r.error.diagnostics| == 1
      && r.error.diagnostics[0].message == Message("Type of `" + name + "` cannot be inferred, please declare explicitly", id)
      && r.error.diagnostics[0].notes == [Note(BindingNode(variable), Message(Description(InferBinding(variable).error), id))]
      && |r.error.diagnostics[0].fixIts| == 1
      && r.error.diagnostics[0].fixIts[0].newNode == VariableDeclNode(AnnotateLastBinding(decl))
    ensures r.Err? ==>
      r.error == CannotInferType(decl, variable, name, selfName + ".cannotInferType." + name, InferBinding(variable).error)
  {
    match InferBinding(variable)
    case Ok(t) => Ok(t)
    case Err(err) => Err(CannotInferType(decl, variable, name, selfName + ".cannotInferType." + name, err))
  }

  /** With the name `memberwiseMap` passes, `getType` and
      `inferredType(in:)` report the same diagnostic up to its identifier's
      prefix. */
  lemma GetTypeAgreesWithInferredTypeIn(selfName: string, variable: PatternBinding, decl: VariableDecl)
    requires InferBinding(variable).Ok? || |decl.bindings| > 0
    ensures var name := PatternText(variable.pattern);
      var a := GetType(selfName, variable, decl, name);
      var b := InferredTypeIn(variable, decl);
      && a.Ok? == b.Ok?
      && (a.Ok? ==> a == b)
      && (a.Err? ==>
            && a.error == CannotInferType(decl, variable, name, selfName + ".cannotInferType." + name, InferBinding(variable).error)
            && b.error == CannotInferType(decl, variable, name, "PatternBindingSyntax.cannotInferType." + name, InferBinding(variable).error))
  {
  }
}
