/** Walking and editing a type declaration (`DeclGroupSyntax` extensions):
    mapping over its stored and computed properties, listing its
    conformances and attached macros, and adding a conformance. */
module DeclGroups {
  import opened Wrappers
  import opened Syntax
  import opened PropertyTypes

  /** A caller's per-binding callback: it may produce a value, skip the
      binding (`None`), or throw. Its arguments are the binding, the
      declaration holding it, the binding's name and the declaration's kind. */
  type Handler<T, E> = (PatternBinding, VariableDecl, string, PropertyType) -> Result<Option<T>, E>

  predicate HasIdentifierBinding(bs: seq<PatternBinding>) {
    exists i :: 0 <= i < |bs| && bs[i].pattern.IdentifierPattern?
  }

  /** Every declaration whose bindings will be handed to the callback can be classified. */
  predicate MembersClassifiable(ms: seq<Member>) {
    forall i :: 0 <= i < |ms| && ms[i].VariableMember? && HasIdentifierBinding(ms[i].decl.bindings) ==>
      Classifiable(ms[i].decl)
  }

  // ---------------------------------------------------------------------
  // mapProperties, as written: map over members, compactMap over bindings,
  // flatten; the first thrown error ends the walk.
  // ---------------------------------------------------------------------

  /** A binding list's tail has a plainly named binding only if the list does. */
  lemma IdentifierBindingInTail(bs: seq<PatternBinding>)
    requires |bs| > 0
    ensures HasIdentifierBinding(bs[1..]) ==> HasIdentifierBinding(bs)
  {
    if HasIdentifierBinding(bs[1..]) {
      var i :| 0 <= i < |bs[1..]| && bs[1..][i].pattern.IdentifierPattern?;
      assert bs[i + 1] == bs[1..][i];
    }
  }

  /** The inner `compactMap` over one declaration's bindings. */
  function MapBindings<T, E>(d: VariableDecl, bs: seq<PatternBinding>, h: Handler<T, E>): (r: Result<seq<T>, E>)
    requires HasIdentifierBinding(bs) ==> Classifiable(d)
    ensures r.Ok? ==> |r.value| <= |bs|
    ensures r.Err? ==> exists i :: 0 <= i < |bs| && bs[i].pattern.IdentifierPattern? &&
                                   h(bs[i], d, bs[i].pattern.identifier, Classify(d)) == Err(r.error)
  {
    if |bs| == 0 then Ok([])
    else
      IdentifierBindingInTail(bs);
      var head := if bs[0].pattern.IdentifierPattern?
        then h(bs[0], d, bs[0].pattern.identifier, Classify(d))
        else Ok(None);
      if head.Err? then Err(head.error)
      else
        match MapBindings(d, bs[1..], h)
        case Err(e) => Err(e)
        case Ok(rest) => Ok((if head.value.Some? then [head.value.value] else []) + rest)
  }

  /** The outer `map` over the members, flattened. */
  function MapMembers<T, E>(ms: seq<Member>, h: Handler<T, E>): (r: Result<seq<T>, E>)
    requires MembersClassifiable(ms)
    ensures (forall j :: 0 <= j < |ms| ==> !ms[j].VariableMember?) ==> r == Ok([])
    ensures r.Err? ==> exists j :: 0 <= j < |ms| && ms[j].VariableMember? &&
                                   MapBindings(ms[j].decl, ms[j].decl.bindings, h) == Err(r.error)
  {
    if |ms| == 0 then Ok([])
    else
      var line := if ms[0].VariableMember? then MapBindings(ms[0].decl, ms[0].decl.bindings, h) else Ok([]);
      assert forall j :: 1 <= j < |ms| ==> ms[j] == ms[1..][j - 1];
      if line.Err? then Err(line.error)
      else
        match MapMembers(ms[1..], h)
        case Err(e) => Err(e)
        case Ok(rest) =>
          assert (forall j :: 0 <= j < |ms| ==> !ms[j].VariableMember?) ==> line.value + rest == [] by {
            if forall j :: 0 <= j < |ms| ==> !ms[j].VariableMember? {
              assert line.value == [] && rest == [];
            }
          }
          Ok(line.value + rest)
  }

  /** `mapProperties(handler:)`: the callbacks' non-`nil` results over the
      type's stored and computed properties, or the first thrown error. */
  function MapProperties<T, E>(g: DeclGroup, h: Handler<T, E>): (r: Result<seq<T>, E>)
    requires MembersClassifiable(g.members)
    ensures r == ApplyHandler(Visits(g.members), h)
  {
    MapPropertiesIsFlatWalk(g.members, h);
    MapMembers(g.members, h)
  }

  // ---------------------------------------------------------------------
  // The walk's reference meaning: the flat list of visits, and the
  // callback applied to each in turn.
  // ---------------------------------------------------------------------

  /** One callback invocation's arguments. */
  datatype Visit = Visit(binding: PatternBinding, decl: VariableDecl, name: string, kind: PropertyType)

  function Call<T, E>(h: Handler<T, E>, v: Visit): Result<Option<T>, E> {
    h(v.binding, v.decl, v.name, v.kind)
  }

  /** The visits for one declaration's bindings: those with a plain name, in order. */
  function BindingVisits(d: VariableDecl, bs: seq<PatternBinding>): (vs: seq<Visit>)
    requires HasIdentifierBinding(bs) ==> Classifiable(d)
    ensures |vs| <= |bs|
    ensures forall k :: 0 <= k < |vs| ==>
      vs[k].decl == d && vs[k].binding in bs && vs[k].binding.pattern == IdentifierPattern(vs[k].name)
    ensures HasIdentifierBinding(bs) ==> forall k :: 0 <= k < |vs| ==> vs[k].kind == Classify(d)
    ensures (forall i :: 0 <= i < |bs| ==> bs[i].pattern.IdentifierPattern?) ==> |vs| == |bs|
  {
    if |bs| == 0 then []
    else
      IdentifierBindingInTail(bs);
      var rest := BindingVisits(d, bs[1..]);
      if bs[0].pattern.IdentifierPattern? then
        [Visit(bs[0], d, bs[0].pattern.identifier, Classify(d))] + rest
      else rest
  }

  /** No plainly named binding is missed: each is visited, with its own name
      and its declaration's kind. */
  lemma {:induction false} BindingVisitsComplete(d: VariableDecl, bs: seq<PatternBinding>, i: nat)
    requires HasIdentifierBinding(bs) ==> Classifiable(d)
    requires i < |bs| && bs[i].pattern.IdentifierPattern?
    ensures Visit(bs[i], d, bs[i].pattern.identifier, Classify(d)) in BindingVisits(d, bs)
    decreases |bs|
  {
    IdentifierBindingInTail(bs);
    if i > 0 {
      assert bs[i] == bs[1..][i - 1];
      BindingVisitsComplete(d, bs[1..], i - 1);
    }
  }

  /** Bindings are visited in written order: a split binding list visits each part in turn. */
  lemma {:induction false} BindingVisitsAppend(d: VariableDecl, bs: seq<PatternBinding>, cs: seq<PatternBinding>)
    requires HasIdentifierBinding(bs + cs) ==> Classifiable(d)
    ensures HasIdentifierBinding(bs) ==> Classifiable(d)
    ensures HasIdentifierBinding(cs) ==> Classifiable(d)
    ensures BindingVisits(d, bs + cs) == BindingVisits(d, bs) + BindingVisits(d, cs)
    decreases |bs|
  {
    if HasIdentifierBinding(bs) {
      var i :| 0 <= i < |bs| && bs[i].pattern.IdentifierPattern?;
      assert (bs + cs)[i] == bs[i];
    }
    if HasIdentifierBinding(cs) {
      var i :| 0 <= i < |cs| && cs[i].pattern.IdentifierPattern?;
      assert (bs + cs)[|bs| + i] == cs[i];
    }
    if |bs| == 0 {
      assert bs + cs == cs;
    } else {
      assert (bs + cs)[0] == bs[0];
      assert (bs + cs)[1..] == bs[1..] + cs;
      IdentifierBindingInTail(bs + cs);
      BindingVisitsAppend(d, bs[1..], cs);
    }
  }

  /** The visits of a member list: its variable declarations' visits, in member order. */
  function Visits(ms: seq<Member>): (vs: seq<Visit>)
    requires MembersClassifiable(ms)
    ensures forall k :: 0 <= k < |vs| ==> vs[k].binding.pattern == IdentifierPattern(vs[k].name)
    ensures forall k :: 0 <= k < |vs| ==> Classifiable(vs[k].decl) && vs[k].kind == Classify(vs[k].decl)
    ensures forall k :: 0 <= k < |vs| ==> VariableMember(vs[k].decl) in ms && vs[k].binding in vs[k].decl.bindings
  {
    if |ms| == 0 then []
    else
      var here := if ms[0].VariableMember? then BindingVisits(ms[0].decl, ms[0].decl.bindings) else [];
      assert forall k :: 0 <= k < |here| ==> Classifiable(here[k].decl) by {
        if |here| > 0 {
          assert ms[0].VariableMember?;
          var b := here[0].binding;
          assert b in ms[0].decl.bindings && b.pattern.IdentifierPattern?;
          assert HasIdentifierBinding(ms[0].decl.bindings);
        }
      }
      here + Visits(ms[1..])
  }

  /** The callback applied to each visit in order, `None`s dropped, stopping
      at the first error. */
  function ApplyHandler<T, E>(vs: seq<Visit>, h: Handler<T, E>): (r: Result<seq<T>, E>)
    ensures r.Ok? ==> |r.value| <= |vs|
    ensures r.Err? <==> exists i :: 0 <= i < |vs| && Call(h, vs[i]).Err?
    ensures r.Err? ==> exists k :: 0 <= k < |vs| && Call(h, vs[k]) == Err(r.error)
                                   && forall j :: 0 <= j < k ==> Call(h, vs[j]).Ok?
    ensures (forall i :: 0 <= i < |vs| ==> Call(h, vs[i]).Ok? && Call(h, vs[i]).value.Some?) ==>
      r.Ok? && |r.value| == |vs| && forall i :: 0 <= i < |vs| ==> r.value[i] == Call(h, vs[i]).value.value
  {
    if |vs| == 0 then Ok([])
    else
      var head := Call(h, vs[0]);
      if head.Err? then Err(head.error)
      else
        var tail := ApplyHandler(vs[1..], h);
        assert forall i :: 1 <= i < |vs| ==> vs[i] == vs[1..][i - 1];
        if tail.Err? then
          assert exists k :: 0 <= k < |vs| && Call(h, vs[k]) == Err(tail.error)
                             && forall j :: 0 <= j < k ==> Call(h, vs[j]).Ok? by {
            var k :| 0 <= k < |vs[1..]| && Call(h, vs[1..][k]) == Err(tail.error)
                     && forall j :: 0 <= j < k ==> Call(h, vs[1..][j]).Ok?;
            assert Call(h, vs[k + 1]) == Err(tail.error);
          }
          Err(tail.error)
        else
          Ok((if head.value.Some? then [head.value.value] else []) + tail.value)
  }

  /** Chaining two walks: the first one's error wins, otherwise the outputs are joined. */
  function Then<T, E>(a: Result<seq<T>, E>, b: Result<seq<T>, E>): Result<seq<T>, E> {
    match a
    case Err(e) => Err(e)
    case Ok(x) => match b
      case Err(e) => Err(e)
      case Ok(y) => Ok(x + y)
  }

  lemma {:induction false} ApplyHandlerAppend<T, E>(a: seq<Visit>, b: seq<Visit>, h: Handler<T, E>)
    ensures ApplyHandler(a + b, h) == Then(ApplyHandler(a, h), ApplyHandler(b, h))
    decreases |a|
  {
    if |a| == 0 {
      assert a + b == b;
      if ApplyHandler(b, h).Ok? {
        assert [] + ApplyHandler(b, h).value == ApplyHandler(b, h).value;
      }
    } else {
      assert (a + b)[0] == a[0];
      assert (a + b)[1..] == a[1..] + b;
      ApplyHandlerAppend(a[1..], b, h);
      var head := Call(h, a[0]);
      if head.Ok? && ApplyHandler(a[1..], h).Ok? && ApplyHandler(b, h).Ok? {
        var x := if head.value.Some? then [head.value.value] else [];
        var t := ApplyHandler(a[1..], h).value;
        var u := ApplyHandler(b, h).value;
        assert (x + t) + u == x + (t + u);
      }
    }
  }

  /** One visit: a thrown error is rethrown, `nil` is dropped, a value is kept. */
  lemma {:induction false} ApplyHandlerSingle<T, E>(v: Visit, h: Handler<T, E>)
    ensures ApplyHandler([v], h) == match Call(h, v)
      case Err(e) => Err(e)
      case Ok(None) => Ok([])
      case Ok(Some(x)) => Ok([x])
  {
    assert [v][1..] == [];
    assert ApplyHandler([v][1..], h) == Ok([]);
    match Call(h, v)
    case Err(_) =>
    case Ok(None) =>
    case Ok(Some(x)) => assert [x] + [] == [x];
  }

  /** A visit whose callback returns `nil` leaves no trace: the walk gives
      what it gives with that visit removed. */
  lemma {:induction false} ApplyHandlerSkipsNil<T, E>(vs: seq<Visit>, i: nat, h: Handler<T, E>)
    requires i < |vs| && Call(h, vs[i]) == Ok(None)
    ensures ApplyHandler(vs, h) == ApplyHandler(vs[..i] + vs[i + 1..], h)
  {
    var a, b := vs[..i], vs[i + 1..];
    assert vs == a + ([vs[i]] + b);
    ApplyHandlerAppend(a, [vs[i]] + b, h);
    ApplyHandlerAppend(a, b, h);
    NilHead(vs[i], b, h);
  }

  lemma {:induction false} NilHead<T, E>(v: Visit, b: seq<Visit>, h: Handler<T, E>)
    requires Call(h, v) == Ok(None)
    ensures ApplyHandler([v] + b, h) == ApplyHandler(b, h)
  {
    assert ([v] + b)[0] == v;
    assert ([v] + b)[1..] == b;
    var c := ApplyHandler(b, h);
    if c.Ok? {
      assert [] + c.value == c.value;
    }
  }

  lemma {:induction false} MapBindingsIsFlat<T, E>(d: VariableDecl, bs: seq<PatternBinding>, h: Handler<T, E>)
    requires HasIdentifierBinding(bs) ==> Classifiable(d)
    ensures MapBindings(d, bs, h) == ApplyHandler(BindingVisits(d, bs), h)
    decreases |bs|
  {
    if |bs| > 0 {
      IdentifierBindingInTail(bs);
      MapBindingsIsFlat(d, bs[1..], h);
      if bs[0].pattern.IdentifierPattern? {
        var v := Visit(bs[0], d, bs[0].pattern.identifier, Classify(d));
        var vs := BindingVisits(d, bs);
        assert vs == [v] + BindingVisits(d, bs[1..]);
        assert vs[0] == v && vs[1..] == BindingVisits(d, bs[1..]);
      } else if MapBindings(d, bs[1..], h).Ok? {
        var rest := MapBindings(d, bs[1..], h).value;
        assert [] + rest == rest;
      }
    }
  }

  /** The nested walk `mapProperties` performs is the flat walk over the
      visits: the same callbacks, in member order and then binding order,
      with the same first error. */
  lemma {:induction false} MapPropertiesIsFlatWalk<T, E>(ms: seq<Member>, h: Handler<T, E>)
    requires MembersClassifiable(ms)
    ensures MapMembers(ms, h) == ApplyHandler(Visits(ms), h)
    decreases |ms|
  {
    if |ms| > 0 {
      MapPropertiesIsFlatWalk(ms[1..], h);
      var here := if ms[0].VariableMember? then BindingVisits(ms[0].decl, ms[0].decl.bindings) else [];
      if ms[0].VariableMember? {
        MapBindingsIsFlat(ms[0].decl, ms[0].decl.bindings, h);
      }
      ApplyHandlerAppend(here, Visits(ms[1..]), h);
    }
  }

  /** Visits follow member order: a split member list visits each part in turn. */
  lemma {:induction false} VisitsAppend(ms: seq<Member>, ns: seq<Member>)
    requires MembersClassifiable(ms) && MembersClassifiable(ns)
    ensures MembersClassifiable(ms + ns)
    ensures Visits(ms + ns) == Visits(ms) + Visits(ns)
    decreases |ms|
  {
    if |ms| == 0 {
      assert ms + ns == ns;
    } else {
      assert (ms + ns)[0] == ms[0];
      assert (ms + ns)[1..] == ms[1..] + ns;
      VisitsAppend(ms[1..], ns);
    }
  }

  /** No plainly named binding of any variable member is missed. */
  lemma {:induction false} VisitsComplete(ms: seq<Member>, j: nat, i: nat)
    requires MembersClassifiable(ms)
    requires j < |ms| && ms[j].VariableMember?
    requires i < |ms[j].decl.bindings| && ms[j].decl.bindings[i].pattern.IdentifierPattern?
    ensures var d := ms[j].decl;
      Visit(d.bindings[i], d, d.bindings[i].pattern.identifier, Classify(d)) in Visits(ms)
    decreases |ms|
  {
    var d := ms[j].decl;
    var here := if ms[0].VariableMember? then BindingVisits(ms[0].decl, ms[0].decl.bindings) else [];
    assert Visits(ms) == here + Visits(ms[1..]);
    if j == 0 {
      assert HasIdentifierBinding(d.bindings);
      BindingVisitsComplete(d, d.bindings, i);
    } else {
      assert ms[j] == ms[1..][j - 1];
      VisitsComplete(ms[1..], j - 1, i);
    }
  }

  /** Members that are not variable declarations are skipped; a variable
      declaration is visited once per plainly named binding. */
  lemma VisitsOfOneMember(d: VariableDecl, text: string)
    requires HasIdentifierBinding(d.bindings) ==> Classifiable(d)
    ensures MembersClassifiable([VariableMember(d)])
    ensures Visits([OtherMember(text)]) == []
    ensures Visits([VariableMember(d)]) == BindingVisits(d, d.bindings)
  {
    assert [VariableMember(d)][1..] == [];
  }

  // ---------------------------------------------------------------------
  // conformances and attachedMacros
  // ---------------------------------------------------------------------

  /** The entries of an inheritance clause written as an identifier type, in
      order; generic arguments are not part of the name (`Base<Int>` lists `Base`). */
  function InheritedNames(ts: seq<InheritedType>): (r: seq<string>)
    ensures |r| <= |ts|
    ensures forall n :: n in r <==> exists i :: 0 <= i < |ts| && ts[i].inherited.Named? && ts[i].inherited.name == n
  {
    if |ts| == 0 then []
    else
      var rest := InheritedNames(ts[1..]);
      assert forall i :: 1 <= i < |ts| ==> ts[i] == ts[1..][i - 1];
      (if ts[0].inherited.Named? then [ts[0].inherited.name] else []) + rest
  }

  function Conformances(g: DeclGroup): (r: seq<string>)
    ensures g.inheritanceClause.None? ==> r == []
    ensures forall n :: n in r <==>
      g.inheritanceClause.Some? && exists i :: 0 <= i < |g.inheritanceClause.value| &&
                                               g.inheritanceClause.value[i].inherited.Named? && g.inheritanceClause.value[i].inherited.name == n
  {
    match g.inheritanceClause
    case None => []
    case Some(ts) => InheritedNames(ts)
  }

  /** Order is kept: names of a split clause are the names of each part in turn. */
  lemma {:induction false} InheritedNamesAppend(ts: seq<InheritedType>, us: seq<InheritedType>)
    ensures InheritedNames(ts + us) == InheritedNames(ts) + InheritedNames(us)
    decreases |ts|
  {
    if |ts| == 0 {
      assert ts + us == us;
    } else {
      assert (ts + us)[0] == ts[0];
      assert (ts + us)[1..] == ts[1..] + us;
      InheritedNamesAppend(ts[1..], us);
      var head := if ts[0].inherited.Named? then [ts[0].inherited.name] else [];
      var rest := InheritedNames(ts[1..]);
      assert InheritedNames(ts) == head + rest;
      assert InheritedNames(ts + us) == head + (rest + InheritedNames(us));
      assert head + (rest + InheritedNames(us)) == (head + rest) + InheritedNames(us);
    }
  }

  /** The names of attached attributes whose name is an identifier type, in
      order, without generic arguments (`@M<T>` lists `M`); `#if` blocks are skipped. */
  function AttributeNames(es: seq<AttributeElement>): (r: seq<string>)
    ensures |r| <= |es|
    ensures forall n :: n in r <==>
      exists i :: 0 <= i < |es| && es[i].AttributeItem? && es[i].attribute.name.Named? && es[i].attribute.name.name == n
  {
    if |es| == 0 then []
    else
      var rest := AttributeNames(es[1..]);
      assert forall i :: 1 <= i < |es| ==> es[i] == es[1..][i - 1];
      (if es[0].AttributeItem? && es[0].attribute.name.Named? then [es[0].attribute.name.name] else []) + rest
  }

  function AttachedMacros(g: DeclGroup): (r: seq<string>)
    ensures forall n :: n in r <==>
      exists i :: 0 <= i < |g.attributes| && g.attributes[i].AttributeItem? && g.attributes[i].attribute.name.Named? && g.attributes[i].attribute.name.name == n
  {
    AttributeNames(g.attributes)
  }

  lemma {:induction false} AttributeNamesAppend(es: seq<AttributeElement>, fs: seq<AttributeElement>)
    ensures AttributeNames(es + fs) == AttributeNames(es) + AttributeNames(fs)
    decreases |es|
  {
    if |es| == 0 {
      assert es + fs == fs;
    } else {
      assert (es + fs)[0] == es[0];
      assert (es + fs)[1..] == es[1..] + fs;
      AttributeNamesAppend(es[1..], fs);
      var head := if es[0].AttributeItem? && es[0].attribute.name.Named? then [es[0].attribute.name.name] else [];
      var rest := AttributeNames(es[1..]);
      assert AttributeNames(es) == head + rest;
      assert AttributeNames(es + fs) == head + (rest + AttributeNames(fs));
      assert head + (rest + AttributeNames(fs)) == (head + rest) + AttributeNames(fs);
    }
  }

  // ---------------------------------------------------------------------
  // appendInheritedTypes
  // ---------------------------------------------------------------------

  /** Every entry but the last carries a comma; the last does not. */
  predicate Punctuated(ts: seq<InheritedType>) {
    |ts| > 0 && !ts[|ts| - 1].trailingComma && forall i :: 0 <= i < |ts| - 1 ==> ts[i].trailingComma
  }

  /** An inheritance clause, when present, lists at least one type. */
  predicate WellFormedClause(g: DeclGroup) {
    g.inheritanceClause.None? || |g.inheritanceClause.value| > 0
  }

  /** Adds `identifier` as the last inherited type, creating the clause if needed. */
  function AppendInheritedType(g: DeclGroup, identifier: string): (r: DeclGroup)
    requires WellFormedClause(g)
    ensures r.attributes == g.attributes && r.modifiers == g.modifiers && r.members == g.members
    ensures g.inheritanceClause.None? ==> r.inheritanceClause == Some([InheritedType(Named(identifier, []), false)])
    ensures r.inheritanceClause.Some?
    ensures g.inheritanceClause.Some? ==>
      var old_ := g.inheritanceClause.value;
      var new_ := r.inheritanceClause.value;
      && |new_| == |old_| + 1
      && new_[|old_|] == InheritedType(Named(identifier, []), false)
      && new_[|old_| - 1] == old_[|old_| - 1].(trailingComma := true)
      && forall i :: 0 <= i < |old_| - 1 ==> new_[i] == old_[i]
    ensures WellFormedClause(r)
  {
    match g.inheritanceClause
    case None => g.(inheritanceClause := Some([InheritedType(Named(identifier, []), false)]))
    case Some(ts) =>
      var last := |ts| - 1;
      g.(inheritanceClause := Some(ts[..last] + [ts[last].(trailingComma := true)] + [InheritedType(Named(identifier, []), false)]))
  }

  /** Appending keeps a clause punctuated. */
  lemma AppendInheritedTypeKeepsPunctuation(g: DeclGroup, identifier: string)
    requires WellFormedClause(g)
    requires g.inheritanceClause.Some? ==> Punctuated(g.inheritanceClause.value)
    ensures Punctuated(AppendInheritedType(g, identifier).inheritanceClause.value)
  {
  }

  /** The new conformance is listed last, after the old ones. */
  lemma AppendInheritedTypeConforms(g: DeclGroup, identifier: string)
    requires WellFormedClause(g)
    ensures Conformances(AppendInheritedType(g, identifier)) == Conformances(g) + [identifier]
  {
    var r := AppendInheritedType(g, identifier);
    match g.inheritanceClause
    case None =>
      assert InheritedNames([InheritedType(Named(identifier, []), false)]) == [identifier];
    case Some(ts) =>
      var last := |ts| - 1;
      var front := ts[..last] + [ts[last].(trailingComma := true)];
      var added := [InheritedType(Named(identifier, []), false)];
      assert r.inheritanceClause.value == front + added;
      InheritedNamesAppend(front, added);
      InheritedNamesAppend(ts[..last], [ts[last].(trailingComma := true)]);
      InheritedNamesAppend(ts[..last], [ts[last]]);
      assert ts[..last] + [ts[last]] == ts;
      assert InheritedNames([ts[last].(trailingComma := true)]) == InheritedNames([ts[last]]);
      assert InheritedNames(added) == [identifier];
  }
}
