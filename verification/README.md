# MacroEssentials, modelled in Dafny

MacroEssentials is a Swift library that helps people write Swift macros. Its
core is a small semantic layer on top of SwiftSyntax:

- **Type inference from surface syntax** (`SemanticAnalysis<ExprSyntax>.inferredType`).
  It guesses an expression's type with no compiler:
  - literals give `Int`, `Bool`, `Double` or `String`;
  - `x as? T` gives `T?`; `x as T` gives `T`;
  - an array or dictionary literal takes its type from the first non-`nil` element, made optional when a `nil` is present;
  - a tuple literal takes its type from every element;
  - a closure's function type comes from its signature, or from a one-line body with `try`/`await` turned into effects;
  - `UUID()` gives `UUID`;
  - everything else is an `InferTypeError`.
- **Binding types** (`SemanticAnalysis<PatternBindingSyntax>.inferredType`): the written annotation, else the initializer's inferred type.
- **Property classification** (`PropertyType(of:)`): stored constant or variable, computed, or static constant or variable.
- **Declaration-group helpers**:
  - `mapProperties` and `memberwiseMap` walk a type's properties;
  - `conformances` and `attachedMacros` list its inherited types and attached macros;
  - `appendInheritedTypes` adds a conformance.
- **Diagnostics**:
  - the "type cannot be inferred" diagnostic with a fix-it that annotates the declaration;
  - `DiagnosticsError` builders, including the "remove this macro" diagnostic.

Syntax nodes are modelled as immutable datatypes (module `Syntax`), and thrown errors as `Result` values (`Wrappers`). The modules follow the library's files:

- `TypeAnalysis` (`isOptional`)
- `ExprInference` and `InferenceProperties`
- `BindingInference`
- `PropertyTypes`
- `DeclGroups`
- `Diagnostics`
- `BindingDiagnostics`
- `MacroAnalysis`

The model's modelling choices:

- A rendered node (`description`) is carried as a string field: `FunctionCall.calleeText`, `Attribute.text`, `Attribute.nameText`. Whitespace trivia is not modelled, so a trimmed and an untrimmed pattern render alike.
- Diagnostic identifiers that the library builds from `UUID()` or from `Self.self` are parameters: `id` and `selfName`.
- A `fatalError` or a forced unwrap `!` becomes a `requires`:
  - `Classifiable` requires a `var`/`let` specifier, plus at least one binding when the declaration is not static;
  - a non-empty binding list is required where the diagnostic reads `decl.bindings.last!`.
- AppendInheritedType requires a present inheritance clause to list at least one type (`WellFormedClause`). Both copies of `appendInheritedTypes` call `index(before: endIndex)` on the existing list (Extensions/DeclGroupSyntax.swift:65, Mutations/DeclGroupSyntax.swift:21), and that traps on an empty list.

Details of what the code does, which the model keeps:

- Failures inside an array element, a dictionary key or value, or a tuple element are swallowed by `try?`, and the whole literal fails with `unexpectedPattern` rather than with the inner error.
- A closure with a declared return type copies its written effect specifiers into the function type.
- `shouldRemoveMacro` removes the attribute-list entry with a plain `remove(at:)`, so nothing else is adjusted.
- `appendInheritedTypes` is defined twice, in `Extensions/DeclGroupSyntax.swift` and `Mutations/DeclGroupSyntax.swift`. The two bodies are equivalent: the first builds the new entry with `.identifier(identifier)`, which is `IdentifierTypeSyntax(name: .identifier(identifier))` by Static Extensions/TypeSyntaxProtocol.swift:18-20, and that is what the second writes out. One Dafny function models both.

## Model

| member | source | states |
|---|---|---|
| TypeAnalysis.IsOptionalCases | Sources/MacroEssentials/SemanticAnalysis/TypeSyntaxProtocol.swift:15-20 | a type is optional exactly when it is written `T?` or is an identifier type named `Optional`, whatever its generic arguments (`Optional<Int>` is optional); array, dictionary, tuple, function and other types never are |
| ExprInference.Description | Sources/MacroEssentials/SemanticAnalysis/ExprSyntax.swift:161-178 | every inference error has a non-empty message (the library's four message texts) |
| ExprInference.DescriptionInjective | Sources/MacroEssentials/SemanticAnalysis/ExprSyntax.swift:167-178 | the message identifies the error: two reference errors with the same message name the same reference, and two other errors with the same message are the same case |
| ExprInference.FirstNonNil | Sources/MacroEssentials/SemanticAnalysis/ExprSyntax.swift:41 | finds the first element that is not `nil`, or reports that every element is `nil` |
| ExprInference.FirstNonNilValue | Sources/MacroEssentials/SemanticAnalysis/ExprSyntax.swift:51 | finds the first dictionary entry whose value is not `nil`, or reports that there is none |
| ExprInference.TypedParameters | Sources/MacroEssentials/SemanticAnalysis/ExprSyntax.swift:68-87 | closure parameters without a written type are dropped; each kept element carries its parameter's names and type; when every parameter is typed, none is lost |
| ExprInference.ClosureParameters | Sources/MacroEssentials/SemanticAnalysis/ExprSyntax.swift:68-87 | no signature, no parameter clause or a shorthand clause gives no parameters; a parenthesized clause gives at most one element per parameter, each with the type some parameter is annotated with, and one per parameter when all are annotated |
| ExprInference.TypedParameterNames | Sources/MacroEssentials/SemanticAnalysis/ExprSyntax.swift:68-87 | every type name in the kept parameter list occurs in some parameter's written annotation |
| ExprInference.Infer | Sources/MacroEssentials/SemanticAnalysis/ExprSyntax.swift:18-158 | no expression fails with the binding-only error; only references and calls fail with `cannotInferFromReference`, and only closures with `closureTooComplicated`; a closure yields a function type; array, dictionary and tuple literals yield their own kind of type, with a tuple keeping its arity |
| ExprInference.InferClosureBody | Sources/MacroEssentials/SemanticAnalysis/ExprSyntax.swift:103-134 | a one-line closure body yields a function type over the typed parameters with effect specifiers present, or `closureTooComplicated` |
| ExprInference.InferredNamesAreWritten | Sources/MacroEssentials/SemanticAnalysis/ExprSyntax.swift:18-158 | inference invents no type names: every name in an inferred type is a built-in literal type (`Int`, `Bool`, `Double`, `String`, `UUID`) or is written in the expression |
| ExprInference.ClosureNamesAreWritten | Sources/MacroEssentials/SemanticAnalysis/ExprSyntax.swift:67-138 | the same for closures: parameter, return and body types come from what the closure spells out |
| ExprInference.ArrayNamesAreWritten | Sources/MacroEssentials/SemanticAnalysis/ExprSyntax.swift:40-46 | an array literal's inferred type names only built-in types and names written in the literal |
| ExprInference.DictionaryNamesAreWritten | Sources/MacroEssentials/SemanticAnalysis/ExprSyntax.swift:49-57 | a dictionary literal's inferred type names only built-in types and names written in the literal |
| ExprInference.TupleNamesAreWritten | Sources/MacroEssentials/SemanticAnalysis/ExprSyntax.swift:60-64 | a tuple literal's inferred type names only built-in types and names written in the literal |
| ExprInference.SignatureNamesAreWritten | Sources/MacroEssentials/SemanticAnalysis/ExprSyntax.swift:68-90 | every type name in the parameter list taken into the function type occurs in a parameter annotation written in the signature, and every name of the return clause is written there too |
| ExprInference.ItemNamesAreWritten | Sources/MacroEssentials/SemanticAnalysis/ExprSyntax.swift:91-101 | the single body expression (bare or after `return`) is part of the closure's text |
| ExprInference.BodyNamesAreWritten | Sources/MacroEssentials/SemanticAnalysis/ExprSyntax.swift:103-134 | the function type built from a one-line body names only written or built-in types |
| ExprInference.ReturnedNamesAreWritten | Sources/MacroEssentials/SemanticAnalysis/ExprSyntax.swift:125-134 | wrapping the returned expression's type in a function type adds no names beyond the parameters' |
| InferenceProperties.LiteralsInfer | Sources/MacroEssentials/SemanticAnalysis/ExprSyntax.swift:21-29 | integer, boolean, float and string literals infer `Int`, `Bool`, `Double` and `String`; `nil` alone cannot be inferred |
| InferenceProperties.CastInfersTarget | Sources/MacroEssentials/SemanticAnalysis/ExprSyntax.swift:32-37 | `x as? T` infers `T?` and `x as T` or `x as! T` infers `T`, whatever `x` is |
| InferenceProperties.OtherSequencesFail | Sources/MacroEssentials/SemanticAnalysis/ExprSyntax.swift:32-37 | any other operator sequence is an unexpected pattern |
| InferenceProperties.ArrayLiteralInference | Sources/MacroEssentials/SemanticAnalysis/ExprSyntax.swift:40-46 | an array literal is inferred exactly when its first non-`nil` element is; its type is an array of that element's type, made optional when any element is `nil`; failure is always `unexpectedPattern` |
| InferenceProperties.EmptyOrAllNilArrayFails | Sources/MacroEssentials/SemanticAnalysis/ExprSyntax.swift:40-46 | `[]` and `[nil, nil]` cannot be inferred |
| InferenceProperties.ArrayWithNilHasOptionalElement | Sources/MacroEssentials/SemanticAnalysis/ExprSyntax.swift:43-44 | an inferred array containing `nil` has an optional element type |
| InferenceProperties.ArrayLaterElementsIgnored | Sources/MacroEssentials/SemanticAnalysis/ExprSyntax.swift:41-45 | appending a non-`nil` element to an inferable array leaves its type unchanged: later elements are never checked |
| InferenceProperties.ArrayNilAppended | Sources/MacroEssentials/SemanticAnalysis/ExprSyntax.swift:43-45 | appending `nil` makes the element type optional once, and never wraps it twice |
| InferenceProperties.DictionaryLiteralInference | Sources/MacroEssentials/SemanticAnalysis/ExprSyntax.swift:49-57 | a dictionary literal is inferred exactly when the key and value of its first entry with a non-`nil` value are; the value type is made optional when any value is `nil`; failure is `unexpectedPattern` |
| InferenceProperties.EmptyDictionaryFails | Sources/MacroEssentials/SemanticAnalysis/ExprSyntax.swift:49-57 | `[:]` cannot be inferred |
| InferenceProperties.TupleLiteralInference | Sources/MacroEssentials/SemanticAnalysis/ExprSyntax.swift:60-64 | a tuple literal is inferred exactly when every element is; its i-th element type is the i-th element's type, unlabeled; failure is `unexpectedPattern` |
| InferenceProperties.TupleAppend | Sources/MacroEssentials/SemanticAnalysis/ExprSyntax.swift:60-64 | growing a tuple literal by one element grows its type by that element's type |
| InferenceProperties.TypedParametersAppend | Sources/MacroEssentials/SemanticAnalysis/ExprSyntax.swift:68-87 | the parameter filter works parameter by parameter and keeps their order |
| InferenceProperties.ClosureWithReturnClause | Sources/MacroEssentials/SemanticAnalysis/ExprSyntax.swift:89-90 | a declared return type gives the function type of the typed parameters, written effects and that return type, whatever the body |
| InferenceProperties.ClosureShapesTooComplicated | Sources/MacroEssentials/SemanticAnalysis/ExprSyntax.swift:91-101 | without a return type, a body that is not exactly one expression or `return e` is too complicated |
| InferenceProperties.ClosureReturnMatchesExpression | Sources/MacroEssentials/SemanticAnalysis/ExprSyntax.swift:93-97 | `{ e }` and `{ return e }` infer the same type |
| InferenceProperties.ClosureEffects | Sources/MacroEssentials/SemanticAnalysis/ExprSyntax.swift:103-134 | one outer `try` makes the function `throws`, one `await` makes it `async`, and the rest gives the return type; an uninferable rest makes the closure too complicated |
| InferenceProperties.ClosureNestedEffectsTooComplicated | Sources/MacroEssentials/SemanticAnalysis/ExprSyntax.swift:105-125 | only one `try` and one `await` are unwrapped: `try try e` and `await await e` are too complicated |
| InferenceProperties.ReferencesAndCalls | Sources/MacroEssentials/SemanticAnalysis/ExprSyntax.swift:141-157 | a bare reference fails naming itself; `UUID(...)` infers `UUID`; any other call fails naming its rendered callee |
| InferenceProperties.Fallback | Sources/MacroEssentials/SemanticAnalysis/ExprSyntax.swift:157 | any other expression, including a bare `try` or `await`, a lone cast operator or type, `nil` and member accesses, is an unexpected pattern |
| BindingInference.InferBinding | Sources/MacroEssentials/SemanticAnalysis/PatternBindingSyntax.swift:16-27 | only an unannotated binding can fail; the binding-only error occurs exactly when there is neither annotation nor initializer; otherwise an unannotated binding takes its initializer's type |
| BindingInference.AnnotationWins | Sources/MacroEssentials/SemanticAnalysis/PatternBindingSyntax.swift:19-20 | a written annotation is the type, and the initializer is then irrelevant |
| BindingInference.InitializerPassesThrough | Sources/MacroEssentials/SemanticAnalysis/PatternBindingSyntax.swift:21-22 | without an annotation the initializer's result, success or error, is passed through unchanged |
| BindingInference.BindingNamesAreWritten | Sources/MacroEssentials/SemanticAnalysis/PatternBindingSyntax.swift:16-27 | a binding's inferred type names only written or built-in types |
| PropertyTypes.Classify | Sources/MacroEssentials/Structures/PropertyType.swift:26-64 | static kinds exactly for `static` declarations; constant kinds exactly for `let`; computed exactly for a non-static `var` whose last binding has a getter or a `get`/`set` accessor |
| PropertyTypes.ClassifyLooksAtLastBinding | Sources/MacroEssentials/Structures/PropertyType.swift:39-56 | bindings before the last never affect the kind |
| PropertyTypes.StaticIgnoresBindings | Sources/MacroEssentials/Structures/PropertyType.swift:27-37 | a static declaration's kind depends on its specifier alone |
| PropertyTypes.LetIsStoredConstant | Sources/MacroEssentials/Structures/PropertyType.swift:59-60 | a non-static `let` is a stored constant, even with observers |
| PropertyTypes.ObserversStayStored | Sources/MacroEssentials/Structures/PropertyType.swift:46-58 | `willSet`/`didSet` observers alone leave a `var` stored |
| PropertyTypes.DevelopmentTestCases | Tests/MacroEssentialsTests/DevelopmentTests.swift:9-18 | the seven declarations of the library's regression test get the kinds it expects |
| DeclGroups.ApplyHandler | Sources/MacroEssentials/Extensions/DeclGroupSyntax.swift:27-42 | applying the callback to a visit list stops at the first error, which is the first visit whose callback throws; a successful result has at most one value per visit, and exactly the callbacks' values in order when none returns `nil` |
| DeclGroups.ApplyHandlerSingle | Sources/MacroEssentials/Extensions/DeclGroupSyntax.swift:34-39 | one visit: a thrown error is rethrown, a `nil` result gives nothing, a value gives exactly that value |
| DeclGroups.ApplyHandlerSkipsNil | Sources/MacroEssentials/Extensions/DeclGroupSyntax.swift:34-39 | a visit whose callback returns `nil` is skipped: the result is that of the walk without it |
| DeclGroups.MapBindings | Sources/MacroEssentials/Extensions/DeclGroupSyntax.swift:34-39 | the inner `compactMap` yields at most one value per binding, and an error it reports is the one the callback threw for some plainly named binding |
| DeclGroups.MapMembers | Sources/MacroEssentials/Extensions/DeclGroupSyntax.swift:30-41 | members without variable declarations give no values; an error it reports is the error of some variable member's inner walk |
| DeclGroups.MapProperties | Sources/MacroEssentials/Extensions/DeclGroupSyntax.swift:30-41 | `mapProperties` equals the flat walk of the callback over the visits |
| DeclGroups.BindingVisits | Sources/MacroEssentials/Extensions/DeclGroupSyntax.swift:34-39 | every visit of one declaration is of one of its bindings with a plain identifier pattern, with that name and the declaration's kind; there are no more visits than bindings, and one per binding when all are plainly named |
| DeclGroups.BindingVisitsComplete | Sources/MacroEssentials/Extensions/DeclGroupSyntax.swift:34-39 | every binding with a plain identifier pattern is visited, with its name and the declaration's kind |
| DeclGroups.BindingVisitsAppend | Sources/MacroEssentials/Extensions/DeclGroupSyntax.swift:34-39 | bindings are visited in written order |
| DeclGroups.Visits | Sources/MacroEssentials/Extensions/DeclGroupSyntax.swift:30-39 | every visit is of an identifier binding of a variable member of the type, named by the identifier and carrying its declaration's kind |
| DeclGroups.VisitsComplete | Sources/MacroEssentials/Extensions/DeclGroupSyntax.swift:30-39 | every plainly named binding of every variable member is visited, with its name and its declaration's kind |
| DeclGroups.MapPropertiesIsFlatWalk | Sources/MacroEssentials/Extensions/DeclGroupSyntax.swift:27-42 | the nested map, compactMap and flatten equals the flat walk over the visits: same callbacks, same order, same first error |
| DeclGroups.MapBindingsIsFlat | Sources/MacroEssentials/Extensions/DeclGroupSyntax.swift:34-39 | the inner compactMap over one declaration's bindings is the flat walk over its visits |
| DeclGroups.ApplyHandlerAppend | Sources/MacroEssentials/Extensions/DeclGroupSyntax.swift:30-41 | walking two visit lists one after the other gives the first one's error, else the joined results |
| DeclGroups.VisitsAppend | Sources/MacroEssentials/Extensions/DeclGroupSyntax.swift:30-41 | members are visited in declaration order |
| DeclGroups.VisitsOfOneMember | Sources/MacroEssentials/Extensions/DeclGroupSyntax.swift:30-31 | members that are not variable declarations are skipped |
| DeclGroups.Conformances | Sources/MacroEssentials/Extensions/DeclGroupSyntax.swift:45-47 | a name is listed exactly when some inherited type is an identifier type of that name, generic arguments dropped (`Base<Int>` lists `Base`); no clause gives no conformances |
| DeclGroups.InheritedNamesAppend | Sources/MacroEssentials/Extensions/DeclGroupSyntax.swift:45-47 | conformances are listed in clause order |
| DeclGroups.AttachedMacros | Sources/MacroEssentials/Extensions/DeclGroupSyntax.swift:50-52 | a name is listed exactly when some attribute (not an `#if` block) is named by an identifier type of that name, generic arguments dropped (`@M<T>` lists `M`) |
| DeclGroups.AttributeNamesAppend | Sources/MacroEssentials/Extensions/DeclGroupSyntax.swift:50-52 | attached macros are listed in attribute order |
| DeclGroups.AppendInheritedType | Sources/MacroEssentials/Extensions/DeclGroupSyntax.swift:59-69 | a missing clause becomes the single new type; otherwise the new type is appended without a comma, the previous last entry gains a comma, earlier entries and everything else stay |
| DeclGroups.AppendInheritedTypeKeepsPunctuation | Sources/MacroEssentials/Mutations/DeclGroupSyntax.swift:15-25 | a clause where every entry but the last has a comma keeps that shape |
| DeclGroups.AppendInheritedTypeConforms | Sources/MacroEssentials/Mutations/DeclGroupSyntax.swift:15-25 | afterwards the conformances are the old ones followed by the new name |
| MacroAnalysis.MapDeclaration | Sources/MacroEssentials/Macro/MacroAnalysis.swift:50-55 | the loop over one declaration's bindings computes the compactMap the walk specifies |
| MacroAnalysis.MemberwiseMap | Sources/MacroEssentials/Macro/MacroAnalysis.swift:43-58 | the loop over members and bindings returns exactly what `mapProperties` does: the same values in order, or its first error |
| MacroAnalysis.GetType | Sources/MacroEssentials/Macro/MacroAnalysis.swift:68-106 | succeeds exactly when the binding's type is inferable, with that type; otherwise the `cannotInferType` diagnostic for the given name under the identifier `<macro>.cannotInferType.<name>`: anchored at and highlighting the declaration, with the library's message, a note at the binding carrying the inference error, and a "Declare Type" fix-it from the declaration to its copy with the last binding annotated |
| MacroAnalysis.GetTypeAgreesWithInferredTypeIn | Sources/MacroEssentials/Macro/MacroAnalysis.swift:68-106 | given the pattern's own name, `getType` reports what `inferredType(in:)` reports, differing only in the identifier's prefix |
| BindingDiagnostics.Placeholder | Sources/MacroEssentials/Extensions/PatternBindingSyntax.swift:23-29 | the offered type name is `<#type#>` unless the initializer calls a capitalised name, which is then offered |
| BindingDiagnostics.PlaceholderCases | Sources/MacroEssentials/Extensions/PatternBindingSyntax.swift:23-29 | `Foo()` offers `Foo`; `foo()`, a literal or no initializer offer `<#type#>` |
| BindingDiagnostics.AnnotateLastBinding | Sources/MacroEssentials/Extensions/PatternBindingSyntax.swift:32-40 | the fix-it keeps every binding but the last; the last keeps its pattern and initializer, gets the placeholder annotation and loses its accessors |
| BindingDiagnostics.CannotInferType | Sources/MacroEssentials/Extensions/PatternBindingSyntax.swift:42-51 | one diagnostic anchored at and highlighting the declaration, with a note at the binding carrying the error text and a "Declare Type" fix-it, all under one identifier |
| BindingDiagnostics.InferredTypeIn | Sources/MacroEssentials/Extensions/PatternBindingSyntax.swift:13-53 | succeeds exactly when the binding's type is inferable; otherwise the diagnostic identified by `PatternBindingSyntax.cannotInferType.<pattern>` |
| BindingDiagnostics.FixItMakesLastBindingTyped | Sources/MacroEssentials/Extensions/PatternBindingSyntax.swift:32-40 | after the fix-it, the last binding's type is inferable: it is the placeholder |
| BindingDiagnostics.FixItTargetsLastBinding | Sources/MacroEssentials/Extensions/PatternBindingSyntax.swift:18-47 | when an earlier binding fails, the note points at it while the fix-it leaves it as written and edits the last binding |
| Diagnostics.WithFixIt | Sources/MacroEssentials/Errors/DiagnosticsError.swift:15-26 | one diagnostic at the node whose fix-it replaces the old node with its edited copy; diagnostic and fix-it share one identifier |
| Diagnostics.HighlightOnly | Sources/MacroEssentials/Errors/DiagnosticsError.swift:28-33 | one diagnostic at the node with the title and no fix-it |
| Diagnostics.FirstIndexOf | Sources/MacroEssentials/Errors/DiagnosticsError.swift:45 | the first attribute-list entry rendered like the macro, or none when no entry is |
| Diagnostics.RemoveAt | Sources/MacroEssentials/Errors/DiagnosticsError.swift:47-49 | removing one entry keeps those before it and moves those after it up by one |
| Diagnostics.ShouldRemoveMacro | Sources/MacroEssentials/Errors/DiagnosticsError.swift:41-53 | one diagnostic at the macro with the caller's message; it has a "Remove `name`" fix-it over the attribute list exactly when some entry is rendered like the macro, and that fix-it shortens the list by one |
| Diagnostics.ShouldRemoveMacroRemovesFirstMatch | Sources/MacroEssentials/Errors/DiagnosticsError.swift:45-49 | the entry removed is the first one rendered like the macro |
| Diagnostics.ShouldRemoveMacroKeepsOthers | Sources/MacroEssentials/Errors/DiagnosticsError.swift:45-49 | the surviving entries are, as a bag, the old ones less one copy of a matching entry |
| Diagnostics.AttachedMacroIsRemovable | Sources/MacroEssentials/Errors/DiagnosticsError.swift:41-53 | a macro attached exactly as written is always offered for removal |

## Left out

- Whitespace trivia and source rendering. Nodes carry their rendered text as strings, and the spacing the library puts around inserted tokens (commas, colons, trailing spaces) is not modelled.
- `dump(item.expression)` at `ExprSyntax.swift:110` is debugging output with no effect on the result.
- `UUID().description` identifiers and the `Self.self` type name are parameters. The `MacroCollection` message domain and the `.error` severity of `DiagnosedMessage` are constant, so they are not modelled.
- `Character.isUppercase` is Unicode-aware; `BindingDiagnostics.IsUppercase` recognises only `A`–`Z`.
- The `declaration` parameter of `getType` is unused by the library and is dropped.
- `SemanticAnalysis`, `Macro.analysis` and the `analysis` accessors are one-line wrappers; they are not modelled.
- The token and identifier operator files, `Array`, `Boolean` and `FunctionEffectSpecifier` extensions are not part of this model.
- `MemberwiseMap` and `MapProperties` model the callback as a pure function returning a `Result`. Swift's `rethrows` and any side effects of the callback are not modelled.
- Infer: a closure parameter's labels are kept, but its `inout`, ellipsis and trailing comma are not modelled.
- DescriptionInjective: does not compare a reference error's message with the fixed messages, because that comparison needs character-level reasoning about string literals the prover does not do here; the four messages are visibly different in their first words.
