/** The fragment of the Swift syntax tree the library inspects, as immutable
    datatypes. Each constructor stands for one SwiftSyntax node kind; kinds the
    library never distinguishes are folded into an `Other…` constructor.
    Trivia (whitespace, comments) is not represented, and where the library
    compares or prints a node's rendered `description` the node carries that
    text as a string. */
module Syntax {
  import opened Wrappers

  /** `async` / `throws` effect specifiers (`TypeEffectSpecifiersSyntax`). */
  datatype Effects = Effects(isAsync: bool, isThrows: bool)

  /** Type syntax (`TypeSyntaxProtocol`): both what a user writes and the
      descriptors the inferencer builds. */
  datatype Type =
    | Named(name: string, genericArguments: seq<Type>)  // IdentifierTypeSyntax, `Name` or `Name<A, B>`
    | Optional(wrapped: Type)                      // OptionalTypeSyntax, `T?`
    | ArrayType(element: Type)                     // `[T]`
    | DictionaryType(key: Type, value: Type)       // `[K: V]`
    | TupleType(elements: seq<TypeElement>)        // `(A, B)`
    | FunctionType(parameters: seq<TypeElement>, effects: Option<Effects>, returnType: Type)
    | Missing(placeholder: string)                 // MissingTypeSyntax, an editor placeholder
    | OtherType(text: string)                      // member types, `some P`, `any P`, ...

  /** One element of a tuple type or of a function type's parameter list. */
  datatype TypeElement = TypeElement(firstName: Option<string>, secondName: Option<string>, elementType: Type)

  /** The optional mark after `as`: `as`, `as?` or `as!`. */
  datatype CastMark = Plain | Question | Exclamation

  /** Expression syntax (`ExprSyntax`). */
  datatype Expr =
    | IntegerLiteral
    | BooleanLiteral
    | FloatLiteral
    | StringLiteral                                // simple or interpolated string literal
    | NilLiteral
    | Sequence(elements: seq<Expr>)                // unfolded operator sequence, e.g. `x as? T`
    | UnresolvedAs(mark: CastMark)                 // the `as` operator inside a sequence
    | TypeExpr(typ: Type)                          // a type in expression position
    | ArrayLiteral(elements: seq<Expr>)
    | DictionaryLiteral(entries: seq<DictEntry>)   // `[:]` is the empty entry list
    | TupleLiteral(elements: seq<Expr>)
    | Closure(signature: Option<ClosureSignature>, statements: seq<CodeBlockItem>)
    | Try(expression: Expr)                        // `try`, `try?` or `try!`
    | Await(expression: Expr)
    | DeclReference(baseName: string)              // a bare name, `b`
    | FunctionCall(callee: Expr, calleeText: string, arguments: seq<Expr>)
    | OtherExpr(text: string)                      // member access, operators, ...

  datatype DictEntry = DictEntry(key: Expr, value: Expr)

  /** `{ (a: Int) async throws -> T in ... }`: every part is optional. */
  datatype ClosureSignature = ClosureSignature(
    parameterClause: Option<ParameterClause>,
    effects: Option<Effects>,
    returnClause: Option<Type>)

  /** `a, b in` (shorthand, no types) or `(a: Int, b) in` (parenthesized). */
  datatype ParameterClause =
    | ShorthandParameters(names: seq<string>)
    | ParenthesizedParameters(parameters: seq<ClosureParameter>)

  datatype ClosureParameter = ClosureParameter(firstName: string, secondName: Option<string>, paramType: Option<Type>)

  /** One statement of a code block. */
  datatype CodeBlockItem = ExprItem(expr: Expr) | StmtItem(stmt: Stmt) | DeclItem(text: string)

  datatype Stmt = ReturnStmt(returned: Option<Expr>) | OtherStmt(text: string)

  /** Binding patterns: `a` in `let a = 1`, or a tuple/wildcard pattern. */
  datatype Pattern = IdentifierPattern(identifier: string) | OtherPattern(text: string)

  datatype AccessorSpecifier = Get | Set | WillSet | DidSet | OtherAccessor(keyword: string)

  /** `{ get {..} set {..} }` / `{ didSet {..} }`, or the implicit getter `{ 2 }`. */
  datatype AccessorBlock =
    | Accessors(accessors: seq<AccessorSpecifier>)
    | Getter(statements: seq<CodeBlockItem>)

  /** One binding of a variable declaration (`PatternBindingSyntax`). */
  datatype PatternBinding = PatternBinding(
    pattern: Pattern,
    typeAnnotation: Option<Type>,
    initializer: Option<Expr>,
    accessorBlock: Option<AccessorBlock>)

  /** The `var` / `let` keyword; the parser also admits `inout` and the like. */
  datatype BindingSpecifier = Var | Let | OtherSpecifier(keyword: string)

  /** `@A static var a = 1, b: Int` (`VariableDeclSyntax`); modifiers by keyword text. */
  datatype VariableDecl = VariableDecl(
    attributes: seq<AttributeElement>,
    modifiers: seq<string>,
    specifier: BindingSpecifier,
    bindings: seq<PatternBinding>)

  /** An attribute such as `@Codable`, with its name type, the rendered name
      and the rendered text of the whole attribute. */
  datatype Attribute = Attribute(name: Type, nameText: string, text: string)

  /** An attribute list holds attributes and `#if` blocks. */
  datatype AttributeElement = AttributeItem(attribute: Attribute) | IfConfigItem(text: string)

  /** One entry of an inheritance clause, with its trailing comma. */
  datatype InheritedType = InheritedType(inherited: Type, trailingComma: bool)

  datatype Member = VariableMember(decl: VariableDecl) | OtherMember(text: string)

  /** A struct, class, enum, actor or extension (`DeclGroupSyntax`). */
  datatype DeclGroup = DeclGroup(
    attributes: seq<AttributeElement>,
    modifiers: seq<string>,
    inheritanceClause: Option<seq<InheritedType>>,
    members: seq<Member>)

  /** The nodes a diagnostic can point at or replace. */
  datatype Node =
    | VariableDeclNode(decl: VariableDecl)
    | BindingNode(binding: PatternBinding)
    | AttributeNode(attribute: Attribute)
    | AttributeListNode(elements: seq<AttributeElement>)

  /** The rendered text of an attribute-list entry. */
  function ElementText(e: AttributeElement): string {
    match e
    case AttributeItem(a) => a.text
    case IfConfigItem(t) => t
  }

  /** The rendered text of a pattern. */
  function PatternText(p: Pattern): string {
    match p
    case IdentifierPattern(n) => n
    case OtherPattern(t) => t
  }
}
