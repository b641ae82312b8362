/**
 * The closed set of syntax-tree shapes the rule looks at. The parser and the
 * tree it builds are external; the rule only reads node tags and a few
 * children, so every other node kind is folded into `OtherNode`.
 */
module Syntax {
  import opened Wrappers

  /** The runtime value of a `Literal` node's `value` property. */
  datatype LiteralValue =
    | StringValue(s: string)
    | NumberValue(n: int)
    | BooleanValue(b: bool)
    | NullValue

  datatype Node =
    | Identifier(name: string)
    | Literal(value: LiteralValue)
    | TemplateLiteral(quasis: seq<string>)
    | MemberExpression(obj: Node, property: Node)  // `obj` is ESTree's `object`
    | CallExpression(callee: Node, arguments: seq<Node>)
    | ObjectPattern(properties: seq<Node>)
    | Property(key: Node, alias: Node)
    | RestElement(argument: Node)
    | VariableDeclarator(id: Node, init: Option<Node>)
    | OtherNode(kind: string)

  /** `n?.id`: only a declarator carries a binding target in this model. */
  function IdOf(n: Option<Node>): (id: Option<Node>)
    ensures id.Some? <==> n.Some? && n.value.VariableDeclarator?
  {
    match n
    case Some(VariableDeclarator(id, _)) => Some(id)
    case _ => None
  }

  /** `types.isCallExpression(n)` for a possibly missing node. */
  predicate IsCallExpression(n: Option<Node>)
  {
    n.Some? && n.value.CallExpression?
  }

  /** `(callee as Identifier).name`: a name only when the callee is an identifier. */
  function CalleeName(callee: Node): (name: Option<string>)
    ensures name.Some? <==> callee.Identifier?
  {
    if callee.Identifier? then Some(callee.name) else None
  }

  /**
   * `(arg as StringLiteral).value` read as a string: `Some` exactly for a
   * string literal; every other argument (identifier, number, template
   * literal, spread) has a non-string or undefined `value`.
   */
  function StringValueOf(arg: Node): (v: Option<string>)
    ensures v.Some? <==> arg.Literal? && arg.value.StringValue?
  {
    match arg
    case Literal(StringValue(s)) => Some(s)
    case _ => None
  }
}
