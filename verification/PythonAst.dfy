/** The part of a Python syntax tree that scripts/check_reachability.py looks at. */
module PythonAst {
  import opened Prelude

  /** A dotted name as its parts; the empty text has the one part "". */
  type Dotted = seq<string>

  datatype Alias = Alias(name: Dotted, asname: Option<string>)

  datatype Node =
    | Import(names: seq<Alias>)
    | ImportFrom(source: Option<Dotted>, names: seq<Alias>, level: nat)
    /** `header`: decorators, arguments, annotations or bases, which belong to the outer scope. */
    | FunctionDef(name: string, header: seq<Node>, body: seq<Node>)
    | ClassDef(name: string, header: seq<Node>, body: seq<Node>)
    | Name(id: string, load: bool)
    | Call(func: Node, args: seq<Node>, keywords: seq<Node>)
    | Attribute(value: Node, attr: string)
    | Constant(text: Option<string>)
    | Other(children: seq<Node>)

  /** The nodes directly below a node, in the order in which they are visited. */
  function Children(node: Node): seq<Node> {
    match node
    case FunctionDef(_, header, body) => header + body
    case ClassDef(_, header, body) => header + body
    case Call(func, args, keywords) => [func] + args + keywords
    case Attribute(value, _) => [value]
    case Other(children) => children
    case _ => []
  }

  predicate IsDefinition(node: Node) {
    node.FunctionDef? || node.ClassDef?
  }
}
