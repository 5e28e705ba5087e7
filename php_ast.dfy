/**
 * The part of a PHP-Parser syntax tree that the reference scanner looks at,
 * and the depth-first, pre-order walk `NodeTraverser::traverse` makes over
 * it when a visitor can answer "do not traverse children".
 */
module PhpAst {

  datatype Option<T> = None | Some(value: T)

  /** Which `Node\Name` class a name is: `getType()` gives `Name` only for
      `Plain`; `Name\FullyQualified` (`\Foo`) and `Name\Relative`
      (`namespace\Foo`) are subclasses, so `instanceof Node\Name` holds for
      all three. */
  datatype NameKind = Plain | FullyQualified | Relative

  /** A `Node\Name`; its `parts` are `[head] + tail` (the leading backslash of
      a fully qualified name is not a part). */
  datatype Name = Name(kind: NameKind, head: string, tail: seq<string>)

  /** A member of a type declaration: a builtin `Node\Identifier` (`int`,
      `array`, ...) or a class `Node\Name`. */
  datatype SimpleType = Identifier(id: string) | TypeName(name: Name)

  /** The `returnType` of a function or method, or the `type` of a parameter:
      absent, a lone identifier or name, `?T`, or `A|B|...`. */
  datatype TypeNode =
    | NoType
    | Simple(simple: SimpleType)
    | Nullable(inner: SimpleType)
    | Union(members: seq<SimpleType>)

  /** The `class` of `new`, `instanceof` and a static call: a name, or any
      other expression (a variable, an anonymous class, ...). */
  datatype ClassRef = ClassName(name: Name) | ClassExpr

  /** The `name` of a function call: a name, or an expression such as `$f`. */
  datatype Callee = CalleeName(name: Name) | CalleeExpr

  /** The node classes the two visitors distinguish; every other node class
      (interfaces, traits, statements, other expressions, parameters, names,
      identifiers, ...) is `Other`. */
  datatype Kind =
    | ClassDecl(name: string, parent: Option<Name>)                              // Stmt\Class_
    | FunctionDecl(name: string, returnType: TypeNode, paramTypes: seq<TypeNode>) // Stmt\Function_
    | MethodDecl(returnType: TypeNode, paramTypes: seq<TypeNode>)             // Stmt\ClassMethod
    | FuncCall(callee: Callee)                                                 // Expr\FuncCall
    | New(cls: ClassRef)                                                       // Expr\New_
    | InstanceOf(cls: ClassRef)                                                // Expr\Instanceof_
    | StaticCall(cls: ClassRef)                                                // Expr\StaticCall
    | Other

  /** A node and its sub-nodes, in the order the traverser visits them. */
  datatype Node = Node(kind: Kind, children: seq<Node>)

  /** What `enterNode` returns: `null`, or `DONT_TRAVERSE_CHILDREN`. */
  datatype Action = Continue | DontTraverseChildren

  /** The nodes a visitor's `enterNode` is called on, in call order, when the
      visitor answers `DontTraverseChildren` exactly for the kinds `prune`
      accepts: each node is entered before its children, and the children of a
      pruned node are skipped. */
  function Preorder(nodes: seq<Node>, prune: Kind -> bool): seq<Node>
  {
    if nodes == [] then []
    else
      [nodes[0]]
      + (if prune(nodes[0].kind) then [] else Preorder(nodes[0].children, prune))
      + Preorder(nodes[1..], prune)
  }

  /** The node at `path` (one child index per level), provided no node
      strictly above it on the way down is pruned. */
  function Reach(nodes: seq<Node>, path: seq<nat>, prune: Kind -> bool): Option<Node>
    decreases nodes
  {
    if path == [] || path[0] >= |nodes| then None
    else if |path| == 1 then Some(nodes[path[0]])
    else if prune(nodes[path[0]].kind) then None
    else Reach(nodes[path[0]].children, path[1..], prune)
  }

  /** Traversing two lists one after the other is traversing their
      concatenation. */
  lemma {:induction false} PreorderAppend(a: seq<Node>, b: seq<Node>, prune: Kind -> bool)
    ensures Preorder(a + b, prune) == Preorder(a, prune) + Preorder(b, prune)
    decreases a
  {
    if a == [] {
      assert a + b == b;
    } else {
      assert (a + b)[0] == a[0];
      assert (a + b)[1..] == a[1..] + b;
      PreorderAppend(a[1..], b, prune);
    }
  }

  /** Moving from a list to the same list without its first node. */
  lemma ReachShift(nodes: seq<Node>, path: seq<nat>, prune: Kind -> bool)
    requires nodes != [] && path != [] && path[0] >= 1
    ensures Reach(nodes, path, prune) == Reach(nodes[1..], [path[0] - 1] + path[1..], prune)
  {
    var p := [path[0] - 1] + path[1..];
    assert p[1..] == path[1..];
  }

  /** Every entered node is reached by some path. */
  lemma {:induction false} PreorderReached(nodes: seq<Node>, prune: Kind -> bool, n: Node) returns (path: seq<nat>)
    requires n in Preorder(nodes, prune)
    ensures Reach(nodes, path, prune) == Some(n)
    decreases nodes
  {
    var head := nodes[0];
    var inChildren := if prune(head.kind) then [] else Preorder(head.children, prune);
    var rest := Preorder(nodes[1..], prune);
    assert Preorder(nodes, prune) == [head] + inChildren + rest;
    if n == head {
      path := [0];
    } else if n in inChildren {
      var p := PreorderReached(head.children, prune, n);
      path := [0] + p;
      assert path[1..] == p;
    } else {
      assert n in rest;
      var p := PreorderReached(nodes[1..], prune, n);
      path := [p[0] + 1] + p[1..];
      ReachShift(nodes, path, prune);
      assert [path[0] - 1] + path[1..] == p;
    }
  }

  /** Every node a path reaches is entered. */
  lemma {:induction false} ReachedPreorder(nodes: seq<Node>, path: seq<nat>, prune: Kind -> bool)
    requires Reach(nodes, path, prune).Some?
    ensures Reach(nodes, path, prune).value in Preorder(nodes, prune)
    decreases nodes
  {
    var n := Reach(nodes, path, prune).value;
    var head := nodes[0];
    var inChildren := if prune(head.kind) then [] else Preorder(head.children, prune);
    var rest := Preorder(nodes[1..], prune);
    assert Preorder(nodes, prune) == [head] + inChildren + rest;
    if path[0] == 0 {
      if |path| == 1 {
        assert n == head;
      } else {
        assert Reach(head.children, path[1..], prune) == Some(n);
        ReachedPreorder(head.children, path[1..], prune);
        assert n in inChildren;
      }
    } else {
      ReachShift(nodes, path, prune);
      var p := [path[0] - 1] + path[1..];
      ReachedPreorder(nodes[1..], p, prune);
      assert n in rest;
    }
  }

  /** The traverser enters exactly the nodes that sit under no pruned node:
      a node is entered if and only if some path reaches it. */
  lemma PreorderReach(nodes: seq<Node>, prune: Kind -> bool, n: Node)
    ensures n in Preorder(nodes, prune) <==> exists path :: Reach(nodes, path, prune) == Some(n)
  {
    if n in Preorder(nodes, prune) {
      var path := PreorderReached(nodes, prune, n);
    }
    if exists path :: Reach(nodes, path, prune) == Some(n) {
      var path :| Reach(nodes, path, prune) == Some(n);
      ReachedPreorder(nodes, path, prune);
    }
  }
}
