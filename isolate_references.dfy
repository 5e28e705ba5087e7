/**
 * The two PHP-Parser visitors of the WordPress reference scanner
 * (namespace `IsolateReferences`):
 *
 * - `ReferencesPopulator` walks the WordPress stubs and appends every
 *   declared class name and function name to two lists, without descending
 *   into class bodies;
 * - `ReferencesCheckerPopulator` walks a project file and, for every
 *   identifier a node uses as a class or function, appends the project's
 *   spelling once for each stub name it equals ignoring ASCII case.
 *
 * The PHP visitors bind the caller's arrays by reference; here the lists are
 * fields of the visitor object, which the pipeline reads back after the walk.
 */
module IsolateReferences {
  import opened PhpBuiltins
  import opened PhpAst

  /** A pair of class-name and function-name lists. */
  datatype Found = Found(classes: seq<string>, functions: seq<string>) {
    /** Both lists of `this` followed by those of `next`. */
    function Then(next: Found): Found {
      Found(classes + next.classes, functions + next.functions)
    }
  }

  const Nothing := Found([], [])

  // ===========================================================================
  // ReferencesPopulator: what it collects
  // ===========================================================================

  /** What `ReferencesPopulator::enterNode` returns for a node of kind `k`. */
  function PopulatorAction(k: Kind): Action {
    if k.ClassDecl? then DontTraverseChildren else Continue
  }

  /** The kinds whose children the traverser skips for the stubs visitor. */
  predicate PopulatorPrunes(k: Kind) {
    PopulatorAction(k) == DontTraverseChildren
  }

  /** What `ReferencesPopulator::enterNode` appends for a node of kind `k`. */
  function Declared(k: Kind): Found {
    match k
    case ClassDecl(name, _) => Found([name], [])
    case FunctionDecl(name, _, _) => Found([], [name])
    case _ => Nothing
  }

  /** What it appends over a sequence of entered nodes. */
  function DeclaredIn(visited: seq<Node>): Found {
    if visited == [] then Nothing else Declared(visited[0].kind).Then(DeclaredIn(visited[1..]))
  }

  /** What one traversal of `nodes` with a `ReferencesPopulator` appends. */
  function StubsPass(nodes: seq<Node>): Found {
    DeclaredIn(Preorder(nodes, PopulatorPrunes))
  }

  lemma {:induction false} DeclaredInAppend(a: seq<Node>, b: seq<Node>)
    ensures DeclaredIn(a + b) == DeclaredIn(a).Then(DeclaredIn(b))
  {
    if a == [] {
      assert a + b == b;
    } else {
      var head := Declared(a[0].kind);
      var tail := DeclaredIn(a[1..]);
      var rest := DeclaredIn(b);
      assert (a + b)[0] == a[0];
      assert (a + b)[1..] == a[1..] + b;
      DeclaredInAppend(a[1..], b);
      assert DeclaredIn(a + b) == head.Then(tail.Then(rest));
      ConcatAssoc(head.classes, tail.classes, rest.classes);
      ConcatAssoc(head.functions, tail.functions, rest.functions);
    }
  }

  /** Traversing a list node by node appends the pass of each node in turn. */
  lemma StubsPassAppend(a: seq<Node>, b: seq<Node>)
    ensures StubsPass(a + b) == StubsPass(a).Then(StubsPass(b))
  {
    PreorderAppend(a, b, PopulatorPrunes);
    DeclaredInAppend(Preorder(a, PopulatorPrunes), Preorder(b, PopulatorPrunes));
  }

  /** The pass over a single node: its own declaration, then its children's
      pass unless the node is a class. */
  lemma StubsPassSingle(n: Node)
    ensures StubsPass([n]) == Declared(n.kind).Then(
              if PopulatorPrunes(n.kind) then Nothing else StubsPass(n.children))
  {
    var inner := if PopulatorPrunes(n.kind) then [] else Preorder(n.children, PopulatorPrunes);
    assert [n][1..] == [];
    assert Preorder([n], PopulatorPrunes) == [n] + inner;
    DeclaredInAppend([n], inner);
  }

  /** A node that declares class `name`, reached along a path of the stubs
      walk. */
  ghost predicate DeclaresClassAt(nodes: seq<Node>, path: seq<nat>, name: string) {
    var o := Reach(nodes, path, PopulatorPrunes);
    o.Some? && o.value.kind.ClassDecl? && o.value.kind.name == name
  }

  /** A node that declares function `name`, reached along a path of the stubs
      walk. */
  ghost predicate DeclaresFunctionAt(nodes: seq<Node>, path: seq<nat>, name: string) {
    var o := Reach(nodes, path, PopulatorPrunes);
    o.Some? && o.value.kind.FunctionDecl? && o.value.kind.name == name
  }

  lemma {:induction false} DeclaredInClasses(visited: seq<Node>, name: string)
    ensures name in DeclaredIn(visited).classes <==>
            exists n :: n in visited && n.kind.ClassDecl? && n.kind.name == name
  {
    if visited != [] {
      DeclaredInClasses(visited[1..], name);
      assert visited == [visited[0]] + visited[1..];
    }
  }

  lemma {:induction false} DeclaredInFunctions(visited: seq<Node>, name: string)
    ensures name in DeclaredIn(visited).functions <==>
            exists n :: n in visited && n.kind.FunctionDecl? && n.kind.name == name
  {
    if visited != [] {
      DeclaredInFunctions(visited[1..], name);
      assert visited == [visited[0]] + visited[1..];
    }
  }

  /** The stubs pass collects exactly the classes declared by nodes that lie
      inside no class: a class's body is never looked at. */
  lemma StubsPassClasses(nodes: seq<Node>, name: string)
    ensures name in StubsPass(nodes).classes <==> exists path :: DeclaresClassAt(nodes, path, name)
  {
    var visited := Preorder(nodes, PopulatorPrunes);
    DeclaredInClasses(visited, name);
    if name in StubsPass(nodes).classes {
      var n :| n in visited && n.kind.ClassDecl? && n.kind.name == name;
      var path := PreorderReached(nodes, PopulatorPrunes, n);
      assert DeclaresClassAt(nodes, path, name);
    }
    if exists path :: DeclaresClassAt(nodes, path, name) {
      var path :| DeclaresClassAt(nodes, path, name);
      ReachedPreorder(nodes, path, PopulatorPrunes);
    }
  }

  /** The stubs pass collects exactly the functions declared by nodes that
      lie inside no class (methods are never functions). */
  lemma StubsPassFunctions(nodes: seq<Node>, name: string)
    ensures name in StubsPass(nodes).functions <==> exists path :: DeclaresFunctionAt(nodes, path, name)
  {
    var visited := Preorder(nodes, PopulatorPrunes);
    DeclaredInFunctions(visited, name);
    if name in StubsPass(nodes).functions {
      var n :| n in visited && n.kind.FunctionDecl? && n.kind.name == name;
      var path := PreorderReached(nodes, PopulatorPrunes, n);
      assert DeclaresFunctionAt(nodes, path, name);
    }
    if exists path :: DeclaresFunctionAt(nodes, path, name) {
      var path :| DeclaresFunctionAt(nodes, path, name);
      ReachedPreorder(nodes, path, PopulatorPrunes);
    }
  }

  /** Whatever a class contains, the stubs pass records its name and nothing
      from its body, and the rest of the file is collected as if the body
      were empty. */
  lemma ClassBodyIgnored(before: seq<Node>, name: string, parent: Option<Name>,
                         body: seq<Node>, after: seq<Node>)
    ensures StubsPass(before + [Node(ClassDecl(name, parent), body)] + after)
            == StubsPass(before).Then(Found([name], [])).Then(StubsPass(after))
  {
    var c := Node(ClassDecl(name, parent), body);
    StubsPassAppend(before + [c], after);
    StubsPassAppend(before, [c]);
    StubsPassSingle(c);
  }

  // ===========================================================================
  // ReferencesPopulator: the visitor
  // ===========================================================================

  /** `ReferencesPopulator`: collects the declared classes and functions. */
  class ReferencesPopulator {
    var classes: seq<string>
    var functions: seq<string>

    constructor (classes: seq<string>, functions: seq<string>)
      ensures this.classes == classes && this.functions == functions
    {
      this.classes := classes;
      this.functions := functions;
    }

    /** `enterNode`: a class appends its name to the class list only and
        stops the walk from entering its body; a function appends its name
        to the function list only; anything else changes nothing. */
    method EnterNode(node: Node) returns (action: Action)
      modifies this
      ensures node.kind.ClassDecl? ==>
                classes == old(classes) + [node.kind.name] && functions == old(functions)
                && action == DontTraverseChildren
      ensures node.kind.FunctionDecl? ==>
                classes == old(classes) && functions == old(functions) + [node.kind.name]
                && action == Continue
      ensures !node.kind.ClassDecl? && !node.kind.FunctionDecl? ==>
                classes == old(classes) && functions == old(functions) && action == Continue
    {
      match node.kind {
        case ClassDecl(name, _) =>
          classes := classes + [name];
          return DontTraverseChildren;
        case FunctionDecl(name, _, _) =>
          functions := functions + [name];
        case _ =>
      }
      return Continue;
    }

    /** `NodeTraverser::traverse` with this visitor as its only visitor: the
        lists grow by exactly what `StubsPass` describes. */
    method Traverse(nodes: seq<Node>)
      modifies this
      ensures classes == old(classes) + StubsPass(nodes).classes
      ensures functions == old(functions) + StubsPass(nodes).functions
      decreases nodes
    {
      var i := 0;
      while i < |nodes|
        invariant 0 <= i <= |nodes|
        invariant classes == old(classes) + StubsPass(nodes[..i]).classes
        invariant functions == old(functions) + StubsPass(nodes[..i]).functions
      {
        var n := nodes[i];
        assert nodes[..i + 1] == nodes[..i] + [n];
        ghost var done := StubsPass(nodes[..i]);
        ghost var here := Declared(n.kind);
        ghost var below := if PopulatorPrunes(n.kind) then Nothing else StubsPass(n.children);
        StubsPassAppend(nodes[..i], [n]);
        StubsPassSingle(n);
        var action := EnterNode(n);
        assert action == Continue <==> !PopulatorPrunes(n.kind);
        assert classes == old(classes) + done.classes + here.classes;
        assert functions == old(functions) + done.functions + here.functions;
        if action == Continue {
          Traverse(n.children);
        }
        assert classes == old(classes) + done.classes + here.classes + below.classes;
        assert functions == old(functions) + done.functions + here.functions + below.functions;
        ConcatAssoc(old(classes), done.classes, here.classes + below.classes);
        ConcatAssoc(old(classes) + done.classes, here.classes, below.classes);
        ConcatAssoc(old(functions), done.functions, here.functions + below.functions);
        ConcatAssoc(old(functions) + done.functions, here.functions, below.functions);
        i := i + 1;
      }
      assert nodes[..i] == nodes;
    }
  }

  // ===========================================================================
  // ReferencesCheckerPopulator: what it records
  // ===========================================================================

  /** The spelling of one member of a type: an identifier's name, or the
      first part of a name. */
  function SimpleTypeString(t: SimpleType): string {
    match t
    case Identifier(id) => id
    case TypeName(n) => n.head
  }

  /** `type_to_string_array`: a union gives one string per member, in order;
      a nullable type gives the one string of its inner type; a name gives
      its first part; an absent type, a lone builtin identifier and anything
      else give nothing. */
  function TypeToStringArray(t: TypeNode): (r: seq<string>)
    ensures r == [] <==> t.NoType? || (t.Simple? && t.simple.Identifier?) || (t.Union? && t.members == [])
    ensures t.Union? ==> (|r| == |t.members| &&
              forall i :: 0 <= i < |r| ==> r[i] == SimpleTypeString(t.members[i]))
    ensures t.Nullable? ==> r == [SimpleTypeString(t.inner)]
    ensures t.Simple? && t.simple.TypeName? ==> r == [t.simple.name.head]
  {
    match t
    case Union(ms) => seq(|ms|, i requires 0 <= i < |ms| => SimpleTypeString(ms[i]))
    case Nullable(inner) => [SimpleTypeString(inner)]
    case Simple(TypeName(n)) => [n.head]
    case _ => []
  }

  /** The candidates equal to `ref` ignoring case, in candidate order, in the
      project's spelling: the inner loop `foreach ($types as $type)`. */
  function EqualTo(candidates: seq<string>, ref: string): seq<string> {
    if candidates == [] then []
    else
      var last := candidates[|candidates| - 1];
      EqualTo(candidates[..|candidates| - 1], ref) + (if SameIgnoringCase(last, ref) then [last] else [])
  }

  /** The nested loops `foreach ($refs as $ref) foreach ($candidates as $c)
      if (strtolower($c) === strtolower($ref)) $found[] = $c;`. */
  function Matching(refs: seq<string>, candidates: seq<string>): seq<string> {
    if refs == [] then []
    else Matching(refs[..|refs| - 1], candidates) + EqualTo(candidates, refs[|refs| - 1])
  }

  /** The matches of every parameter type, parameter by parameter. */
  function ParamsMatching(refs: seq<string>, paramTypes: seq<TypeNode>): seq<string> {
    if paramTypes == [] then []
    else
      ParamsMatching(refs, paramTypes[..|paramTypes| - 1])
      + Matching(refs, TypeToStringArray(paramTypes[|paramTypes| - 1]))
  }

  lemma ConcatAssoc(a: seq<string>, b: seq<string>, c: seq<string>)
    ensures (a + b) + c == a + (b + c)
  {
  }

  lemma MatchingSnoc(refs: seq<string>, candidates: seq<string>, i: nat)
    requires i < |refs|
    ensures Matching(refs[..i + 1], candidates) == Matching(refs[..i], candidates) + EqualTo(candidates, refs[i])
  {
    assert refs[..i + 1][..i] == refs[..i];
  }

  lemma EqualToSnoc(candidates: seq<string>, ref: string, j: nat)
    requires j < |candidates|
    ensures EqualTo(candidates[..j + 1], ref)
            == EqualTo(candidates[..j], ref) + (if SameIgnoringCase(candidates[j], ref) then [candidates[j]] else [])
  {
    assert candidates[..j + 1][..j] == candidates[..j];
  }

  lemma ParamsMatchingSnoc(refs: seq<string>, paramTypes: seq<TypeNode>, k: nat)
    requires k < |paramTypes|
    ensures ParamsMatching(refs, paramTypes[..k + 1])
            == ParamsMatching(refs, paramTypes[..k]) + Matching(refs, TypeToStringArray(paramTypes[k]))
  {
    assert paramTypes[..k + 1][..k] == paramTypes[..k];
  }

  /** All class strings a function or method signature offers for testing:
      its return type's strings, then each parameter type's strings. */
  function SignatureStrings(returnType: TypeNode, paramTypes: seq<TypeNode>): seq<string> {
    if paramTypes == [] then TypeToStringArray(returnType)
    else
      SignatureStrings(returnType, paramTypes[..|paramTypes| - 1])
      + TypeToStringArray(paramTypes[|paramTypes| - 1])
  }

  /** What `ReferencesCheckerPopulator::enterNode` appends for a node of kind
      `k`, given the reference lists. Exactly one branch of the source's
      if/elseif chain applies to a node. */
  function CheckedIn(refClasses: seq<string>, refFunctions: seq<string>, k: Kind): Found {
    match k
    case FunctionDecl(_, ret, ps) => Found(SignatureMatching(refClasses, ret, ps), [])
    case MethodDecl(ret, ps) => Found(SignatureMatching(refClasses, ret, ps), [])
    case FuncCall(callee) =>
      Found([], if callee.CalleeName? then Matching(refFunctions, [callee.name.head]) else [])
    case ClassDecl(_, parent) =>
      Found(if parent.Some? then Matching(refClasses, [parent.value.head]) else [], [])
    case New(cls) =>
      Found(if cls.ClassName? && cls.name.kind == Plain then Matching(refClasses, [cls.name.head]) else [], [])
    case InstanceOf(cls) =>
      Found(if cls.ClassName? then Matching(refClasses, [cls.name.head]) else [], [])
    case StaticCall(cls) =>
      Found(if cls.ClassName? then Matching(refClasses, [cls.name.head]) else [], [])
    case Other => Nothing
  }

  /** The return-type check followed by the check of each parameter. */
  function SignatureMatching(refClasses: seq<string>, returnType: TypeNode, paramTypes: seq<TypeNode>): seq<string> {
    Matching(refClasses, TypeToStringArray(returnType)) + ParamsMatching(refClasses, paramTypes)
  }

  /** The identifiers a node of kind `k` offers to the class test. */
  function ClassCandidates(k: Kind): seq<string> {
    match k
    case FunctionDecl(_, ret, ps) => SignatureStrings(ret, ps)
    case MethodDecl(ret, ps) => SignatureStrings(ret, ps)
    case ClassDecl(_, parent) => if parent.Some? then [parent.value.head] else []
    case New(cls) => if cls.ClassName? && cls.name.kind == Plain then [cls.name.head] else []
    case InstanceOf(cls) => if cls.ClassName? then [cls.name.head] else []
    case StaticCall(cls) => if cls.ClassName? then [cls.name.head] else []
    case _ => []
  }

  /** The identifiers a node of kind `k` offers to the function test. */
  function FunctionCandidates(k: Kind): seq<string> {
    match k
    case FuncCall(callee) => if callee.CalleeName? then [callee.name.head] else []
    case _ => []
  }

  /** What `ReferencesCheckerPopulator::enterNode` returns: always `null`. */
  function CheckerAction(k: Kind): Action {
    Continue
  }

  /** The kinds whose children the traverser skips for the project visitor:
      none. */
  predicate CheckerPrunes(k: Kind) {
    CheckerAction(k) == DontTraverseChildren
  }

  /** What it appends over a sequence of entered nodes. */
  function CheckedInAll(refClasses: seq<string>, refFunctions: seq<string>, visited: seq<Node>): Found {
    if visited == [] then Nothing
    else CheckedIn(refClasses, refFunctions, visited[0].kind).Then(CheckedInAll(refClasses, refFunctions, visited[1..]))
  }

  /** What one traversal of a project file with a `ReferencesCheckerPopulator`
      appends. */
  function ProjectPass(refClasses: seq<string>, refFunctions: seq<string>, nodes: seq<Node>): Found {
    CheckedInAll(refClasses, refFunctions, Preorder(nodes, CheckerPrunes))
  }

  /** The number of reference names equal to `x` ignoring case. */
  function CountSame(refs: seq<string>, x: string): nat {
    if refs == [] then 0
    else (if SameIgnoringCase(x, refs[0]) then 1 else 0) + CountSame(refs[1..], x)
  }

  lemma {:induction false} CountSameSnoc(refs: seq<string>, r: string, x: string)
    ensures CountSame(refs + [r], x) == CountSame(refs, x) + (if SameIgnoringCase(x, r) then 1 else 0)
  {
    if refs != [] {
      assert (refs + [r])[1..] == refs[1..] + [r];
      CountSameSnoc(refs[1..], r, x);
    } else {
      assert [r][1..] == [];
    }
  }

  lemma {:induction false} EqualToCount(candidates: seq<string>, ref: string, x: string)
    ensures multiset(EqualTo(candidates, ref))[x]
            == if SameIgnoringCase(x, ref) then multiset(candidates)[x] else 0
  {
    if candidates != [] {
      var init := candidates[..|candidates| - 1];
      EqualToCount(init, ref, x);
      assert candidates == init + [candidates[|candidates| - 1]];
    }
  }

  /** How often the nested loops record a string: once for every pair of an
      equal candidate and a reference name equal to it ignoring case. */
  lemma {:induction false} MatchingCount(refs: seq<string>, candidates: seq<string>, x: string)
    ensures multiset(Matching(refs, candidates))[x] == multiset(candidates)[x] * CountSame(refs, x)
  {
    if refs != [] {
      MatchingCount(refs[..|refs| - 1], candidates, x);
      MatchingCountStep(refs, candidates, x);
    }
  }

  lemma MatchingCountStep(refs: seq<string>, candidates: seq<string>, x: string)
    requires refs != []
    requires multiset(Matching(refs[..|refs| - 1], candidates))[x]
             == multiset(candidates)[x] * CountSame(refs[..|refs| - 1], x)
    ensures multiset(Matching(refs, candidates))[x] == multiset(candidates)[x] * CountSame(refs, x)
  {
    var init := refs[..|refs| - 1];
    var r := refs[|refs| - 1];
    var before := Matching(init, candidates);
    var added := EqualTo(candidates, r);
    assert refs == init + [r];
    CountSameSnoc(init, r, x);
    assert Matching(refs, candidates) == before + added;
    assert multiset(before + added) == multiset(before) + multiset(added);
    EqualToCount(candidates, r, x);
    CountStep(multiset(Matching(refs, candidates))[x], multiset(before)[x], multiset(added)[x],
              multiset(candidates)[x], CountSame(init, x), CountSame(refs, x), SameIgnoringCase(x, r));
  }

  /** The arithmetic of that step: one more reference name adds the
      candidates' count once more, or not at all. */
  lemma CountStep(total: int, before: int, added: int, m: int, c: int, cAll: int, hit: bool)
    requires total == before + added && before == m * c
    requires added == (if hit then m else 0)
    requires cAll == c + (if hit then 1 else 0)
    ensures total == m * cAll
  {
    Distribute(m, c);
  }

  /** A string is recorded by the nested loops exactly when it is a
      candidate that equals some reference name ignoring case. */
  lemma {:induction false} MatchingMembership(refs: seq<string>, candidates: seq<string>, x: string)
    ensures x in Matching(refs, candidates) <==>
            x in candidates && exists r :: r in refs && SameIgnoringCase(x, r)
  {
    MatchingCount(refs, candidates, x);
    CountSamePositive(refs, x);
    ProductPositive(multiset(candidates)[x], CountSame(refs, x));
  }

  lemma ProductPositive(a: nat, b: nat)
    ensures a * b > 0 <==> a > 0 && b > 0
  {
    if a > 0 && b > 0 {
      assert a * b >= b;
    }
  }

  lemma {:induction false} CountSamePositive(refs: seq<string>, x: string)
    ensures CountSame(refs, x) > 0 <==> exists r :: r in refs && SameIgnoringCase(x, r)
  {
    if refs != [] {
      CountSamePositive(refs[1..], x);
      assert refs == [refs[0]] + refs[1..];
    }
  }

  /** A single identifier is recorded once per reference name equal to it
      ignoring case, always in the project's spelling. */
  lemma {:induction false} MatchingSingle(refs: seq<string>, name: string)
    ensures |Matching(refs, [name])| == CountSame(refs, name)
    ensures forall i :: 0 <= i < |Matching(refs, [name])| ==> Matching(refs, [name])[i] == name
  {
    if refs != [] {
      var init := refs[..|refs| - 1];
      var r := refs[|refs| - 1];
      MatchingSingle(init, name);
      assert refs == init + [r];
      CountSameSnoc(init, r, name);
      EqualToSingle(name, r);
    }
  }

  lemma EqualToSingle(name: string, ref: string)
    ensures EqualTo([name], ref) == if SameIgnoringCase(name, ref) then [name] else []
  {
    assert [name][..0] == [];
  }

  lemma {:induction false} MatchingNone(refs: seq<string>)
    ensures Matching(refs, []) == []
  {
    if refs != [] {
      MatchingNone(refs[..|refs| - 1]);
    }
  }

  lemma {:induction false} SignatureMembership(refs: seq<string>, ret: TypeNode,
                                                    paramTypes: seq<TypeNode>, x: string)
    ensures x in SignatureMatching(refs, ret, paramTypes) <==>
            x in SignatureStrings(ret, paramTypes) && exists r :: r in refs && SameIgnoringCase(x, r)
  {
    if paramTypes == [] {
      MatchingMembership(refs, TypeToStringArray(ret), x);
    } else {
      var init := paramTypes[..|paramTypes| - 1];
      SignatureMembership(refs, ret, init, x);
      MatchingMembership(refs, TypeToStringArray(paramTypes[|paramTypes| - 1]), x);
    }
  }

  /** The matching rule of `enterNode`: a string is recorded as a class (a
      function) exactly when the node offers it to the class (function) test
      and it equals some reference class (function) ignoring case. */
  lemma CheckedInMembership(refClasses: seq<string>, refFunctions: seq<string>, k: Kind, x: string)
    ensures x in CheckedIn(refClasses, refFunctions, k).classes <==>
            x in ClassCandidates(k) && exists r :: r in refClasses && SameIgnoringCase(x, r)
    ensures x in CheckedIn(refClasses, refFunctions, k).functions <==>
            x in FunctionCandidates(k) && exists r :: r in refFunctions && SameIgnoringCase(x, r)
  {
    match k
    case FunctionDecl(_, ret, ps) => SignatureMembership(refClasses, ret, ps, x);
    case MethodDecl(ret, ps) => SignatureMembership(refClasses, ret, ps, x);
    case FuncCall(callee) =>
      if callee.CalleeName? { MatchingMembership(refFunctions, [callee.name.head], x); }
    case ClassDecl(_, parent) =>
      if parent.Some? { MatchingMembership(refClasses, [parent.value.head], x); }
    case New(cls) =>
      if cls.ClassName? { MatchingMembership(refClasses, [cls.name.head], x); }
    case InstanceOf(cls) =>
      if cls.ClassName? { MatchingMembership(refClasses, [cls.name.head], x); }
    case StaticCall(cls) =>
      if cls.ClassName? { MatchingMembership(refClasses, [cls.name.head], x); }
    case Other =>
  }

  /** A called function's first name part is recorded once for every
      reference function equal to it ignoring case, as the project spells
      it. */
  lemma FuncCallRecordsPerMatch(refClasses: seq<string>, refFunctions: seq<string>, n: Name)
    ensures CheckedIn(refClasses, refFunctions, FuncCall(CalleeName(n))).classes == []
    ensures |CheckedIn(refClasses, refFunctions, FuncCall(CalleeName(n))).functions| == CountSame(refFunctions, n.head)
    ensures forall s :: s in CheckedIn(refClasses, refFunctions, FuncCall(CalleeName(n))).functions ==> s == n.head
  {
    MatchingSingle(refFunctions, n.head);
  }

  /** `new` is checked only for a plain `Name`: `new \Foo` and
      `new namespace\Foo` record nothing, while `extends`, `instanceof` and
      static calls accept every kind of name. */
  lemma NewChecksOnlyPlainNames(refClasses: seq<string>, refFunctions: seq<string>, n: Name)
    ensures n.kind != Plain ==> CheckedIn(refClasses, refFunctions, New(ClassName(n))) == Nothing
    ensures n.kind == Plain ==>
              |CheckedIn(refClasses, refFunctions, New(ClassName(n))).classes| == CountSame(refClasses, n.head)
    ensures |CheckedIn(refClasses, refFunctions, InstanceOf(ClassName(n))).classes| == CountSame(refClasses, n.head)
    ensures |CheckedIn(refClasses, refFunctions, StaticCall(ClassName(n))).classes| == CountSame(refClasses, n.head)
    ensures |CheckedIn(refClasses, refFunctions, ClassDecl("", Some(n))).classes| == CountSame(refClasses, n.head)
    ensures n.kind == Plain ==>
              forall s :: s in CheckedIn(refClasses, refFunctions, New(ClassName(n))).classes ==> s == n.head
    ensures forall s :: s in CheckedIn(refClasses, refFunctions, InstanceOf(ClassName(n))).classes ==> s == n.head
    ensures forall s :: s in CheckedIn(refClasses, refFunctions, StaticCall(ClassName(n))).classes ==> s == n.head
    ensures forall s :: s in CheckedIn(refClasses, refFunctions, ClassDecl("", Some(n))).classes ==> s == n.head
  {
    MatchingSingle(refClasses, n.head);
  }

  lemma {:induction false} CheckedInAllAppend(refClasses: seq<string>, refFunctions: seq<string>,
                                              a: seq<Node>, b: seq<Node>)
    ensures CheckedInAll(refClasses, refFunctions, a + b)
            == CheckedInAll(refClasses, refFunctions, a).Then(CheckedInAll(refClasses, refFunctions, b))
  {
    if a == [] {
      assert a + b == b;
    } else {
      var head := CheckedIn(refClasses, refFunctions, a[0].kind);
      var tail := CheckedInAll(refClasses, refFunctions, a[1..]);
      var rest := CheckedInAll(refClasses, refFunctions, b);
      assert (a + b)[0] == a[0];
      assert (a + b)[1..] == a[1..] + b;
      CheckedInAllAppend(refClasses, refFunctions, a[1..], b);
      assert CheckedInAll(refClasses, refFunctions, a + b) == head.Then(tail.Then(rest));
      ConcatAssoc(head.classes, tail.classes, rest.classes);
      ConcatAssoc(head.functions, tail.functions, rest.functions);
    }
  }

  lemma ProjectPassAppend(refClasses: seq<string>, refFunctions: seq<string>, a: seq<Node>, b: seq<Node>)
    ensures ProjectPass(refClasses, refFunctions, a + b)
            == ProjectPass(refClasses, refFunctions, a).Then(ProjectPass(refClasses, refFunctions, b))
  {
    PreorderAppend(a, b, CheckerPrunes);
    CheckedInAllAppend(refClasses, refFunctions, Preorder(a, CheckerPrunes), Preorder(b, CheckerPrunes));
  }

  lemma ProjectPassSingle(refClasses: seq<string>, refFunctions: seq<string>, n: Node)
    ensures ProjectPass(refClasses, refFunctions, [n])
            == CheckedIn(refClasses, refFunctions, n.kind).Then(ProjectPass(refClasses, refFunctions, n.children))
  {
    var inner := Preorder(n.children, CheckerPrunes);
    assert [n][1..] == [];
    assert Preorder([n], CheckerPrunes) == [n] + inner;
    CheckedInAllAppend(refClasses, refFunctions, [n], inner);
  }

  /** A node at `path`, at any depth, that offers `x` to the class test. */
  ghost predicate OffersClassAt(nodes: seq<Node>, path: seq<nat>, x: string) {
    var o := Reach(nodes, path, CheckerPrunes);
    o.Some? && x in ClassCandidates(o.value.kind)
  }

  /** A node at `path`, at any depth, that offers `x` to the function test. */
  ghost predicate OffersFunctionAt(nodes: seq<Node>, path: seq<nat>, x: string) {
    var o := Reach(nodes, path, CheckerPrunes);
    o.Some? && x in FunctionCandidates(o.value.kind)
  }

  lemma {:induction false} CheckedInAllClasses(refClasses: seq<string>, refFunctions: seq<string>,
                                               visited: seq<Node>, x: string)
    ensures x in CheckedInAll(refClasses, refFunctions, visited).classes <==>
            exists n :: n in visited && x in CheckedIn(refClasses, refFunctions, n.kind).classes
  {
    if visited != [] {
      CheckedInAllClasses(refClasses, refFunctions, visited[1..], x);
      assert visited == [visited[0]] + visited[1..];
    }
  }

  lemma {:induction false} CheckedInAllFunctions(refClasses: seq<string>, refFunctions: seq<string>,
                                                 visited: seq<Node>, x: string)
    ensures x in CheckedInAll(refClasses, refFunctions, visited).functions <==>
            exists n :: n in visited && x in CheckedIn(refClasses, refFunctions, n.kind).functions
  {
    if visited != [] {
      CheckedInAllFunctions(refClasses, refFunctions, visited[1..], x);
      assert visited == [visited[0]] + visited[1..];
    }
  }

  /** The project pass records a class string exactly when some node of the
      file, at any depth, offers it to the class test and it equals a
      reference class ignoring case. */
  lemma ProjectPassClasses(refClasses: seq<string>, refFunctions: seq<string>, nodes: seq<Node>, x: string)
    ensures x in ProjectPass(refClasses, refFunctions, nodes).classes <==>
            (exists path :: OffersClassAt(nodes, path, x)) &&
            exists r :: r in refClasses && SameIgnoringCase(x, r)
  {
    var visited := Preorder(nodes, CheckerPrunes);
    CheckedInAllClasses(refClasses, refFunctions, visited, x);
    if x in ProjectPass(refClasses, refFunctions, nodes).classes {
      var n :| n in visited && x in CheckedIn(refClasses, refFunctions, n.kind).classes;
      CheckedInMembership(refClasses, refFunctions, n.kind, x);
      var path := PreorderReached(nodes, CheckerPrunes, n);
      assert OffersClassAt(nodes, path, x);
    }
    if (exists path :: OffersClassAt(nodes, path, x)) && exists r :: r in refClasses && SameIgnoringCase(x, r) {
      var path :| OffersClassAt(nodes, path, x);
      ReachedPreorder(nodes, path, CheckerPrunes);
      var n := Reach(nodes, path, CheckerPrunes).value;
      CheckedInMembership(refClasses, refFunctions, n.kind, x);
    }
  }

  /** The project pass records a function string exactly when some call in
      the file, at any depth, names it and it equals a reference function
      ignoring case. */
  lemma ProjectPassFunctions(refClasses: seq<string>, refFunctions: seq<string>, nodes: seq<Node>, x: string)
    ensures x in ProjectPass(refClasses, refFunctions, nodes).functions <==>
            (exists path :: OffersFunctionAt(nodes, path, x)) &&
            exists r :: r in refFunctions && SameIgnoringCase(x, r)
  {
    var visited := Preorder(nodes, CheckerPrunes);
    CheckedInAllFunctions(refClasses, refFunctions, visited, x);
    if x in ProjectPass(refClasses, refFunctions, nodes).functions {
      var n :| n in visited && x in CheckedIn(refClasses, refFunctions, n.kind).functions;
      CheckedInMembership(refClasses, refFunctions, n.kind, x);
      var path := PreorderReached(nodes, CheckerPrunes, n);
      assert OffersFunctionAt(nodes, path, x);
    }
    if (exists path :: OffersFunctionAt(nodes, path, x)) && exists r :: r in refFunctions && SameIgnoringCase(x, r) {
      var path :| OffersFunctionAt(nodes, path, x);
      ReachedPreorder(nodes, path, CheckerPrunes);
      var n := Reach(nodes, path, CheckerPrunes).value;
      CheckedInMembership(refClasses, refFunctions, n.kind, x);
    }
  }

  // ===========================================================================
  // ReferencesCheckerPopulator: the visitor
  // ===========================================================================

  /** `ReferencesCheckerPopulator`: records the project's references to the
      given classes and functions. The reference lists are taken by value and
      never change; only the found lists grow. */
  class ReferencesCheckerPopulator {
    const classes: seq<string>
    const functions: seq<string>
    var projectClasses: seq<string>
    var projectFunctions: seq<string>

    constructor (classes: seq<string>, functions: seq<string>,
                 foundClasses: seq<string>, foundFunctions: seq<string>)
      ensures this.classes == classes && this.functions == functions
      ensures projectClasses == foundClasses && projectFunctions == foundFunctions
    {
      this.classes := classes;
      this.functions := functions;
      projectClasses := foundClasses;
      projectFunctions := foundFunctions;
    }

    /** `enterNode`: appends what `CheckedIn` describes and always lets the
        walk enter the children. */
    method EnterNode(node: Node) returns (action: Action)
      modifies this
      ensures action == Continue
      ensures projectClasses == old(projectClasses) + CheckedIn(classes, functions, node.kind).classes
      ensures projectFunctions == old(projectFunctions) + CheckedIn(classes, functions, node.kind).functions
    {
      match node.kind {
        case FunctionDecl(_, ret, ps) =>
          RecordSignature(ret, ps);
        case MethodDecl(ret, ps) =>
          RecordSignature(ret, ps);
        case FuncCall(callee) =>
          if callee.CalleeName? {
            RecordFunction(callee.name.head);
          }
        case ClassDecl(_, parent) =>
          if parent.Some? {
            RecordClass(parent.value.head);
          }
        case New(cls) =>
          if cls.ClassName? && cls.name.kind == Plain {
            RecordClass(cls.name.head);
          }
        case InstanceOf(cls) =>
          if cls.ClassName? {
            RecordClass(cls.name.head);
          }
        case StaticCall(cls) =>
          if cls.ClassName? {
            RecordClass(cls.name.head);
          }
        case Other =>
      }
      return Continue;
    }

    /** The return-type check and then the check of each parameter. */
    method RecordSignature(returnType: TypeNode, paramTypes: seq<TypeNode>)
      modifies this
      ensures projectFunctions == old(projectFunctions)
      ensures projectClasses == old(projectClasses) + SignatureMatching(classes, returnType, paramTypes)
    {
      RecordTypeOf(returnType);
      ghost var start := projectClasses;
      var k := 0;
      while k < |paramTypes|
        invariant 0 <= k <= |paramTypes|
        invariant projectFunctions == old(projectFunctions)
        invariant projectClasses == start + ParamsMatching(classes, paramTypes[..k])
      {
        RecordTypeOf(paramTypes[k]);
        ParamsMatchingSnoc(classes, paramTypes, k);
        ConcatAssoc(start, ParamsMatching(classes, paramTypes[..k]), Matching(classes, TypeToStringArray(paramTypes[k])));
        k := k + 1;
      }
      assert paramTypes[..k] == paramTypes;
      ConcatAssoc(old(projectClasses), Matching(classes, TypeToStringArray(returnType)), ParamsMatching(classes, paramTypes));
    }

    /** One type declaration checked against the reference classes, skipped
        when it gives no strings. */
    method RecordTypeOf(t: TypeNode)
      modifies this
      ensures projectFunctions == old(projectFunctions)
      ensures projectClasses == old(projectClasses) + Matching(classes, TypeToStringArray(t))
    {
      var types := TypeToStringArray(t);
      if |types| > 0 {
        RecordTypes(types);
      } else {
        MatchingNone(classes);
      }
    }

    /** For each reference class, each of `types` equal to it ignoring case
        is recorded. */
    method RecordTypes(types: seq<string>)
      modifies this
      ensures projectFunctions == old(projectFunctions)
      ensures projectClasses == old(projectClasses) + Matching(classes, types)
    {
      var i := 0;
      while i < |classes|
        invariant 0 <= i <= |classes|
        invariant projectFunctions == old(projectFunctions)
        invariant projectClasses == old(projectClasses) + Matching(classes[..i], types)
      {
        var ref := classes[i];
        ghost var before := projectClasses;
        var j := 0;
        while j < |types|
          invariant 0 <= j <= |types|
          invariant projectFunctions == old(projectFunctions)
          invariant projectClasses == before + EqualTo(types[..j], ref)
        {
          if Lower(types[j]) == Lower(ref) {
            projectClasses := projectClasses + [types[j]];
          }
          EqualToSnoc(types, ref, j);
          ConcatAssoc(before, EqualTo(types[..j], ref), if SameIgnoringCase(types[j], ref) then [types[j]] else []);
          j := j + 1;
        }
        assert types[..j] == types;
        MatchingSnoc(classes, types, i);
        ConcatAssoc(old(projectClasses), Matching(classes[..i], types), EqualTo(types, ref));
        i := i + 1;
      }
      assert classes[..i] == classes;
    }

    /** One identifier checked against the reference classes. */
    method RecordClass(name: string)
      modifies this
      ensures projectFunctions == old(projectFunctions)
      ensures projectClasses == old(projectClasses) + Matching(classes, [name])
    {
      var i := 0;
      while i < |classes|
        invariant 0 <= i <= |classes|
        invariant projectFunctions == old(projectFunctions)
        invariant projectClasses == old(projectClasses) + Matching(classes[..i], [name])
      {
        if Lower(name) == Lower(classes[i]) {
          projectClasses := projectClasses + [name];
        }
        MatchingSnoc(classes, [name], i);
        EqualToSingle(name, classes[i]);
        ConcatAssoc(old(projectClasses), Matching(classes[..i], [name]), EqualTo([name], classes[i]));
        i := i + 1;
      }
      assert classes[..i] == classes;
    }

    /** One called function's name checked against the reference
        functions. */
    method RecordFunction(name: string)
      modifies this
      ensures projectClasses == old(projectClasses)
      ensures projectFunctions == old(projectFunctions) + Matching(functions, [name])
    {
      var i := 0;
      while i < |functions|
        invariant 0 <= i <= |functions|
        invariant projectClasses == old(projectClasses)
        invariant projectFunctions == old(projectFunctions) + Matching(functions[..i], [name])
      {
        if Lower(name) == Lower(functions[i]) {
          projectFunctions := projectFunctions + [name];
        }
        MatchingSnoc(functions, [name], i);
        EqualToSingle(name, functions[i]);
        ConcatAssoc(old(projectFunctions), Matching(functions[..i], [name]), EqualTo([name], functions[i]));
        i := i + 1;
      }
      assert functions[..i] == functions;
    }

    /** `NodeTraverser::traverse` with this visitor as its only visitor: the
        found lists grow by exactly what `ProjectPass` describes. */
    method Traverse(nodes: seq<Node>)
      modifies this
      ensures projectClasses == old(projectClasses) + ProjectPass(classes, functions, nodes).classes
      ensures projectFunctions == old(projectFunctions) + ProjectPass(classes, functions, nodes).functions
      decreases nodes
    {
      var i := 0;
      while i < |nodes|
        invariant 0 <= i <= |nodes|
        invariant projectClasses == old(projectClasses) + ProjectPass(classes, functions, nodes[..i]).classes
        invariant projectFunctions == old(projectFunctions) + ProjectPass(classes, functions, nodes[..i]).functions
      {
        var n := nodes[i];
        ghost var done := ProjectPass(classes, functions, nodes[..i]);
        ghost var here := CheckedIn(classes, functions, n.kind);
        ghost var below := ProjectPass(classes, functions, n.children);
        ProjectPassAppend(classes, functions, nodes[..i], [n]);
        ProjectPassSingle(classes, functions, n);
        assert nodes[..i + 1] == nodes[..i] + [n];
        var action := EnterNode(n);
        if action == Continue {
          Traverse(n.children);
        }
        ConcatAssoc(old(projectClasses), done.classes, here.classes + below.classes);
        ConcatAssoc(old(projectClasses) + done.classes, here.classes, below.classes);
        ConcatAssoc(old(projectFunctions), done.functions, here.functions + below.functions);
        ConcatAssoc(old(projectFunctions) + done.functions, here.functions, below.functions);
        i := i + 1;
      }
      assert nodes[..i] == nodes;
    }
  }
}
