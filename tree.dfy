/**
  Message trees: a message bag unfolded along the dots of its paths. Each node may hold the
  messages of the path that ends at it and holds one child per next path segment.
 */
module Trees {
  import opened Wrappers
  import opened Strings
  import opened MessageBags

  /** A tree node: the messages of the path ending here, if any, and the children by segment. */
  datatype Node = Node(value: Option<seq<string>>, children: map<string, Node>)

  /** A tree: the children of an unnamed root. */
  type Tree = map<string, Node>

  /** `{children: {}}`. */
  const EmptyNode: Node := Node(None, map[])

  /** The node reached from `n` by following the segments of `s`, if they all exist. */
  function NodeAt(n: Node, s: seq<string>): Option<Node>
    decreases |s|
  {
    if s == [] then Some(n)
    else if s[0] in n.children then NodeAt(n.children[s[0]], s[1..])
    else None
  }

  /** The messages at the node reached from `n` along `s`. */
  function NodeValue(n: Node, s: seq<string>): Option<seq<string>> {
    if NodeAt(n, s).Some? then NodeAt(n, s).value.value else None
  }

  /** The root whose children are the tree; it never holds messages. */
  function Root(tree: Tree): Node {
    Node(None, tree)
  }

  /** The messages at path `p` of a tree (none at the empty path). */
  function ValueAt(tree: Tree, p: seq<string>): Option<seq<string>> {
    NodeValue(Root(tree), p)
  }

  /** The message list at `p`, empty when there is none. */
  function MessagesAt(tree: Tree, p: seq<string>): seq<string> {
    if ValueAt(tree, p).Some? then ValueAt(tree, p).value else []
  }

  /** A path of two or more segments continues from the first segment's node. */
  lemma NodeAtStep(tree: Tree, p: seq<string>)
    requires |p| > 1
    ensures NodeAt(Root(tree), p) == if p[0] in tree then NodeAt(Root(tree[p[0]].children), p[1..]) else None
    ensures ValueAt(tree, p) == if p[0] in tree then ValueAt(tree[p[0]].children, p[1..]) else None
  {
    if p[0] in tree {
      assert p[1..][1..] == p[2..];
    }
  }

  /** A path of one segment is that child of the root. */
  lemma NodeAtOne(tree: Tree, p: seq<string>)
    requires |p| == 1
    ensures ValueAt(tree, p) == if p[0] in tree then tree[p[0]].value else None
  {
    if p[0] in tree {
      assert NodeAt(tree[p[0]], p[1..]) == Some(tree[p[0]]);
    }
  }

  // ---------------------------------------------------------------------------
  // Finding and creating nodes

  /**
    `getOrCreateChildNode`: the child at `key`, created empty when missing. The tree returned is
    the tree with that child in place; no other key changes.
   */
  function GetOrCreateChildNode(tree: Tree, key: string): (r: (Tree, Node))
    ensures r.0 == tree[key := r.1]
    ensures key in tree ==> r == (tree, tree[key])
    ensures key !in tree ==> r.1 == EmptyNode
  {
    if key in tree then (tree, tree[key]) else (tree[key := EmptyNode], EmptyNode)
  }

  /**
    `getOrCreateNodeAtPath`: an empty path raises "Empty path"; otherwise the node at the end of
    the path, with the nodes missing along it created. The tree returned holds the created nodes.
   */
  function GetOrCreateNodeAtPath(tree: Tree, path: seq<string>): (r: Result<(Tree, Node), string>)
    ensures r.Failure? <==> path == []
    ensures r.Failure? ==> r.error == "Empty path"
    ensures r.Success? ==> NodeAt(Root(r.value.0), path) == Some(r.value.1)
    decreases |path|
  {
    if path == [] then Failure("Empty path")
    else
      var (t1, next) := GetOrCreateChildNode(tree, path[0]);
      if |path| == 1 then Success((t1, next))
      else
        match GetOrCreateNodeAtPath(next.children, path[1..])
        case Success((children, node)) =>
          assert Root(t1[path[0] := next.(children := children)]).children[path[0]].children == children;
          Success((t1[path[0] := next.(children := children)], node))
        case Failure(e) => Failure(e)
  }

  /** Creating nodes adds no messages and moves none. */
  lemma {:induction false} GetOrCreateKeepsMessages(tree: Tree, path: seq<string>)
    requires path != []
    ensures forall p :: ValueAt(GetOrCreateNodeAtPath(tree, path).value.0, p) == ValueAt(tree, p)
    decreases |path|
  {
    var (t1, next) := GetOrCreateChildNode(tree, path[0]);
    var t := GetOrCreateNodeAtPath(tree, path).value.0;
    var children := next.children;
    if |path| > 1 {
      GetOrCreateKeepsMessages(next.children, path[1..]);
      children := GetOrCreateNodeAtPath(next.children, path[1..]).value.0;
    }
    assert t == t1[path[0] := next.(children := children)];
    assert forall q :: ValueAt(children, q) == ValueAt(next.children, q);
    forall p ensures ValueAt(t, p) == ValueAt(tree, p) {
      if |p| > 1 {
        NodeAtStep(t, p);
        NodeAtStep(tree, p);
        if p[0] == path[0] && path[0] !in tree {
          assert ValueAt(next.children, p[1..]) == None;
        }
      } else if |p| == 1 {
        NodeAtOne(t, p);
        NodeAtOne(tree, p);
      }
    }
  }

  /** A path that already leads to a node finds it and leaves the tree as it was. */
  lemma {:induction false} GetOrCreateFinds(tree: Tree, path: seq<string>)
    requires path != [] && NodeAt(Root(tree), path).Some?
    ensures GetOrCreateNodeAtPath(tree, path) == Success((tree, NodeAt(Root(tree), path).value))
    decreases |path|
  {
    if |path| > 1 {
      GetOrCreateFinds(tree[path[0]].children, path[1..]);
    }
  }

  /**
    The tree with the node at `path` holding `v`: what pushing onto the value of the node
    `getOrCreateNodeAtPath` returned does to the tree that holds it.
   */
  function WithValueAt(tree: Tree, path: seq<string>, v: Option<seq<string>>): Tree
    requires path != [] && NodeAt(Root(tree), path).Some?
    decreases |path|
  {
    var child := tree[path[0]];
    if |path| == 1 then tree[path[0] := child.(value := v)]
    else
      NodeAtStep(tree, path);
      tree[path[0] := child.(children := WithValueAt(child.children, path[1..], v))]
  }

  /** Setting the value at one node changes the messages at that path and nowhere else. */
  lemma {:induction false} WithValueAtValues(tree: Tree, path: seq<string>, v: Option<seq<string>>)
    requires path != [] && NodeAt(Root(tree), path).Some?
    ensures forall p :: ValueAt(WithValueAt(tree, path, v), p) == if p == path then v else ValueAt(tree, p)
    decreases |path|
  {
    var t := WithValueAt(tree, path, v);
    var child := tree[path[0]];
    if |path| > 1 {
      WithValueAtValues(child.children, path[1..], v);
    }
    forall p ensures ValueAt(t, p) == if p == path then v else ValueAt(tree, p) {
      if |p| > 1 {
        NodeAtStep(t, p);
        NodeAtStep(tree, p);
        if |path| > 1 && p[0] == path[0] {
          assert p == path <==> p[1..] == path[1..];
        }
      } else if |p| == 1 {
        NodeAtOne(t, p);
        NodeAtOne(tree, p);
      }
    }
  }

  // ---------------------------------------------------------------------------
  // From a bag to a tree

  /**
    `addMessageToTree`: `message` appended to the messages of the node at the dot-split path,
    the list created when the node has none.
   */
  method AddMessageToTree(tree: Tree, path: string, message: string) returns (r: Tree)
    ensures forall p :: (ValueAt(r, p) ==
      if p == Split(path, '.') then Some(MessagesAt(tree, p) + [message]) else ValueAt(tree, p))
  {
    var parts := Split(path, '.');
    var found := GetOrCreateNodeAtPath(tree, parts);
    var t := found.value.0;
    var node := found.value.1;
    GetOrCreateKeepsMessages(tree, parts);
    var value: seq<string> := if node.value.None? then [] else node.value.value;
    assert value == MessagesAt(tree, parts);
    value := value + [message];
    WithValueAtValues(t, parts, Some(value));
    r := WithValueAt(t, parts, Some(value));
  }

  /**
    `tree` is the tree of `bag`: each path with messages holds them at its dot-split path, and
    every path of the tree that holds messages is the split of a path of the bag.
   */
  ghost predicate IsTreeOf(bag: MessageBag, tree: Tree) {
    && (forall path | path in bag && bag[path] != [] :: ValueAt(tree, Split(path, '.')) == Some(bag[path]))
    && (forall p | ValueAt(tree, p).Some? ::
          Join(p, '.') in bag && bag[Join(p, '.')] != [] && Split(Join(p, '.'), '.') == p)
  }

  /** The messages of one bag entry added one by one at its path. */
  method AddMessagesOf(tree: Tree, path: string, messages: seq<string>) returns (r: Tree)
    requires ValueAt(tree, Split(path, '.')) == None
    ensures forall p :: (ValueAt(r, p) ==
      if p == Split(path, '.') && messages != [] then Some(messages) else ValueAt(tree, p))
  {
    r := tree;
    for i := 0 to |messages|
      invariant forall p :: (ValueAt(r, p) ==
        if p == Split(path, '.') && i > 0 then Some(messages[..i]) else ValueAt(tree, p))
    {
      r := AddMessageToTree(r, path, messages[i]);
      assert messages[..i + 1] == messages[..i] + [messages[i]];
    }
    assert messages[..|messages|] == messages;
  }

  /** `messageBagToTree`: every message of every entry placed at the entry's dot-split path, in order. */
  method MessageBagToTree(bag: MessageBag) returns (tree: Tree)
    ensures IsTreeOf(bag, tree)
  {
    tree := map[];
    var todo := bag.Keys;
    while todo != {}
      invariant todo <= bag.Keys
      invariant forall path | path in bag && path !in todo && bag[path] != [] ::
        ValueAt(tree, Split(path, '.')) == Some(bag[path])
      invariant forall p | ValueAt(tree, p).Some? ::
        Join(p, '.') in bag && Join(p, '.') !in todo && bag[Join(p, '.')] != [] && Split(Join(p, '.'), '.') == p
      decreases todo
    {
      var path :| path in todo;
      JoinSplit(path, '.');
      tree := AddMessagesOf(tree, path, bag[path]);
      todo := todo - {path};
    }
  }

  // ---------------------------------------------------------------------------
  // Inherited property names, as written

  /**
    The names every plain object inherits from `Object.prototype`. `tree[key]` finds them on a
    tree that has no own property of that name, and each is truthy (a function, or the
    prototype itself for `__proto__`).
   */
  predicate InheritedName(key: string) {
    key in {"constructor", "__proto__", "toString", "toLocaleString", "valueOf", "hasOwnProperty",
      "isPrototypeOf", "propertyIsEnumerable", "__defineGetter__", "__defineSetter__",
      "__lookupGetter__", "__lookupSetter__"}
  }

  /** Where `getOrCreateNodeAtPath` as written ends up. */
  datatype PathOutcome =
    | Reached(tree: Tree, node: Node)  // a node of the tree, which holds the created nodes
    | ReachedInherited                 // an inherited function that is not part of the tree
    | ReachedPrototype                 // `Object.prototype` itself, through `__proto__`
    | Thrown(error: string)

  /**
    `getOrCreateNodeAtPath` as written: a missing segment that names an inherited member is not
    created, because the truthiness test finds the inherited member. As the last segment that
    member is returned in place of a node (for `__proto__`, the prototype every object shares);
    before further segments its `children` is undefined
    and the next lookup throws a `TypeError`. Every other path ends where the own-property
    reading `GetOrCreateNodeAtPath` ends.
   */
  function NodePathAsWritten(tree: Tree, path: seq<string>): (r: PathOutcome)
    ensures path == [] ==> r == Thrown("Empty path")
    ensures r.Reached? ==> GetOrCreateNodeAtPath(tree, path) == Success((r.tree, r.node))
    ensures path != [] && (forall i | 0 <= i < |path| :: !InheritedName(path[i])) ==> r.Reached?
    ensures path != [] && path[0] !in tree && InheritedName(path[0]) ==>
      r == if |path| > 1 then Thrown("TypeError")
        else if path[0] == "__proto__" then ReachedPrototype
        else ReachedInherited
    decreases |path|
  {
    if path == [] then Thrown("Empty path")
    else if path[0] !in tree && InheritedName(path[0]) then
      if |path| > 1 then Thrown("TypeError")
      else if path[0] == "__proto__" then ReachedPrototype
      else ReachedInherited
    else
      var (t1, next) := GetOrCreateChildNode(tree, path[0]);
      if |path| == 1 then Reached(t1, next)
      else
        assert forall i | 0 <= i < |path| - 1 :: path[1..][i] == path[i + 1];
        match NodePathAsWritten(next.children, path[1..])
        case Reached(children, node) => Reached(t1[path[0] := next.(children := children)], node)
        case ReachedInherited => ReachedInherited
        case ReachedPrototype => ReachedPrototype
        case Thrown(e) => Thrown(e)
  }

  /**
    What `addMessageToTree` as written leaves behind, starting from a prototype that holds no
    `value`: the tree with the message stored in it; the tree as it was, with the message pushed
    onto an inherited function; the tree as it was, with `Object.prototype.value` now the list
    holding the message; or the error thrown.
   */
  datatype AddOutcome =
    | Added(tree: Tree)
    | PushedOnInherited(tree: Tree)
    | PrototypeValueSet(tree: Tree, protoValue: seq<string>)
    | AddThrown(error: string)

  /**
    `addMessageToTree` as written, on an already split path: the message is pushed onto the
    node reached. When an inherited function was reached the push lands on that function; when
    the prototype was reached, `value` is created on `Object.prototype`, where every object,
    every later tree node included, inherits it.
   */
  function AddMessageAsWritten(tree: Tree, parts: seq<string>, message: string): (r: AddOutcome)
    ensures r.AddThrown? <==> NodePathAsWritten(tree, parts).Thrown?
    ensures r.Added? <==> NodePathAsWritten(tree, parts).Reached?
    ensures NodePathAsWritten(tree, parts).ReachedInherited? ==> r == PushedOnInherited(tree)
    ensures NodePathAsWritten(tree, parts).ReachedPrototype? ==> r == PrototypeValueSet(tree, [message])
  {
    match NodePathAsWritten(tree, parts)
    case Reached(t, node) =>
      Added(WithValueAt(t, parts, Some((if node.value.None? then [] else node.value.value) + [message])))
    case ReachedInherited => PushedOnInherited(tree)
    case ReachedPrototype => PrototypeValueSet(tree, [] + [message])
    case Thrown(e) => AddThrown(e)
  }

  /**
    On a path none of whose segments is an inherited name, `addMessageToTree` as written does
    what `AddMessageToTree` promises: the message is appended at that path and nowhere else.
   */
  lemma AddMessageAsWrittenOwnNames(tree: Tree, parts: seq<string>, message: string)
    requires parts != [] && forall i | 0 <= i < |parts| :: !InheritedName(parts[i])
    ensures AddMessageAsWritten(tree, parts, message).Added?
    ensures forall p :: (ValueAt(AddMessageAsWritten(tree, parts, message).tree, p) ==
      if p == parts then Some(MessagesAt(tree, p) + [message]) else ValueAt(tree, p))
  {
    var reached := NodePathAsWritten(tree, parts);
    var t, node := reached.tree, reached.node;
    GetOrCreateKeepsMessages(tree, parts);
    assert (if node.value.None? then [] else node.value.value) == MessagesAt(tree, parts);
    var v := Some(MessagesAt(tree, parts) + [message]);
    assert AddMessageAsWritten(tree, parts, message) == Added(WithValueAt(t, parts, v));
    WithValueAtValues(t, parts, v);
  }

  /**
    The discrepancy: the bag `{"constructor": ["m"]}` loses its entry. The lookup of
    `"constructor"` in the empty tree finds the inherited `Object`, the message is pushed onto
    `Object.value` and the tree stays empty, so the bag read back from it is `{}`; a path that
    goes on below `"constructor"` throws instead. The own-property reading creates the node.
   */
  lemma InheritedNameLostAsWritten()
    ensures InheritedName("constructor")
    ensures NodePathAsWritten(map[], ["constructor"]) == ReachedInherited
    ensures AddMessageAsWritten(map[], ["constructor"], "m") == PushedOnInherited(map[])
    ensures ValueAt(AddMessageAsWritten(map[], ["constructor"], "m").tree, ["constructor"]) == None
    ensures AddMessageAsWritten(map[], ["constructor", "x"], "m") == AddThrown("TypeError")
    ensures GetOrCreateNodeAtPath(map[], ["constructor"]) == Success((map["constructor" := EmptyNode], EmptyNode))
  {
  }

  /**
    The discrepancy for `__proto__`: the bag `{"__proto__": ["m"]}` stores nothing in the tree
    and sets `Object.prototype.value` to `["m"]` instead. From then on every node created without
    a value inherits that list, so `addMessageToTree` pushes later messages onto the one shared
    list, and `for...in` walks the inherited `value` as if it were a child. The own-property
    reading creates a node named `__proto__`.
   */
  lemma PrototypePollutedAsWritten()
    ensures InheritedName("__proto__")
    ensures NodePathAsWritten(map[], ["__proto__"]) == ReachedPrototype
    ensures AddMessageAsWritten(map[], ["__proto__"], "m") == PrototypeValueSet(map[], ["m"])
    ensures AddMessageAsWritten(map[], ["__proto__", "x"], "m") == AddThrown("TypeError")
    ensures GetOrCreateNodeAtPath(map[], ["__proto__"]) == Success((map["__proto__" := EmptyNode], EmptyNode))
  {
  }

  // ---------------------------------------------------------------------------
  // From a tree to a bag

  /** Two ways of writing the key of a grandchild path agree. */
  lemma JoinDotted(prefix: string, key: string, t: seq<string>)
    ensures Join([prefix + "." + key] + t, '.') == Join([prefix] + ([key] + t), '.')
  {
    var parts := [prefix] + ([key] + t);
    assert parts[1..] == [key] + t;
    if t != [] {
      assert ([key] + t)[1..] == t;
      assert ([prefix + "." + key] + t)[1..] == t;
    }
  }

  /**
    `r` is `bag` with messages of `node` written into it: every key of `bag` is kept, keys not
    written keep their lists, and each written key is `prefix` followed by the dotted segments
    `origin` names for it, holding the messages found along those segments. When two paths spell
    the same key, `origin` names the one written last.
   */
  ghost predicate Written(node: Node, bag: MessageBag, prefix: string, r: MessageBag, origin: map<string, seq<string>>) {
    && (forall k | k in bag :: k in r)
    && (forall k | k in r && k !in origin :: k in bag && r[k] == bag[k])
    && (forall k | k in origin :: (k in r && Join([prefix] + origin[k], '.') == k &&
          NodeValue(node, origin[k]).Some? && r[k] == NodeValue(node, origin[k]).value))
  }

  /**
    `addMessagesFromNodeNodeToBag`: the messages of `node` and of every node below it copied into
    the bag, each under `prefix` followed by the dotted segments leading to it.
   */
  method AddMessagesFromNode(node: Node, bag: MessageBag, prefix: string)
    returns (r: MessageBag, ghost origin: map<string, seq<string>>)
    ensures Written(node, bag, prefix, r, origin)
    ensures forall s | NodeValue(node, s).Some? :: Join([prefix] + s, '.') in r
    decreases node, 1
  {
    r := bag;
    origin := map[];
    if node.value.Some? {
      r := r[prefix := node.value.value];
      origin := origin[prefix := []];
    }
    var todo := node.children.Keys;
    while todo != {}
      invariant todo <= node.children.Keys
      invariant Written(node, bag, prefix, r, origin)
      invariant forall s | NodeValue(node, s).Some? && (s == [] || s[0] !in todo) :: Join([prefix] + s, '.') in r
      decreases todo
    {
      var key :| key in todo;
      r, origin := AddChildMessages(node, key, bag, prefix, r, origin);
      todo := todo - {key};
    }
  }

  /** One turn of the loop over the children: the messages below child `key` added. */
  method AddChildMessages(node: Node, key: string, bag: MessageBag, prefix: string,
                          r: MessageBag, ghost origin: map<string, seq<string>>)
    returns (r2: MessageBag, ghost origin2: map<string, seq<string>>)
    requires key in node.children
    requires Written(node, bag, prefix, r, origin)
    ensures Written(node, bag, prefix, r2, origin2)
    ensures forall k | k in r :: k in r2
    ensures forall s | NodeValue(node, s).Some? && s != [] && s[0] == key :: Join([prefix] + s, '.') in r2
    decreases node, 0
  {
    var child := node.children[key];
    ghost var o';
    r2, o' := AddMessagesFromNode(child, r, prefix + "." + key);
    origin2 := map k | k in origin.Keys + o'.Keys :: if k in o' then [key] + o'[k] else origin[k];
    ChildWritten(node, key, bag, prefix, r, origin, r2, o', origin2);
    ChildPaths(node, key, prefix, r2);
  }

  /** What a child writes, with its segment put in front of its origins, keeps the parent's record. */
  lemma ChildWritten(node: Node, key: string, bag: MessageBag, prefix: string, r: MessageBag,
                     origin: map<string, seq<string>>, r2: MessageBag, o': map<string, seq<string>>,
                     origin2: map<string, seq<string>>)
    requires key in node.children
    requires Written(node, bag, prefix, r, origin)
    requires Written(node.children[key], r, prefix + "." + key, r2, o')
    requires origin2 == map k | k in origin.Keys + o'.Keys :: if k in o' then [key] + o'[k] else origin[k]
    ensures Written(node, bag, prefix, r2, origin2)
  {
    ChildKeys(node, key, prefix, o');
  }

  /** Every message path below a child is written once the child's messages are. */
  lemma ChildPaths(node: Node, key: string, prefix: string, r2: MessageBag)
    requires key in node.children
    requires forall s | NodeValue(node.children[key], s).Some? :: Join([prefix + "." + key] + s, '.') in r2
    ensures forall s | NodeValue(node, s).Some? && s != [] && s[0] == key :: Join([prefix] + s, '.') in r2
  {
    forall s | NodeValue(node, s).Some? && s != [] && s[0] == key ensures Join([prefix] + s, '.') in r2 {
      assert NodeValue(node, s) == NodeValue(node.children[key], s[1..]);
      JoinDotted(prefix, key, s[1..]);
      assert s == [key] + s[1..];
    }
  }

  /** The keys a child writes, seen from its parent: the child's segment followed by the child's own. */
  lemma ChildKeys(node: Node, key: string, prefix: string, o': map<string, seq<string>>)
    requires key in node.children
    ensures forall k | k in o' ::
      (Join([prefix + "." + key] + o'[k], '.') == k ==> Join([prefix] + ([key] + o'[k]), '.') == k) &&
      NodeValue(node.children[key], o'[k]) == NodeValue(node, [key] + o'[k])
  {
    forall k | k in o'
      ensures Join([prefix + "." + key] + o'[k], '.') == k ==> Join([prefix] + ([key] + o'[k]), '.') == k
      ensures NodeValue(node.children[key], o'[k]) == NodeValue(node, [key] + o'[k])
    {
      JoinDotted(prefix, key, o'[k]);
      assert ([key] + o'[k])[1..] == o'[k];
    }
  }

  /**
    `messageTreeToBag`: one key per node holding messages, the dotted path from the root, with
    a copy of its list. `origin` names the path each key was written from.
   */
  method MessageTreeToBag(tree: Tree) returns (bag: MessageBag, ghost origin: map<string, seq<string>>)
    ensures forall p | ValueAt(tree, p).Some? :: Join(p, '.') in bag
    ensures forall k | k in bag :: (k in origin && Join(origin[k], '.') == k &&
      ValueAt(tree, origin[k]).Some? && bag[k] == ValueAt(tree, origin[k]).value)
  {
    bag := map[];
    origin := map[];
    var todo := tree.Keys;
    while todo != {}
      invariant todo <= tree.Keys
      invariant ReadFrom(tree, bag, origin)
      invariant forall p | ValueAt(tree, p).Some? && p[0] !in todo :: Join(p, '.') in bag
      decreases todo
    {
      var key :| key in todo;
      var r', o' := AddMessagesFromNode(tree[key], bag, key);
      ghost var origin' := map k | k in origin.Keys + o'.Keys :: if k in o' then [key] + o'[k] else origin[k];
      TopWritten(tree, key, bag, origin, r', o', origin');
      TopPaths(tree, key, todo, bag, r');
      bag, origin := r', origin';
      todo := todo - {key};
    }
  }

  /** Every key of the bag read from a tree was written from a path holding its messages. */
  ghost predicate ReadFrom(tree: Tree, bag: MessageBag, origin: map<string, seq<string>>) {
    forall k | k in bag :: (k in origin && Join(origin[k], '.') == k &&
      ValueAt(tree, origin[k]).Some? && bag[k] == ValueAt(tree, origin[k]).value)
  }

  /** What a top-level node writes, with its key put in front of its origins, is read from the tree. */
  lemma TopWritten(tree: Tree, key: string, bag: MessageBag, origin: map<string, seq<string>>,
                   r': MessageBag, o': map<string, seq<string>>, origin': map<string, seq<string>>)
    requires key in tree
    requires ReadFrom(tree, bag, origin)
    requires Written(tree[key], bag, key, r', o')
    requires origin' == map k | k in origin.Keys + o'.Keys :: if k in o' then [key] + o'[k] else origin[k]
    ensures ReadFrom(tree, r', origin')
  {
    TopKeys(tree, key, o');
  }

  /** Once a top-level node is written, the paths starting at it are in the bag too. */
  lemma TopPaths(tree: Tree, key: string, todo: set<string>, bag: MessageBag, r': MessageBag)
    requires key in tree
    requires forall p | ValueAt(tree, p).Some? && p[0] !in todo :: Join(p, '.') in bag
    requires forall k | k in bag :: k in r'
    requires forall s | NodeValue(tree[key], s).Some? :: Join([key] + s, '.') in r'
    ensures forall p | ValueAt(tree, p).Some? && p[0] !in todo - {key} :: Join(p, '.') in r'
  {
    forall p | ValueAt(tree, p).Some? && p[0] !in todo - {key} ensures Join(p, '.') in r' {
      if p[0] == key {
        assert NodeValue(tree[key], p[1..]) == ValueAt(tree, p);
        assert p == [key] + p[1..];
      }
    }
  }

  /** The keys written from a top-level node, seen from the root. */
  lemma TopKeys(tree: Tree, key: string, o': map<string, seq<string>>)
    requires key in tree
    ensures forall k | k in o' :: NodeValue(tree[key], o'[k]) == ValueAt(tree, [key] + o'[k])
  {
    forall k | k in o' ensures NodeValue(tree[key], o'[k]) == ValueAt(tree, [key] + o'[k]) {
      assert ([key] + o'[k])[1..] == o'[k];
    }
  }

  /**
    A bag whose message lists are all non-empty survives the trip through a tree: the bag read
    back from the tree of `bag` is `bag`.
   */
  lemma BagTreeRoundTrip(bag: MessageBag, tree: Tree, back: MessageBag, origin: map<string, seq<string>>)
    requires forall path | path in bag :: bag[path] != []
    requires IsTreeOf(bag, tree)
    requires forall p | ValueAt(tree, p).Some? :: Join(p, '.') in back
    requires forall k | k in back :: (k in origin && Join(origin[k], '.') == k &&
      ValueAt(tree, origin[k]).Some? && back[k] == ValueAt(tree, origin[k]).value)
    ensures back == bag
  {
    forall path | path in bag ensures path in back && back[path] == bag[path] {
      JoinSplit(path, '.');
      var o := origin[path];
      assert Split(Join(o, '.'), '.') == o;
    }
    assert back.Keys == bag.Keys;
  }

  /** An entry with no messages does not survive: the tree has nowhere to keep an empty list. */
  lemma EmptyListLost(bag: MessageBag, tree: Tree, path: string)
    requires IsTreeOf(bag, tree)
    requires path in bag && bag[path] == []
    ensures forall p | ValueAt(tree, p).Some? :: Join(p, '.') != path
  {
  }

  // ---------------------------------------------------------------------------
  // Copies. Trees are values in the model, so a copy is an equal tree.

  /** `copyMessageTree`: every top-level node copied. */
  method CopyMessageTree(ghost whole: Node, tree: Tree) returns (r: Tree)
    requires whole.children == tree
    ensures r == tree
    decreases whole, 0
  {
    r := map[];
    var todo := tree.Keys;
    while todo != {}
      invariant todo <= tree.Keys
      invariant r.Keys == tree.Keys - todo
      invariant forall k | k in r :: r[k] == tree[k]
      decreases todo
    {
      var key :| key in todo;
      var copy := CopyMessageNode(tree[key]);
      r := r[key := copy];
      todo := todo - {key};
    }
  }

  /** `copyMessageNode`: the children copied, and the message list copied when there is one. */
  method CopyMessageNode(node: Node) returns (r: Node)
    ensures r == node
    decreases node, 1
  {
    var children := CopyMessageTree(node, node.children);
    r := Node(None, children);
    if node.value.Some? {
      r := r.(value := Some(node.value.value[..]));
    }
  }
}
