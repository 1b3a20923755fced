/**
 * The XML tree node: one element with a prefix, a local name, a mutable text value, an
 * ordered list of children and an ordered list of key/value arguments (attributes), each
 * list with a derived index (children grouped by name, arguments by key).
 * Children and arguments are only ever appended.
 */
module XmlTree {
  import opened Wrappers
  import Paths

  /** One key/value pair of a node's argument list (javafx.util.Pair in the original). */
  datatype Argument = Argument(key: string, value: string)

  // ---------------------------------------------------------------------------
  // Arguments: the ordered list is authoritative; the map is derived from it.
  // ---------------------------------------------------------------------------

  /** The value of the first argument with key k, if any. */
  function Lookup(args: seq<Argument>, k: string): (r: Option<string>)
    ensures r.None? <==> forall i :: 0 <= i < |args| ==> args[i].key != k
    ensures r.Some? ==> exists i :: 0 <= i < |args| && args[i] == Argument(k, r.value)
  {
    if args == [] then None
    else if args[0].key == k then Some(args[0].value)
    else
      var r := Lookup(args[1..], k);
      assert r.Some? ==> exists i :: 0 <= i < |args[1..]| && args[1..][i] == Argument(k, r.value);
      r
  }

  predicate DistinctKeys(args: seq<Argument>) {
    forall i, j :: 0 <= i < j < |args| ==> args[i].key != args[j].key
  }

  /** The argument index, built the way the node builds it: one put per appended pair. */
  function Indexed(args: seq<Argument>): map<string, string> {
    if args == [] then map[]
    else
      var last := args[|args| - 1];
      Indexed(args[..|args| - 1])[last.key := last.value]
  }

  /** What addArgument does to the list: append (k, v) unless the key is already there. */
  function WithArgument(args: seq<Argument>, k: string, v: string): seq<Argument> {
    if Lookup(args, k).Some? then args else args + [Argument(k, v)]
  }

  lemma {:induction false} LookupAppend(args: seq<Argument>, a: Argument, k: string)
    ensures Lookup(args + [a], k) ==
      if Lookup(args, k).Some? then Lookup(args, k) else if a.key == k then Some(a.value) else None
  {
    if args != [] {
      assert (args + [a])[1..] == args[1..] + [a];
      LookupAppend(args[1..], a, k);
    }
  }

  /** Looking a key up in a concatenation: the first list wins. */
  lemma {:induction false} LookupConcat(a: seq<Argument>, b: seq<Argument>, k: string)
    ensures Lookup(a + b, k) == if Lookup(a, k).Some? then Lookup(a, k) else Lookup(b, k)
  {
    if a != [] {
      assert (a + b)[0] == a[0] && (a + b)[1..] == a[1..] + b;
      LookupConcat(a[1..], b, k);
    } else {
      assert a + b == b;
    }
  }

  /**
   * With distinct keys the index agrees with the list: a key is in the index exactly when
   * some pair carries it, and it maps to that pair's value.
   */
  lemma {:induction false} IndexedAgreesWithList(args: seq<Argument>, k: string)
    requires DistinctKeys(args)
    ensures k in Indexed(args) <==> Lookup(args, k).Some?
    ensures k in Indexed(args) ==> Lookup(args, k) == Some(Indexed(args)[k])
  {
    if args != [] {
      var init, last := args[..|args| - 1], args[|args| - 1];
      assert args == init + [last];
      IndexedAgreesWithList(init, k);
      LookupAppend(init, last, k);
      if last.key == k {
        assert Lookup(init, k).None?;
      }
    }
  }

  /**
   * addArgument's list update keeps keys distinct; the first write of a key wins, and every
   * other key is looked up as before.
   */
  lemma WithArgumentFirstWins(args: seq<Argument>, k: string, v: string)
    requires DistinctKeys(args)
    ensures DistinctKeys(WithArgument(args, k, v))
    ensures Lookup(WithArgument(args, k, v), k) == if Lookup(args, k).Some? then Lookup(args, k) else Some(v)
    ensures forall k' :: k' != k ==> Lookup(WithArgument(args, k, v), k') == Lookup(args, k')
  {
    forall k' {
      LookupAppend(args, Argument(k, v), k');
    }
  }

  // ---------------------------------------------------------------------------
  // Children: the ordered list is authoritative; the name index is derived from it.
  // ---------------------------------------------------------------------------

  /** The children named n, in document order. */
  function Named(cs: seq<XmlNode>, n: string): (r: seq<XmlNode>)
    ensures forall i :: 0 <= i < |r| ==> r[i] in cs && r[i].name == n
    ensures forall i :: 0 <= i < |cs| && cs[i].name == n ==> cs[i] in r
    ensures |r| <= |cs|
  {
    if cs == [] then []
    else (if cs[0].name == n then [cs[0]] else []) + Named(cs[1..], n)
  }

  /** The first child named n in document order, or null. */
  function FirstNamed(cs: seq<XmlNode>, n: string): (r: XmlNode?)
    ensures r == null <==> forall i :: 0 <= i < |cs| ==> cs[i].name != n
    ensures r != null ==> r in cs && r.name == n
    ensures r != null ==> exists i :: 0 <= i < |cs| && cs[i] == r && forall j :: 0 <= j < i ==> cs[j].name != n
  {
    if cs == [] then null
    else if cs[0].name == n then cs[0]
    else
      var r := FirstNamed(cs[1..], n);
      assert forall i :: 0 <= i < |cs| - 1 ==> cs[1..][i] == cs[i + 1];
      r
  }

  /** The children index, built the way addNode builds it: one group append per appended child. */
  function Grouped(cs: seq<XmlNode>): map<string, seq<XmlNode>> {
    if cs == [] then map[]
    else
      var g := Grouped(cs[..|cs| - 1]);
      var c := cs[|cs| - 1];
      g[c.name := (if c.name in g then g[c.name] else []) + [c]]
  }

  lemma {:induction false} NamedAppend(cs: seq<XmlNode>, c: XmlNode, n: string)
    ensures Named(cs + [c], n) == Named(cs, n) + (if c.name == n then [c] else [])
  {
    if cs != [] {
      assert (cs + [c])[1..] == cs[1..] + [c];
      NamedAppend(cs[1..], c, n);
    }
  }

  /**
   * The children index never diverges from the list: name n has a group exactly when some
   * child is named n, and the group is the list filtered to that name, in order.
   */
  lemma {:induction false} GroupedIsNamed(cs: seq<XmlNode>, n: string)
    ensures n in Grouped(cs) <==> Named(cs, n) != []
    ensures n in Grouped(cs) ==> Grouped(cs)[n] == Named(cs, n)
  {
    if cs != [] {
      var init, c := cs[..|cs| - 1], cs[|cs| - 1];
      assert cs == init + [c];
      GroupedIsNamed(init, n);
      NamedAppend(init, c, n);
    }
  }

  /** The head of the name group is the first child with that name. */
  lemma {:induction false} NamedHead(cs: seq<XmlNode>, n: string)
    ensures Named(cs, n) == [] <==> FirstNamed(cs, n) == null
    ensures Named(cs, n) != [] ==> Named(cs, n)[0] == FirstNamed(cs, n)
  {
    if cs != [] && cs[0].name != n {
      NamedHead(cs[1..], n);
    }
  }

  // ---------------------------------------------------------------------------
  // The node.
  // ---------------------------------------------------------------------------

  class XmlNode {
    const prefix: Option<string>
    const name: string
    var value: Option<string>
    var children: seq<XmlNode>
    var arguments: seq<Argument>
    var childrenMap: map<string, seq<XmlNode>>
    var argumentsMap: map<string, string>

    /** Both indexes are exactly what the lists determine, and argument keys are unique. */
    ghost predicate Valid()
      reads this
    {
      childrenMap == Grouped(children) &&
      argumentsMap == Indexed(arguments) &&
      DistinctKeys(arguments)
    }

    /** XMLNode(name): no prefix (null), no value. */
    constructor Create(name: string)
      ensures Valid()
      ensures this.prefix == None && this.name == name && value == None
      ensures children == [] && arguments == []
    {
      this.prefix := None;
      this.name := name;
      value := None;
      children := [];
      arguments := [];
      argumentsMap := map[];
      childrenMap := map[];
    }

    /** XMLNode(prefix, name): no value. */
    constructor WithPrefix(prefix: Option<string>, name: string)
      ensures Valid()
      ensures this.prefix == prefix && this.name == name && value == None
      ensures children == [] && arguments == []
    {
      this.prefix := prefix;
      this.name := name;
      value := None;
      children := [];
      arguments := [];
      argumentsMap := map[];
      childrenMap := map[];
    }

    /** XMLNode(prefix, name, value). */
    constructor WithValue(prefix: Option<string>, name: string, value: Option<string>)
      ensures Valid()
      ensures this.prefix == prefix && this.name == name && this.value == value
      ensures children == [] && arguments == []
    {
      this.prefix := prefix;
      this.name := name;
      this.value := value;
      children := [];
      arguments := [];
      argumentsMap := map[];
      childrenMap := map[];
    }

    /** getNode: the first child with the given name in document order, or null. */
    function GetNode(childName: string): (r: XmlNode?)
      reads this
      requires Valid()
      ensures r == FirstNamed(children, childName)
    {
      GroupedIsNamed(children, childName);
      NamedHead(children, childName);
      if childName in childrenMap && childrenMap[childName] != [] then childrenMap[childName][0] else null
    }

    /** getNodeList: every child with the given name in document order, or null when there is none. */
    function GetNodeList(childName: string): (r: Option<seq<XmlNode>>)
      reads this
      requires Valid()
      ensures r.None? <==> forall i :: 0 <= i < |children| ==> children[i].name != childName
      ensures r.Some? ==> r.value == Named(children, childName) && r.value != []
    {
      GroupedIsNamed(children, childName);
      NamedHead(children, childName);
      if childName in childrenMap then Some(childrenMap[childName]) else None
    }

    /** addNode: append a child; its name group grows by it and no other group changes. */
    method AddNode(c: XmlNode)
      requires Valid()
      modifies this
      ensures Valid()
      ensures children == old(children) + [c]
      ensures Named(children, c.name) == Named(old(children), c.name) + [c]
      ensures forall n :: n != c.name ==> Named(children, n) == Named(old(children), n)
      ensures value == old(value) && arguments == old(arguments)
    {
      NamedAppendAll(children, c);
      children := children + [c];
      var group := if c.name in childrenMap then childrenMap[c.name] else [];
      childrenMap := childrenMap[c.name := group + [c]];
      assert children[..|children| - 1] == old(children);
    }

    /** getArgument: the value stored under the key, or null. */
    function GetArgument(key: string): (r: Option<string>)
      reads this
      requires Valid()
      ensures r == Lookup(arguments, key)
    {
      IndexedAgreesWithList(arguments, key);
      if key in argumentsMap then Some(argumentsMap[key]) else None
    }

    /** addArgument: false and no change when the key is present; else append the pair. */
    method AddArgument(key: string, v: string) returns (added: bool)
      requires Valid()
      modifies this
      ensures Valid()
      ensures added <==> Lookup(old(arguments), key).None?
      ensures arguments == WithArgument(old(arguments), key, v)
      ensures Lookup(arguments, key) == if added then Some(v) else Lookup(old(arguments), key)
      ensures value == old(value) && children == old(children)
    {
      IndexedAgreesWithList(arguments, key);
      if key in argumentsMap {
        return false;
      }
      WithArgumentFirstWins(arguments, key, v);
      arguments := arguments + [Argument(key, v)];
      argumentsMap := argumentsMap[key := v];
      assert arguments[..|arguments| - 1] == old(arguments);
      added := true;
    }

    /** setValue (a Lombok setter). */
    method SetValue(v: Option<string>)
      modifies this
      ensures value == v
      ensures children == old(children) && arguments == old(arguments)
      ensures childrenMap == old(childrenMap) && argumentsMap == old(argumentsMap)
    {
      value := v;
    }

    // -------------------------------------------------------------------------
    // Path navigation. U is the set of nodes of the tree this node heads.
    // -------------------------------------------------------------------------

    /** getNodeAtPath: step through the '/'-separated segments, each time to the first child with that name. */
    method GetNodeAtPath(path: Option<string>, ghost U: set<XmlNode>) returns (r: XmlNode?)
      requires this in U && Closed(U)
      ensures r == ResolvePath(U, this, path)
    {
      if path.None? || path.value == "" {
        return null;
      }
      var parts := Paths.Split(path.value);
      var current: XmlNode? := this;
      for i := 0 to |parts|
        invariant current != null ==> current in U && Resolve(U, current, parts[i..]) == Resolve(U, this, parts)
        invariant current == null ==> Resolve(U, this, parts) == null
      {
        if current != null {
          assert parts[i..][0] == parts[i] && parts[i..][1..] == parts[i + 1..];
          current := current.GetNode(parts[i]);
        } else {
          return null;
        }
      }
      return current;
    }

    /** addNodeAtPath: append newNode below the node the path leads to; false and no change when it leads nowhere. */
    method AddNodeAtPath(path: Option<string>, newNode: XmlNode, ghost U: set<XmlNode>, ghost V: set<XmlNode>)
      returns (ok: bool)
      requires this in U && Closed(U)
      requires newNode in V && Closed(V) && U !! V
      modifies U
      ensures ok <==> old(ResolvePath(U, this, path)) != null
      ensures !ok ==> unchanged(U)
      ensures ok ==> var x := old(ResolvePath(U, this, path));
        x.children == old(x.children) + [newNode] && x.value == old(x.value) &&
        x.arguments == old(x.arguments) && unchanged(U - {x})
      ensures Closed(U + V)
    {
      var x := GetNodeAtPath(path, U);
      if x != null {
        AppendInto(x, newNode, U, V);
        return true;
      }
      return false;
    }

    /** getValueAtPath: the value of the node the path leads to; null when it leads nowhere. */
    method GetValueAtPath(path: Option<string>, ghost U: set<XmlNode>) returns (r: Option<string>)
      requires this in U && Closed(U)
      ensures ResolvePath(U, this, path) == null ==> r == None
      ensures ResolvePath(U, this, path) != null ==> r == ResolvePath(U, this, path).value
    {
      var x := GetNodeAtPath(path, U);
      if x != null {
        return x.value;
      }
      return None;
    }

    /** setValueAtPath: set the value of the node the path leads to; false and no change when it leads nowhere. */
    method SetValueAtPath(path: Option<string>, v: Option<string>, ghost U: set<XmlNode>) returns (ok: bool)
      requires this in U && Closed(U)
      modifies U
      ensures ok <==> old(ResolvePath(U, this, path)) != null
      ensures !ok ==> unchanged(U)
      ensures ok ==> var x := old(ResolvePath(U, this, path));
        x.value == v && x.children == old(x.children) && x.arguments == old(x.arguments) &&
        unchanged(U - {x})
      ensures Closed(U)
    {
      var x := GetNodeAtPath(path, U);
      if x != null {
        x.SetValue(v);
        return true;
      }
      return false;
    }

    /** getArgumentAtPath: the argument of the node the path leads to; null when it leads nowhere. */
    method GetArgumentAtPath(path: Option<string>, key: string, ghost U: set<XmlNode>) returns (r: Option<string>)
      requires this in U && Closed(U)
      ensures ResolvePath(U, this, path) == null ==> r == None
      ensures ResolvePath(U, this, path) != null ==> r == Lookup(ResolvePath(U, this, path).arguments, key)
    {
      var x := GetNodeAtPath(path, U);
      if x != null {
        return x.GetArgument(key);
      }
      return None;
    }

    /**
     * addArgumentAtPath: add the argument to the node the path leads to. The result says only
     * whether the path led somewhere: it is true even when the key was already there.
     */
    method AddArgumentAtPath(path: Option<string>, key: string, v: string, ghost U: set<XmlNode>) returns (ok: bool)
      requires this in U && Closed(U)
      modifies U
      ensures ok <==> old(ResolvePath(U, this, path)) != null
      ensures !ok ==> unchanged(U)
      ensures ok ==> var x := old(ResolvePath(U, this, path));
        x.arguments == WithArgument(old(x.arguments), key, v) && x.value == old(x.value) &&
        x.children == old(x.children) && unchanged(U - {x})
      ensures Closed(U)
    {
      var x := GetNodeAtPath(path, U);
      if x != null {
        var _ := x.AddArgument(key, v);
        return true;
      }
      return false;
    }
  }

  /** addNode on a node of one closed set, with a node of another: the union is closed afterwards. */
  method AppendInto(x: XmlNode, newNode: XmlNode, ghost U: set<XmlNode>, ghost V: set<XmlNode>)
    requires x in U && Closed(U)
    requires newNode in V && Closed(V) && U !! V
    modifies x
    ensures x.children == old(x.children) + [newNode] && x.value == old(x.value) && x.arguments == old(x.arguments)
    ensures Closed(U + V)
  {
    x.AddNode(newNode);
    forall m | m in U + V
      ensures m.Valid() && forall c :: c in m.children ==> c in U + V
    {
      if m != x {
        assert old(m.children) == m.children;
      }
    }
  }

  /** Every node of U satisfies the node invariant, and the children of a node of U are in U. */
  ghost predicate Closed(U: set<XmlNode>)
    reads U
  {
    forall m :: m in U ==> m.Valid() && forall c :: c in m.children ==> c in U
  }

  /** Path resolution over the authoritative child lists: the first child named after each segment, in turn. */
  ghost function Resolve(U: set<XmlNode>, n: XmlNode, parts: seq<string>): (r: XmlNode?)
    reads U
    requires n in U && Closed(U)
    ensures r != null ==> r in U
    ensures r != null && parts != [] ==> r.name == parts[|parts| - 1]
    ensures r == null ==> parts != []
    decreases |parts|
  {
    if parts == [] then n
    else
      var c := FirstNamed(n.children, parts[0]);
      if c == null then null else Resolve(U, c, parts[1..])
  }

  /** What getNodeAtPath resolves: nothing for a null or empty path, else the split path. */
  ghost function ResolvePath(U: set<XmlNode>, n: XmlNode, path: Option<string>): (r: XmlNode?)
    reads U
    requires n in U && Closed(U)
    ensures r != null ==> r in U
    ensures path.None? || path.value == "" ==> r == null
    ensures path.Some? && r != null && Paths.Split(path.value) != [] ==>
              r.name == Paths.Split(path.value)[|Paths.Split(path.value)| - 1]
  {
    if path.None? || path.value == "" then null else Resolve(U, n, Paths.Split(path.value))
  }

  lemma NamedAppendAll(cs: seq<XmlNode>, c: XmlNode)
    ensures forall n :: Named(cs + [c], n) == Named(cs, n) + (if c.name == n then [c] else [])
  {
    forall n {
      NamedAppend(cs, c, n);
    }
  }

  /** Resolving p + q is resolving p and then, from where p leads, resolving q. */
  lemma {:induction false} ResolveConcat(U: set<XmlNode>, n: XmlNode, p: seq<string>, q: seq<string>)
    requires n in U && Closed(U)
    ensures Resolve(U, n, p + q) ==
      var m := Resolve(U, n, p); if m == null then null else Resolve(U, m, q)
    decreases |p|
  {
    if p != [] {
      assert (p + q)[0] == p[0] && (p + q)[1..] == p[1..] + q;
      var c := FirstNamed(n.children, p[0]);
      if c != null {
        ResolveConcat(U, c, p[1..], q);
      }
    } else {
      assert p + q == q;
    }
  }

  /** Once a segment misses, no longer path through it resolves. */
  lemma MissIsFinal(U: set<XmlNode>, n: XmlNode, p: seq<string>, q: seq<string>)
    requires n in U && Closed(U)
    requires Resolve(U, n, p) == null
    ensures Resolve(U, n, p + q) == null
  {
    ResolveConcat(U, n, p, q);
  }

  /** A resolved node is a child of the node its parent path leads to, carrying the last segment's name, and the first such child. */
  lemma ResolveLast(U: set<XmlNode>, n: XmlNode, parts: seq<string>)
    requires n in U && Closed(U)
    requires parts != [] && Resolve(U, n, parts) != null
    ensures var parent := Resolve(U, n, parts[..|parts| - 1]);
      parent != null && Resolve(U, n, parts) == FirstNamed(parent.children, parts[|parts| - 1]) &&
      Resolve(U, n, parts) in parent.children && Resolve(U, n, parts).name == parts[|parts| - 1]
  {
    var init, last := parts[..|parts| - 1], parts[|parts| - 1];
    assert parts == init + [last];
    ResolveConcat(U, n, init, [last]);
  }

  // ---------------------------------------------------------------------------
  // The value view of a tree of nodes.
  // ---------------------------------------------------------------------------

  /** An element as a value: what a node and everything below it hold. */
  datatype Element = Element(prefix: Option<string>, name: string, value: Option<string>,
                             arguments: seq<Argument>, children: seq<Element>)

  /**
   * n and every node below it lie in U, and no node is below itself: following children
   * from n removes the node just left from the set, so the descent is finite.
   */
  ghost predicate TreeIn(U: set<XmlNode>, n: XmlNode)
    reads U
    decreases U
  {
    n in U && forall c :: c in n.children ==> TreeIn(U - {n}, c)
  }

  /** The element a node heads, read off the heap. */
  ghost function Snapshot(U: set<XmlNode>, n: XmlNode): (e: Element)
    reads U
    requires TreeIn(U, n)
    ensures e.prefix == n.prefix && e.name == n.name && e.value == n.value
    ensures e.arguments == n.arguments && |e.children| == |n.children|
    decreases U, 0, 0
  {
    Element(n.prefix, n.name, n.value, n.arguments, Snapshots(U - {n}, n.children))
  }

  ghost function Snapshots(U: set<XmlNode>, cs: seq<XmlNode>): (es: seq<Element>)
    reads U
    requires forall c :: c in cs ==> TreeIn(U, c)
    ensures |es| == |cs|
    decreases U, 1, |cs|
  {
    if cs == [] then [] else [Snapshot(U, cs[0])] + Snapshots(U, cs[1..])
  }

  /** The snapshots of a list of nodes, one by one. */
  lemma {:induction false} SnapshotsAt(U: set<XmlNode>, cs: seq<XmlNode>, i: int)
    requires forall c :: c in cs ==> TreeIn(U, c)
    requires 0 <= i < |cs|
    ensures Snapshots(U, cs)[i] == Snapshot(U, cs[i])
  {
    if i > 0 {
      SnapshotsAt(U, cs[1..], i - 1);
    }
  }

  /** A larger node set describes the same tree: TreeIn and the snapshot do not depend on U beyond the nodes reached. */
  lemma {:induction false} TreeInGrows(U: set<XmlNode>, W: set<XmlNode>, n: XmlNode)
    requires TreeIn(U, n) && U <= W
    ensures TreeIn(W, n) && Snapshot(W, n) == Snapshot(U, n)
    decreases U
  {
    forall c | c in n.children
      ensures TreeIn(W - {n}, c) && Snapshot(W - {n}, c) == Snapshot(U - {n}, c)
    {
      TreeInGrows(U - {n}, W - {n}, c);
    }
    SnapshotsGrow(U - {n}, W - {n}, n.children);
  }

  lemma {:induction false} SnapshotsGrow(U: set<XmlNode>, W: set<XmlNode>, cs: seq<XmlNode>)
    requires forall c :: c in cs ==> TreeIn(U, c) && TreeIn(W, c) && Snapshot(W, c) == Snapshot(U, c)
    ensures Snapshots(W, cs) == Snapshots(U, cs)
  {
    if cs != [] {
      SnapshotsGrow(U, W, cs[1..]);
    }
  }
}
