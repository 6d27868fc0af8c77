/** DecisionTree.java: the nodes of the tree on the heap, the recursive
    builder that assigns their children arrays in place, and the recursive
    renderer.  Each method is proved against the functions of the Trees and
    Rendering modules. */
module DecisionTrees {
  import opened Results
  import opened DataSets
  import opened Trees
  import opened Rendering

  /** A tree node: its dataset (a reference that may be null) and its
      children array, null until build assigns it. */
  class Node {
    const data: Option<DataSet>
    var children: array?<Node?>
    ghost var Repr: set<object>

    /** The node and everything below it form a tree: every node has data,
        every slot of a children array holds a node, and each child's
        footprint lies inside its parent's and excludes the parent. */
    ghost predicate Valid()
      reads this, Repr
      decreases Repr
    {
      && this in Repr
      && data.Some?
      && (children != null ==>
            && children in Repr
            && (forall i, j :: 0 <= i < j < children.Length ==> children[i] != children[j])
            && forall i :: 0 <= i < children.Length ==>
                 && children[i] != null
                 && children[i] in Repr
                 && children[i].Repr <= Repr
                 && this !in children[i].Repr
                 && children[i].Valid())
    }

    /** The finished tree this node stands for. */
    ghost function Abs(): Tree
      requires Valid()
      reads this, Repr
      decreases Repr, 1, 0
    {
      if children == null then Leaf(data.value) else Internal(data.value, ChildrenAbs(children.Length))
    }

    /** The trees of the first n children. */
    ghost function ChildrenAbs(n: nat): (ts: seq<Tree>)
      requires Valid() && children != null && n <= children.Length
      reads this, Repr
      ensures |ts| == n
      ensures forall k :: 0 <= k < n ==> ts[k] == children[k].Abs()
      decreases Repr, 0, n
    {
      if n == 0 then [] else ChildrenAbs(n - 1) + [children[n - 1].Abs()]
    }

    /** A change of the heap that leaves the footprint alone leaves the
        node valid and its tree as it was. */
    twostate lemma Unaffected()
      requires old(Valid()) && unchanged(old(Repr))
      ensures Valid() && Abs() == old(Abs())
    {
    }

    /** Child i of a valid internal node is valid, has a strictly smaller
        footprint and stands for child i of the node's tree. */
    lemma ChildIsSubtree(i: nat)
      requires Valid() && children != null && i < children.Length
      ensures children[i] != null && children[i].Valid() && children[i].Repr < Repr
      ensures Abs().Internal? && |Abs().children| == children.Length
      ensures children[i].Abs() == Abs().children[i]
      ensures Abs().children[i].data == children[i].data.value
    {
    }

    /** Takes ownership of built children: the footprint becomes the node
        and the objects below it. */
    ghost method Adopt(below: set<object>, built: seq<Tree>)
      requires data.Some? && children != null && children in below && this !in below
      requires |built| == children.Length
      requires forall i, j :: 0 <= i < j < children.Length ==> children[i] != children[j]
      requires forall k :: 0 <= k < children.Length ==>
        && children[k] != null && children[k] in below && children[k].Repr <= below
        && children[k].Valid() && children[k].Abs() == built[k]
      modifies this
      ensures children == old(children) && Repr == {this} + below
      ensures Valid() && Abs() == Internal(data.value, built)
    {
      label before:
      Repr := {this} + below;
      forall k | 0 <= k < children.Length
        ensures children[k].Valid() && children[k].Abs() == built[k]
      {
        children[k].Unaffected@before();
      }
      assert ChildrenAbs(children.Length) == built;
    }

    constructor (data: Option<DataSet>)
      ensures this.data == data && children == null && Repr == {this}
    {
      this.data := data;
      children := null;
      Repr := {this};
    }
  }

  /** The lookup loop of build: the least index whose entry equals `key`,
      or 0 when there is none. */
  method IndexOf(xs: seq<string>, key: string) returns (i: nat)
    ensures i == FirstIndex(xs, key)
  {
    i := 0;
    var n := 0;
    while n < |xs|
      invariant 0 <= n <= |xs|
      invariant forall k :: 0 <= k < n ==> xs[k] != key
    {
      if xs[n] == key {
        i := n;
        break;
      }
      n := n + 1;
    }
  }

  class DecisionTree {
    const root: Node

    ghost predicate Valid()
      reads this, root, root.Repr
    {
      this !in root.Repr && root.Valid()
    }

    constructor Of(root: Node)
      requires root.Valid()
      ensures this.root == root
    {
      this.root := root;
    }

    /** The constructor DecisionTree(ActualDataSet): rejects a null training
        set, wraps its view in the root and builds the tree from it.  A
        failed build throws, so no tree is returned. */
    static method Create(data: Option<DataSet>, o: Collaborators) returns (r: Result<DecisionTree, Exception>)
      requires o.Valid()
      ensures data.None? ==> r == Failure(IllegalArgument)
      ensures data.Some? ==>
        var built := BuildTree(o.toVirtual(data.value), o);
        && (r.Success? <==> built.Success?)
        && (r.Failure? ==> r.error == built.error)
        && (r.Success? ==> fresh(r.value) && r.value.Valid() && r.value.root.Abs() == built.value)
    {
      if data.None? {
        return Failure(IllegalArgument);
      }
      var node := new Node(Some(o.toVirtual(data.value)));
      var out := Build(node, o);
      if out.Fail? {
        return Failure(out.error);
      }
      var tree := new DecisionTree.Of(node);
      return Success(tree);
    }

    /** build(node): the entry checks, the base cases that leave the node a
        leaf, and the recursive case that partitions by the best-ranked
        attribute and builds one child per part. */
    static method Build(node: Node?, o: Collaborators) returns (r: Outcome<Exception>)
      requires o.Valid()
      requires node != null ==> node.children == null
      modifies node
      ensures node == null || node.data.None? ==> r == Fail(NullPointer)
      ensures node != null && node.data.Some? ==>
        var built := BuildTree(node.data.value, o);
        && (r.Pass? <==> built.Success?)
        && (r.Fail? ==> r.error == built.error)
        && (r.Pass? ==> node.Valid() && fresh(node.Repr - {node}) && node.Abs() == built.value)
      ensures node != null && (node.data.None? || !Admissible(node.data.value)) ==> unchanged(node)
      ensures node != null && node.data.Some? && Admissible(node.data.value) && IsLeafCase(node.data.value) ==>
        r == Pass && node.children == null
      ensures node != null && node.data.Some? && Admissible(node.data.value) && !IsLeafCase(node.data.value) ==>
        var parts := Partition(node.data.value, o);
        && node.children != null && fresh(node.children) && node.children.Length == |parts|
        && forall k :: 0 <= k < |parts| ==> node.children[k] != null && node.children[k].data == Some(parts[k])
      decreases if node != null && node.data.Some? then o.measure(node.data.value) else 0, 3
    {
      if node == null || node.data.None? {
        return Fail(NullPointer);
      }
      var d := node.data.value;
      if d.NumAttributes() < 1 {
        return Fail(NoAttributes);
      }
      if d.numRows == 0 {
        return Fail(NoDatapoints);
      }
      if d.NumAttributes() == 1 {
        node.Repr := {node};
        return Pass;
      } else if |d.attributes[d.NumAttributes() - 1].values| == 1 {
        node.Repr := {node};
        return Pass;
      } else if d.numRows < 1 {
        // Unreachable: the row count is a natural number and 0 was rejected above.
        return Pass;
      }
      var sortedGains := o.rankByGain(d);
      var aMax := sortedGains[0];
      var i := IndexOf(Names(d.attributes), aMax.attributeName);
      var parts: seq<DataSet>;
      if aMax.attributeType == Nominal {
        parts := o.partitionByNominal(d, i);
      } else {
        var j := IndexOf(d.attributes[i].values, aMax.splitAt);
        parts := o.partitionByNumeric(d, i, j);
      }
      assert parts == Partition(d, o);
      r := AttachChildren(node, parts, o);
    }

    /** The part build shares between its nominal and numeric branches:
        assign the node a children array with one fresh node per part, in
        order, then build the children in index order; an exception from a
        child leaves the later children unbuilt and is rethrown. */
    static method AttachChildren(node: Node, parts: seq<DataSet>, o: Collaborators) returns (r: Outcome<Exception>)
      requires o.Valid()
      requires node.data.Some? && node.children == null
      requires forall k :: 0 <= k < |parts| ==> o.measure(parts[k]) < o.measure(node.data.value)
      modifies node
      ensures node.children != null && fresh(node.children) && node.children.Length == |parts|
      ensures forall k :: 0 <= k < |parts| ==> node.children[k] != null && node.children[k].data == Some(parts[k])
      ensures
        var built := BuildForest(node.data.value, parts, o);
        && (r.Pass? <==> built.Success?)
        && (r.Fail? ==> r.error == built.error)
        && (r.Pass? ==> node.Valid() && fresh(node.Repr - {node}) && node.Abs() == Internal(node.data.value, built.value))
      decreases o.measure(node.data.value), 2
    {
      var d := node.data.value;
      ghost var kidSet;
      var kids;
      kids, kidSet := NewChildren(parts);
      node.children := kids;
      ghost var below, built;
      r, below, built := BuildChildren(kids, parts, d, o);
      if r.Fail? {
        return;
      }
      ghost var newNodes := {kids} + kidSet + below;
      assert fresh(newNodes) && node !in newNodes;
      node.Adopt(newNodes, built);
      assert node.Repr - {node} == newNodes;
    }

    /** The loop of build that builds the children in index order,
        stopping at the first exception.  `below` collects the nodes the
        children's builds allocate. */
    static method BuildChildren(kids: array<Node?>, parts: seq<DataSet>, ghost d: DataSet, o: Collaborators)
      returns (r: Outcome<Exception>, ghost below: set<object>, ghost built: seq<Tree>)
      requires o.Valid()
      requires kids.Length == |parts|
      requires forall k :: 0 <= k < |parts| ==> o.measure(parts[k]) < o.measure(d)
      requires forall k :: 0 <= k < kids.Length ==>
        kids[k] != null && kids[k].data == Some(parts[k]) && kids[k].children == null
      requires forall k, m :: 0 <= k < m < kids.Length ==> kids[k] != kids[m]
      modifies set k | 0 <= k < kids.Length :: kids[k]
      ensures r.Pass? <==> BuildForest(d, parts, o).Success?
      ensures r.Fail? ==> r.error == BuildForest(d, parts, o).error
      ensures r.Pass? ==> BuildForest(d, parts, o) == Success(built)
      ensures r.Pass? ==> forall k :: 0 <= k < kids.Length ==>
        kids[k].Valid() && kids[k].Abs() == built[k] && kids[k].Repr <= below + {kids[k]}
      ensures fresh(below)
      decreases o.measure(d), 1
    {
      below := {};
      built := [];
      var n := 0;
      while n < kids.Length
        invariant 0 <= n <= kids.Length
        invariant forall k :: n <= k < kids.Length ==> kids[k].children == null && kids[k] !in below
        invariant fresh(below)
        invariant |built| == n
        invariant forall k :: 0 <= k < n ==>
          kids[k].Valid() && kids[k].Abs() == built[k] && kids[k].Repr <= below + {kids[k]}
        invariant BuildForest(d, parts[..n], o) == Success(built)
      {
        r, below, built := BuildNext(kids, parts, n, d, o, below, built);
        if r.Fail? {
          ForestFailureIsFinal(d, parts, n + 1, o);
          return;
        }
        n := n + 1;
      }
      assert parts[..n] == parts;
      r := Pass;
    }

    /** One turn of the loop of BuildChildren: build child n, leaving the
        children before it as they were. */
    static method BuildNext(kids: array<Node?>, parts: seq<DataSet>, n: nat, ghost d: DataSet, o: Collaborators,
                            ghost below: set<object>, ghost built: seq<Tree>)
      returns (r: Outcome<Exception>, ghost below': set<object>, ghost built': seq<Tree>)
      requires o.Valid()
      requires kids.Length == |parts| && n < kids.Length
      requires forall k :: 0 <= k < |parts| ==> o.measure(parts[k]) < o.measure(d)
      requires forall k :: 0 <= k < kids.Length ==> kids[k] != null && kids[k].data == Some(parts[k])
      requires forall k :: 0 <= k < n ==> kids[k] != kids[n]
      requires kids[n].children == null && kids[n] !in below
      requires |built| == n
      requires forall k :: 0 <= k < n ==>
        kids[k].Valid() && kids[k].Abs() == built[k] && kids[k].Repr <= below + {kids[k]}
      requires BuildForest(d, parts[..n], o) == Success(built)
      modifies kids[n]
      ensures r.Fail? ==> BuildForest(d, parts[..n + 1], o) == Failure(r.error)
      ensures r.Pass? ==> |built'| == n + 1
      ensures r.Pass? ==> forall k :: 0 <= k < n + 1 ==>
        kids[k].Valid() && kids[k].Abs() == built'[k] && kids[k].Repr <= below' + {kids[k]}
      ensures r.Pass? ==> BuildForest(d, parts[..n + 1], o) == Success(built')
      ensures below <= below' && fresh(below' - below)
      decreases o.measure(d), 0
    {
      var child := kids[n];
      assert parts[..n + 1][..n] == parts[..n];
      below', built' := below, built;
      label before:
      r := Build(child, o);
      forall k | 0 <= k < n
        ensures kids[k].Valid() && kids[k].Abs() == built[k]
      {
        kids[k].Unaffected@before();
      }
      if r.Pass? {
        below' := below + (child.Repr - {child});
        built' := built + [child.Abs()];
      }
    }

    /** The children array of the recursive case: `new Node[tmp.length]`
        with slot t holding a fresh node for part t. */
    static method NewChildren(parts: seq<DataSet>) returns (kids: array<Node?>, ghost kidSet: set<object>)
      ensures fresh(kids) && kids.Length == |parts| && fresh(kidSet)
      ensures forall k :: 0 <= k < |parts| ==>
        kids[k] != null && kids[k] in kidSet && kids[k].data == Some(parts[k]) && kids[k].children == null
      ensures forall k, m :: 0 <= k < m < |parts| ==> kids[k] != kids[m]
    {
      kids := new Node?[|parts|];
      kidSet := {};
      for t := 0 to |parts|
        invariant fresh(kidSet)
        invariant forall k :: 0 <= k < t ==>
          kids[k] != null && kids[k] in kidSet && kids[k].data == Some(parts[k]) && kids[k].children == null
        invariant forall k, m :: 0 <= k < m < t ==> kids[k] != kids[m]
      {
        var child := new Node(Some(parts[t]));
        kids[t] := child;
        kidSet := kidSet + {child};
      }
    }

    /** toString(node, indentDepth): a leaf is one line naming the label
        and its first value, an internal node the blocks of its children in
        order. */
    static method ToText(node: Node, indentDepth: int) returns (s: string)
      requires node.Valid() && Renderable(node.Abs())
      ensures s == Render(node.Abs(), indentDepth)
      decreases node.Repr, 1
    {
      var indent := CreateIndent(indentDepth);
      if node.children == null {
        s := CreateIndent(indentDepth + 1);
        var d := node.data.value;
        var classAttribute := d.attributes[d.NumAttributes() - 1];
        s := s + classAttribute.name + " = " + classAttribute.values[0];
        s := s + "\n";
      } else {
        s := ChildrenText(node, indentDepth, indent);
      }
    }

    /** The loop of toString(node, indentDepth) over the children of an
        internal node: the blocks of the children in child order. */
    static method ChildrenText(node: Node, indentDepth: int, indent: string) returns (s: string)
      requires node.Valid() && node.children != null && Renderable(node.Abs())
      requires indent == Indent(indentDepth)
      ensures s == Blocks(node.Abs(), node.children.Length, indentDepth)
      decreases node.Repr, 0
    {
      ghost var t := node.Abs();
      s := "";
      for i := 0 to node.children.Length
        invariant node.Valid() && node.Abs() == t
        invariant s == Blocks(t, i, indentDepth)
      {
        label turn:
        node.ChildIsSubtree(i);
        ChildIsRenderable(t, i);
        var block := ChildBlock(node.children[i], i, indentDepth, indent);
        node.Unaffected@turn();
        s := s + block;
      }
    }

    /** One turn of the loop of toString(node, indentDepth): the opening
        line of child i, the child rendered one level deeper, and the
        closing line. */
    static method ChildBlock(child: Node, i: nat, indentDepth: int, indent: string) returns (b: string)
      requires child.Valid() && Renderable(child.Abs()) && indent == Indent(indentDepth)
      ensures b == Block(child.Abs(), i, indentDepth)
      decreases child.Repr, 2
    {
      var condition := child.data.value.condition;
      var inner := ToText(child, indentDepth + 1);
      if i == 0 {
        b := indent + "if (" + condition + ") {" + "\n" + inner + (indent + "}") + "\n";
      } else {
        b := indent + "else if (" + condition + ") {" + "\n" + inner + (indent + "}") + "\n";
      }
    }

    /** toString(): the whole tree rendered from depth 0. */
    method ToString() returns (s: string)
      requires Valid() && Renderable(root.Abs())
      ensures s == Render(root.Abs(), 0)
    {
      s := ToText(root, 0);
    }

    /** createIndent(indentDepth). */
    static method CreateIndent(indentDepth: int) returns (s: string)
      ensures s == Indent(indentDepth)
    {
      if indentDepth <= 0 {
        return "";
      }
      s := "";
      for i := 0 to indentDepth
        invariant s == Indent(i)
      {
        s := s + " ";
      }
    }
  }
}
