/** The decision tree as a value, and what building one means.

    BuildTree is the builder of DecisionTree.java written as a function of
    the dataset: the same checks in the same order, the same base cases,
    the same choice of attribute and split value, and the children built in
    partition order with the first exception winning.  Grown is an
    independent, declarative description of a finished tree; the lemmas at
    the end prove the two agree. */
module Trees {
  import opened Results
  import opened DataSets

  /** A node of a finished tree.  A Leaf is a node whose `children` array
      was never assigned (null); an Internal node has the children array it
      was given, possibly empty. */
  datatype Tree = Leaf(data: DataSet) | Internal(data: DataSet, children: seq<Tree>)

  /** The lookup both loops of build perform: the least index whose entry
      equals `key`, or 0 when there is none. */
  function FirstIndex(xs: seq<string>, key: string): (i: nat)
    ensures key in xs ==> i < |xs| && xs[i] == key
    ensures forall k :: 0 <= k < i && k < |xs| ==> xs[k] != key
    ensures key !in xs ==> i == 0
  {
    if key !in xs || xs[0] == key then 0 else 1 + FirstIndex(xs[1..], key)
  }

  /** The attribute names, in declaration order. */
  function Names(attributes: seq<Attribute>): seq<string>
  {
    seq(|attributes|, k requires 0 <= k < |attributes| => attributes[k].name)
  }

  /** The dataset passes the checks build makes before anything else:
      at least one attribute and a non-zero row count. */
  predicate Admissible(d: DataSet)
  {
    |d.attributes| >= 1 && d.numRows != 0
  }

  /** The three base cases of build, in the order it tests them: no
      attribute besides the label, a label with a single value, no rows. */
  predicate IsLeafCase(d: DataSet)
    requires |d.attributes| >= 1
  {
    |d.attributes| == 1 || |d.Label().values| == 1 || d.numRows < 1
  }

  /** The partition build makes of a dataset in the recursive case: the
      first-ranked attribute, found by name; a nominal one is partitioned
      by value, a numeric one at the index of its split value. */
  function Partition(d: DataSet, o: Collaborators): (parts: seq<DataSet>)
    requires o.Valid() && |d.attributes| >= 2
    ensures forall k :: 0 <= k < |parts| ==> o.measure(parts[k]) < o.measure(d)
  {
    var aMax := o.rankByGain(d)[0];
    var i := FirstIndex(Names(d.attributes), aMax.attributeName);
    if aMax.attributeType == Nominal then
      o.partitionByNominal(d, i)
    else
      var j := FirstIndex(d.attributes[i].values, aMax.splitAt);
      o.partitionByNumeric(d, i, j)
  }

  /** The tree build grows from a node holding `d`, or the exception it
      throws. */
  function BuildTree(d: DataSet, o: Collaborators): (r: Result<Tree, Exception>)
    requires o.Valid()
    ensures r.Success? ==> r.value.data == d
    decreases o.measure(d), 1, 0
  {
    if |d.attributes| < 1 then Failure(NoAttributes)
    else if d.numRows == 0 then Failure(NoDatapoints)
    else if IsLeafCase(d) then Success(Leaf(d))
    else
      match BuildForest(d, Partition(d, o), o)
      case Failure(e) => Failure(e)
      case Success(kids) => Success(Internal(d, kids))
  }

  /** The children built, in order, from the parts `ds` of `parent`; the
      first child whose build throws decides the exception. */
  function BuildForest(parent: DataSet, ds: seq<DataSet>, o: Collaborators): (r: Result<seq<Tree>, Exception>)
    requires o.Valid()
    requires forall k :: 0 <= k < |ds| ==> o.measure(ds[k]) < o.measure(parent)
    ensures r.Success? ==> |r.value| == |ds| && forall k :: 0 <= k < |ds| ==> r.value[k].data == ds[k]
    decreases o.measure(parent), 0, |ds|
  {
    if ds == [] then Success([])
    else
      match BuildForest(parent, ds[..|ds| - 1], o)
      case Failure(e) => Failure(e)
      case Success(ts) =>
        match BuildTree(ds[|ds| - 1], o)
        case Failure(e) => Failure(e)
        case Success(t) => Success(ts + [t])
  }

  /** A finished tree, described without reference to the builder: every
      node passes the entry checks; a leaf is a base case; an internal node
      is not a base case and has one child per part of its partition,
      holding that part, in partition order. */
  ghost predicate Grown(t: Tree, o: Collaborators)
    requires o.Valid()
    decreases t
  {
    && Admissible(t.data)
    && match t
       case Leaf(d) => IsLeafCase(d)
       case Internal(d, kids) =>
         && !IsLeafCase(d)
         && |kids| == |Partition(d, o)|
         && forall k :: 0 <= k < |kids| ==> kids[k].data == Partition(d, o)[k] && Grown(kids[k], o)
  }

  /** The datasets of the leaves, left to right. */
  function Leaves(t: Tree): seq<DataSet>
    decreases t, 1, 0
  {
    match t
    case Leaf(d) => [d]
    case Internal(_, kids) => LeavesUpTo(t, |kids|)
  }

  /** The leaves of the first n children of an internal node. */
  function LeavesUpTo(t: Tree, n: nat): seq<DataSet>
    requires t.Internal? && n <= |t.children|
    decreases t, 0, n
  {
    if n == 0 then [] else LeavesUpTo(t, n - 1) + Leaves(t.children[n - 1])
  }

  /** Once one child of a node has thrown, the node's children as a whole
      have thrown that exception: later children are never built. */
  lemma {:induction false} ForestFailureIsFinal(parent: DataSet, ds: seq<DataSet>, n: nat, o: Collaborators)
    requires o.Valid()
    requires forall k :: 0 <= k < |ds| ==> o.measure(ds[k]) < o.measure(parent)
    requires n <= |ds|
    requires BuildForest(parent, ds[..n], o).Failure?
    ensures BuildForest(parent, ds, o) == BuildForest(parent, ds[..n], o)
    decreases |ds| - n
  {
    if n < |ds| {
      var init := ds[..|ds| - 1];
      assert init[..n] == ds[..n];
      ForestFailureIsFinal(parent, init, n, o);
    } else {
      assert ds[..n] == ds;
    }
  }

  /** Soundness: whatever BuildTree returns is a grown tree. */
  lemma {:induction false} BuildTreeIsGrown(d: DataSet, o: Collaborators)
    requires o.Valid()
    ensures BuildTree(d, o).Success? ==> Grown(BuildTree(d, o).value, o)
    decreases o.measure(d), 1, 0
  {
    if |d.attributes| >= 1 && d.numRows != 0 && !IsLeafCase(d) {
      BuildForestIsGrown(d, Partition(d, o), o);
    }
  }

  lemma {:induction false} BuildForestIsGrown(parent: DataSet, ds: seq<DataSet>, o: Collaborators)
    requires o.Valid()
    requires forall k :: 0 <= k < |ds| ==> o.measure(ds[k]) < o.measure(parent)
    ensures BuildForest(parent, ds, o).Success? ==>
      forall k :: 0 <= k < |ds| ==> Grown(BuildForest(parent, ds, o).value[k], o)
    decreases o.measure(parent), 0, |ds|
  {
    if ds != [] {
      BuildForestIsGrown(parent, ds[..|ds| - 1], o);
      BuildTreeIsGrown(ds[|ds| - 1], o);
    }
  }

  /** Completeness: every grown tree is the one BuildTree returns for its
      root dataset. */
  lemma {:induction false} GrownIsBuilt(t: Tree, o: Collaborators)
    requires o.Valid() && Grown(t, o)
    ensures BuildTree(t.data, o) == Success(t)
    decreases t, 1, 0
  {
    if t.Internal? {
      GrownChildrenAreBuilt(t, |t.children|, o);
      assert t.children[..|t.children|] == t.children;
      assert Partition(t.data, o)[..|t.children|] == Partition(t.data, o);
    }
  }

  lemma {:induction false} GrownChildrenAreBuilt(t: Tree, n: nat, o: Collaborators)
    requires o.Valid() && Grown(t, o) && t.Internal? && n <= |t.children|
    ensures BuildForest(t.data, Partition(t.data, o)[..n], o) == Success(t.children[..n])
    decreases t, 0, n
  {
    var parts := Partition(t.data, o);
    if n == 0 {
      assert parts[..0] == [];
    } else {
      var c := t.children[n - 1];
      assert c.data == parts[n - 1] && Grown(c, o);
      GrownChildrenAreBuilt(t, n - 1, o);
      GrownIsBuilt(c, o);
      assert parts[..n][..n - 1] == parts[..n - 1];
      assert t.children[..n] == t.children[..n - 1] + [t.children[n - 1]];
    }
  }

  /** BuildTree(d) returns t exactly when t is a grown tree rooted at d. */
  lemma BuildTreeCharacterized(d: DataSet, t: Tree, o: Collaborators)
    requires o.Valid()
    ensures BuildTree(d, o) == Success(t) <==> t.data == d && Grown(t, o)
  {
    BuildTreeIsGrown(d, o);
    if t.data == d && Grown(t, o) {
      GrownIsBuilt(t, o);
    }
  }

  /** The builder throws exactly when no grown tree is rooted at d. */
  lemma BuildTreeFailsIffNoTree(d: DataSet, o: Collaborators)
    requires o.Valid()
    ensures BuildTree(d, o).Failure? <==> !exists t: Tree :: t.data == d && Grown(t, o)
  {
    BuildTreeIsGrown(d, o);
    if t: Tree :| t.data == d && Grown(t, o) {
      GrownIsBuilt(t, o);
    }
  }

  /** Every leaf of a grown tree is there because no attribute besides the
      label is left or the label has a single value; the empty-rows base
      case never produces a leaf, because the entry check throws first. */
  lemma {:induction false} GrownLeavesAreTerminal(t: Tree, o: Collaborators)
    requires o.Valid() && Grown(t, o)
    ensures forall d :: d in Leaves(t) ==>
      Admissible(d) && (|d.attributes| == 1 || |d.Label().values| == 1)
    decreases t, 1, 0
  {
    if t.Internal? {
      GrownChildLeavesAreTerminal(t, |t.children|, o);
    }
  }

  lemma {:induction false} GrownChildLeavesAreTerminal(t: Tree, n: nat, o: Collaborators)
    requires o.Valid() && Grown(t, o) && t.Internal? && n <= |t.children|
    ensures forall d :: d in LeavesUpTo(t, n) ==>
      Admissible(d) && (|d.attributes| == 1 || |d.Label().values| == 1)
    decreases t, 0, n
  {
    if n > 0 {
      GrownChildLeavesAreTerminal(t, n - 1, o);
      GrownLeavesAreTerminal(t.children[n - 1], o);
    }
  }

  /** Every leaf of a tree BuildTree returns is a terminal case in the
      sense of GrownLeavesAreTerminal. */
  lemma BuiltLeavesAreTerminal(d: DataSet, o: Collaborators)
    requires o.Valid() && BuildTree(d, o).Success?
    ensures forall l :: l in Leaves(BuildTree(d, o).value) ==>
      Admissible(l) && (|l.attributes| == 1 || |l.Label().values| == 1)
  {
    BuildTreeIsGrown(d, o);
    GrownLeavesAreTerminal(BuildTree(d, o).value, o);
  }
}
