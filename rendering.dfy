/** The text DecisionTree.toString produces for a finished tree.

    Render is that text as a function of the tree.  Lines is a second,
    line-oriented description of the same output; the lemmas prove that
    joining Lines with newlines gives Render, that every line is indented
    at least as deep as the block it belongs to, and how many lines a tree
    produces. */
module Rendering {
  import opened DataSets
  import opened Trees

  /** The indentation prefix of createIndent: no characters for a depth of
      zero or less, otherwise `depth` spaces. */
  function Indent(depth: int): (r: string)
    ensures |r| == if depth <= 0 then 0 else depth
    ensures forall k :: 0 <= k < |r| ==> r[k] == ' '
    decreases depth
  {
    if depth <= 0 then "" else Indent(depth - 1) + " "
  }

  /** A leaf has a rendering exactly when its dataset has a label attribute
      with at least one value. */
  predicate Labelled(d: DataSet)
  {
    |d.attributes| >= 1 && |d.Label().values| >= 1
  }

  /** Every leaf carries a label attribute with at least one value, the
      value a leaf is rendered with. */
  ghost predicate Renderable(t: Tree)
    decreases t
  {
    match t
    case Leaf(d) => Labelled(d)
    case Internal(_, kids) => forall k :: 0 <= k < |kids| ==> Renderable(kids[k])
  }

  lemma ChildIsRenderable(t: Tree, i: nat)
    requires Renderable(t) && t.Internal? && i < |t.children|
    ensures Renderable(t.children[i])
  {
  }

  /** The line of a leaf, without its newline: one level deeper than the
      depth it is rendered at, the label name, " = " and the first label
      value. */
  function LeafLine(d: DataSet, depth: int): string
    requires Labelled(d)
  {
    Indent(depth + 1) + d.Label().name + " = " + d.Label().values[0]
  }

  /** The line that opens the block of the i-th child, without its newline. */
  function Opening(child: Tree, i: nat, depth: int): string
  {
    Indent(depth) + (if i == 0 then "if (" else "else if (") + child.data.condition + ") {"
  }

  /** The line that closes a child's block, without its newline. */
  function Closing(depth: int): string
  {
    Indent(depth) + "}"
  }

  /** The text of a node rendered at `depth`. */
  function Render(t: Tree, depth: int): (r: string)
    requires Renderable(t)
    ensures t.Leaf? ==> r == Indent(depth + 1) + t.data.Label().name + " = " + t.data.Label().values[0] + "\n"
    ensures r == [] <==> t.Internal? && t.children == []
    ensures r != [] ==> r[|r| - 1] == '\n'
    decreases t, 1, 0
  {
    match t
    case Leaf(d) => LeafLine(d, depth) + "\n"
    case Internal(_, kids) => Blocks(t, |kids|, depth)
  }

  /** The blocks of the first n children of an internal node, in child
      order. */
  function Blocks(t: Tree, n: nat, depth: int): (r: string)
    requires t.Internal? && Renderable(t) && n <= |t.children|
    ensures r == [] <==> n == 0
    ensures r != [] ==> r[|r| - 1] == '\n'
    decreases t, 0, n
  {
    if n == 0 then "" else Blocks(t, n - 1, depth) + Block(t.children[n - 1], n - 1, depth)
  }

  /** The block of the i-th child of a node rendered at `depth`: its opening
      line, the child rendered one level deeper, and the closing line. */
  function Block(child: Tree, i: nat, depth: int): (r: string)
    requires Renderable(child)
    ensures r != [] && r[|r| - 1] == '\n'
    decreases child, 2, 0
  {
    Opening(child, i, depth) + "\n" + Render(child, depth + 1) + Closing(depth) + "\n"
  }

  /** The output of a node rendered at `depth`, line by line. */
  function Lines(t: Tree, depth: int): seq<string>
    requires Renderable(t)
    decreases t, 1, 0
  {
    match t
    case Leaf(d) => [LeafLine(d, depth)]
    case Internal(_, kids) => BlockLines(t, |kids|, depth)
  }

  function BlockLines(t: Tree, n: nat, depth: int): seq<string>
    requires t.Internal? && Renderable(t) && n <= |t.children|
    decreases t, 0, n
  {
    if n == 0 then []
    else
      BlockLines(t, n - 1, depth)
      + [Opening(t.children[n - 1], n - 1, depth)]
      + Lines(t.children[n - 1], depth + 1)
      + [Closing(depth)]
  }

  /** Lines, each followed by a newline. */
  function Join(lines: seq<string>): string
  {
    if lines == [] then "" else Join(lines[..|lines| - 1]) + lines[|lines| - 1] + "\n"
  }

  /** The number of nodes below the root. */
  function Descendants(t: Tree): nat
    decreases t, 1, 0
  {
    match t
    case Leaf(_) => 0
    case Internal(_, kids) => DescendantsUpTo(t, |kids|)
  }

  function DescendantsUpTo(t: Tree, n: nat): nat
    requires t.Internal? && n <= |t.children|
    decreases t, 0, n
  {
    if n == 0 then 0 else DescendantsUpTo(t, n - 1) + 1 + Descendants(t.children[n - 1])
  }

  lemma {:induction false} JoinAppend(a: seq<string>, b: seq<string>)
    ensures Join(a + b) == Join(a) + Join(b)
    decreases |b|
  {
    if b != [] {
      var b' := b[..|b| - 1];
      assert (a + b)[..|a + b| - 1] == a + b';
      JoinAppend(a, b');
    } else {
      assert a + b == a;
    }
  }

  /** The rendered text is the sequence of lines, each terminated by a
      newline. */
  lemma {:induction false} RenderIsJoinedLines(t: Tree, depth: int)
    requires Renderable(t)
    ensures Render(t, depth) == Join(Lines(t, depth))
    decreases t, 1, 0
  {
    match t
    case Leaf(d) =>
      JoinSingle(LeafLine(d, depth));
    case Internal(_, kids) =>
      BlocksAreJoinedLines(t, |kids|, depth);
  }

  lemma {:induction false} BlocksAreJoinedLines(t: Tree, n: nat, depth: int)
    requires t.Internal? && Renderable(t) && n <= |t.children|
    ensures Blocks(t, n, depth) == Join(BlockLines(t, n, depth))
    decreases t, 0, n
  {
    if n > 0 {
      var c := t.children[n - 1];
      var prev := BlockLines(t, n - 1, depth);
      var open := [Opening(c, n - 1, depth)];
      var inner := Lines(c, depth + 1);
      var close := [Closing(depth)];
      calc {
        Join(BlockLines(t, n, depth));
        Join(prev + open + inner + close);
        { JoinAppendFour(prev, open, inner, close); }
        Join(prev) + Join(open) + Join(inner) + Join(close);
        { BlocksAreJoinedLines(t, n - 1, depth);
          RenderIsJoinedLines(c, depth + 1);
          JoinSingle(Opening(c, n - 1, depth));
          JoinSingle(Closing(depth)); }
        Blocks(t, n - 1, depth) + (Opening(c, n - 1, depth) + "\n") + Render(c, depth + 1) + (Closing(depth) + "\n");
        { Regroup(Blocks(t, n - 1, depth), Opening(c, n - 1, depth), Render(c, depth + 1), Closing(depth)); }
        Blocks(t, n - 1, depth) + Block(c, n - 1, depth);
      }
    }
  }

  lemma JoinAppendFour(a: seq<string>, b: seq<string>, c: seq<string>, d: seq<string>)
    ensures Join(a + b + c + d) == Join(a) + Join(b) + Join(c) + Join(d)
  {
    JoinAppend(a + b + c, d);
    JoinAppend(a + b, c);
    JoinAppend(a, b);
  }

  lemma Regroup(prev: string, open: string, inner: string, close: string)
    ensures prev + (open + "\n") + inner + (close + "\n") == prev + (open + "\n" + inner + close + "\n")
  {
  }

  lemma JoinSingle(line: string)
    ensures Join([line]) == line + "\n"
  {
    assert [line][..0] == [];
  }

  /** Every line of a node rendered at `depth` starts with `depth`
      spaces: blocks nest, and a leaf line is one level deeper still. */
  lemma {:induction false} LinesAreIndented(t: Tree, depth: int)
    requires Renderable(t)
    ensures forall l :: l in Lines(t, depth) ==> Indent(depth) <= l
    decreases t, 1, 0
  {
    match t
    case Leaf(d) =>
      assert Indent(depth + 1) <= LeafLine(d, depth);
      assert Indent(depth) <= Indent(depth + 1);
    case Internal(_, kids) =>
      BlockLinesAreIndented(t, |kids|, depth);
  }

  lemma {:induction false} BlockLinesAreIndented(t: Tree, n: nat, depth: int)
    requires t.Internal? && Renderable(t) && n <= |t.children|
    ensures forall l :: l in BlockLines(t, n, depth) ==> Indent(depth) <= l
    decreases t, 0, n
  {
    if n > 0 {
      var c := t.children[n - 1];
      BlockLinesAreIndented(t, n - 1, depth);
      LinesAreIndented(c, depth + 1);
      assert Indent(depth) <= Indent(depth + 1);
      assert Indent(depth) <= Opening(c, n - 1, depth);
      assert Indent(depth) <= Closing(depth);
    }
  }

  /** A leaf renders as one line; every child adds an opening and a
      closing line around its own lines. */
  lemma {:induction false} LineCount(t: Tree, depth: int)
    requires Renderable(t)
    ensures |Lines(t, depth)| == |Leaves(t)| + 2 * Descendants(t)
    decreases t, 1, 0
  {
    match t
    case Leaf(_) =>
    case Internal(_, kids) =>
      BlockLineCount(t, |kids|, depth);
  }

  lemma {:induction false} BlockLineCount(t: Tree, n: nat, depth: int)
    requires t.Internal? && Renderable(t) && n <= |t.children|
    ensures |BlockLines(t, n, depth)| == |LeavesUpTo(t, n)| + 2 * DescendantsUpTo(t, n)
    decreases t, 0, n
  {
    if n > 0 {
      BlockLineCount(t, n - 1, depth);
      LineCount(t.children[n - 1], depth + 1);
    }
  }

  /** toString can render a tree exactly when every leaf is labelled,
      whatever the internal nodes hold. */
  lemma {:induction false} RenderableIffLeavesLabelled(t: Tree)
    ensures Renderable(t) <==> forall l :: l in Leaves(t) ==> Labelled(l)
    decreases t, 1, 0
  {
    match t
    case Leaf(d) =>
      assert Renderable(t) <==> Labelled(d);
    case Internal(_, kids) =>
      ChildrenRenderableIffLeavesLabelled(t, |kids|);
  }

  lemma {:induction false} ChildrenRenderableIffLeavesLabelled(t: Tree, n: nat)
    requires t.Internal? && n <= |t.children|
    ensures (forall k :: 0 <= k < n ==> Renderable(t.children[k]))
            <==> forall l :: l in LeavesUpTo(t, n) ==> Labelled(l)
    decreases t, 0, n
  {
    if n > 0 {
      ChildrenRenderableIffLeavesLabelled(t, n - 1);
      RenderableIffLeavesLabelled(t.children[n - 1]);
    }
  }
}
