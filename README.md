# Decision tree builder and renderer

This project models `DecisionTree.java`, the core of an ID3-style decision-tree
learner, and proves properties of the model. The core does two things:

- It builds a tree of `Node`s over a training set. Each node holds a dataset
  view. `build` checks the node's dataset and either leaves the node a leaf,
  or partitions the dataset by its best-ranked attribute, assigns
  `node.children` one fresh node per part, and builds every child in order.
- It renders the finished tree as nested `if (...) {` / `else if (...) {`
  blocks. Every leaf becomes a line `<label> = <first label value>`.

The model has five modules:

- `Results`: `Option`, for a Java reference that may be null, and `Result`
  and `Outcome`, for a method that returns or throws.
- `DataSets`: the dataset view, an attribute, a gain ranking entry, the
  exceptions, and `Collaborators`. `Collaborators` is the code the builder
  calls but does not contain: `toVirtual`, the gain ranker and the two
  partition methods. They are function values with a small contract.
- `Trees`: the tree as a value, and `BuildTree`, the builder as a function.
  `Grown` is an independent description of a finished tree. The lemmas prove
  that `BuildTree` returns exactly the grown trees, that it throws exactly
  when no grown tree exists, and that every leaf is a terminal case.
- `Rendering`: the text of `toString` as a function (`Render`), a
  line-by-line version of it (`Lines`), and lemmas about the lines.
- `DecisionTrees`: the heap model. `Node` has a mutable `children` array and
  a ghost footprint. `DecisionTree` has the constructor (`Create`), the
  builder (`Build` and its helpers) and the renderer (`ToText`, `ChildrenText`, `ToString`,
  `CreateIndent`). Each method is proved against the functions of `Trees` and
  `Rendering`.

Termination: the Java code relies on the partitioner for termination and never
argues it. The model states the needed assumption as part of
`Collaborators.Valid()`. Every part of a partition has a smaller `measure`
than the dataset it came from.

Zero rows: the code has a leaf test for `numRows < 1` at line 68, but line 54
already throws `IllegalStateException` for `numRows == 0`. For a row count
that is never negative, that test is therefore unreachable and a zero-row
dataset is an error. The model's row count is a natural number, so it does
the same, and it keeps the unreachable branch in `Build` as written.

## Model

| member | source | states |
|---|---|---|
| Trees.FirstIndex | a4_300189176_300213464/DecisionTree.java:84-122 | Models both lookup loops of build. The result is the least index whose entry equals the key. No earlier entry equals the key. The result is 0 when the key is absent. |
| Trees.Partition | a4_300189176_300213464/DecisionTree.java:75-124 | Takes the first-ranked attribute and finds its index by name. A nominal attribute is partitioned by value. A numeric one is partitioned at the index of its split value. Every part has a smaller measure than the dataset. |
| Trees.BuildTree | a4_300189176_300213464/DecisionTree.java:42-136 | Has build's checks in order: no attribute, then zero rows. Then the base cases, then the recursive case. A returned tree is rooted at the input dataset. |
| Trees.BuildForest | a4_300189176_300213464/DecisionTree.java:99-101 | Builds the children in index order and the first exception wins. On success there is one tree per part, and tree k holds part k. |
| Trees.ForestFailureIsFinal | a4_300189176_300213464/DecisionTree.java:99-101 | Once child n has thrown, the later children do not change the outcome: the exception propagates. |
| Trees.BuildTreeIsGrown | a4_300189176_300213464/DecisionTree.java:42-136 | Soundness: every tree the builder returns satisfies the declarative description Grown. |
| Trees.GrownIsBuilt | a4_300189176_300213464/DecisionTree.java:42-136 | Completeness: every grown tree is what the builder returns for its root dataset. |
| Trees.BuildTreeCharacterized | a4_300189176_300213464/DecisionTree.java:42-136 | The builder returns t for d if and only if t is a grown tree rooted at d. |
| Trees.BuildTreeFailsIffNoTree | a4_300189176_300213464/DecisionTree.java:46-56 | The builder throws if and only if no grown tree is rooted at the dataset. |
| Trees.GrownLeavesAreTerminal | a4_300189176_300213464/DecisionTree.java:60-66 | Every leaf of a grown tree passed the entry checks. It has a single attribute or a label with a single value. |
| Trees.BuiltLeavesAreTerminal | a4_300189176_300213464/DecisionTree.java:60-66 | Every leaf of a built tree is such a terminal case. |
| Rendering.Indent | a4_300189176_300213464/DecisionTree.java:227-236 | The prefix is empty for a depth of 0 or less. Otherwise it is exactly depth characters, all spaces. |
| Rendering.Render | a4_300189176_300213464/DecisionTree.java:152-219 | A leaf is the label name, " = " and the label's first value, indented depth + 1, then a newline. The text is empty exactly for an internal node without children, and otherwise ends in a newline. |
| Rendering.RenderIsJoinedLines | a4_300189176_300213464/DecisionTree.java:152-219 | The rendered text is its list of lines, each ending in a newline. A leaf is one line. A child is an opening line, the child's lines and a closing line, in child order. |
| Rendering.LinesAreIndented | a4_300189176_300213464/DecisionTree.java:181-216 | Every line of a node rendered at depth d starts with d spaces. |
| Rendering.LineCount | a4_300189176_300213464/DecisionTree.java:164-216 | A tree renders as one line per leaf plus two lines per non-root node. |
| Rendering.RenderableIffLeavesLabelled | a4_300189176_300213464/DecisionTree.java:169-172 | A tree can be rendered if and only if every leaf has a label attribute with at least one value. |
| DecisionTrees.Node.constructor | a4_300189176_300213464/DecisionTree.java:15-17 | A new node holds the given data, has no children array and owns only itself. |
| DecisionTrees.IndexOf | a4_300189176_300213464/DecisionTree.java:84-122 | The loop with break returns exactly FirstIndex: the first match, or 0. |
| DecisionTrees.DecisionTree.Create | a4_300189176_300213464/DecisionTree.java:26-34 | Null data throws IllegalArgument. Otherwise the build of the view throws exactly when BuildTree does, with the same exception. On success the result is a fresh, valid tree whose root stands for BuildTree's tree. |
| DecisionTrees.DecisionTree.Build | a4_300189176_300213464/DecisionTree.java:42-136 | A null node or null data throws NullPointer. The checks throw without touching the node. A base case leaves children null. In the recursive case children match the partition in number and order. Build returns normally exactly when BuildTree succeeds, the node then standing for its tree; a throw carries BuildTree's exception. |
| DecisionTrees.DecisionTree.AttachChildren | a4_300189176_300213464/DecisionTree.java:92-101 | Assigns a fresh children array with one node per part, holding that part in order. Then builds every child. It succeeds exactly when BuildForest does, and the node then stands for an internal node with BuildForest's trees. |
| DecisionTrees.DecisionTree.NewChildren | a4_300189176_300213464/DecisionTree.java:93-97 | Slot t holds a fresh, distinct, childless node with part t. |
| DecisionTrees.DecisionTree.BuildChildren | a4_300189176_300213464/DecisionTree.java:99-101 | Builds the children in index order and stops at the first exception. The outcome and the built trees are those of BuildForest. |
| DecisionTrees.DecisionTree.BuildNext | a4_300189176_300213464/DecisionTree.java:99-101 | One iteration builds child n and leaves the earlier children's trees unchanged. It extends BuildForest's result by one, or fails with BuildForest's exception. |
| DecisionTrees.DecisionTree.ToText | a4_300189176_300213464/DecisionTree.java:152-219 | The text built with the buffer is exactly Render of the node's tree at the given depth. |
| DecisionTrees.DecisionTree.ChildrenText | a4_300189176_300213464/DecisionTree.java:181-216 | The loop over the children of an internal node yields exactly the blocks of all its children, in child order. |
| DecisionTrees.DecisionTree.ChildBlock | a4_300189176_300213464/DecisionTree.java:183-214 | Child i's block: the indent, then "if (" for i = 0 or "else if (" otherwise, the condition and ") {". Then the child rendered one level deeper and the indented "}". |
| DecisionTrees.DecisionTree.ToString | a4_300189176_300213464/DecisionTree.java:138-141 | The whole tree rendered from depth 0. |
| DecisionTrees.DecisionTree.CreateIndent | a4_300189176_300213464/DecisionTree.java:227-236 | The loop-built prefix is exactly Indent(depth). |

## Left out

- `main` (lines 238-255): argument handling, file reading and printing are I/O.
- The gain ranker (`InformationGainCalculator.calculateAndSortInformationGains`, line 75): its source is not part of this model, and it uses entropy and floating-point arithmetic. It is an abstract function, assumed to return a non-empty ranking whenever there are at least two attributes.
- `toVirtual`, `partitionByNominallAttribute`, `partitionByNumericAttribute` and `getCondition`: foreign dataset code. They are abstract functions, and the condition is a field of the dataset.
- Termination of build: the model assumes every part of a partition has a smaller `measure`. The code depends on the partitioner for this and does not state it.
- The bare `toString()` calls in the base cases (lines 61, 65, 69): their text is discarded and they change nothing, so they are no-ops here. The model therefore misses one effect: rendering the partly built tree could throw part-way through build.
- The `instanceof ActualDataSet` test (line 28): Java's static typing makes it redundant, so only the null check is modelled.
- Java generics on `Node<E>`: the payload is fixed to the dataset view.
- `numAttributes` is the length of the attribute sequence, and `numRows` is a natural number, so the `numRows < 1` branch at line 68 is unreachable.
- DecisionTrees.DecisionTree.Build: requires the node to have no children array yet. In the code it is private and only ever called on freshly made nodes.
- DecisionTrees.DecisionTree.ToText: requires every leaf's label to have a value (Rendering.RenderableIffLeavesLabelled); the code would throw an array index exception otherwise.
- DecisionTrees.DecisionTree.ToString: has the same requirement, and a tree that `Create` returns need not meet it. A leaf whose label attribute has no values is built normally, but the code then throws `ArrayIndexOutOfBoundsException` at line 171, through the bare `toString()` at line 61. The model does not capture that throw.
- DecisionTrees.DecisionTree.AttachChildren: the code assigns `node.children` before filling it (lines 93-97). The model fills the array first and then assigns it. Nothing runs in between, so no difference is observable.
- `build` and `toString(Node, int)` are instance methods in the code. Apart from the bare `toString()` calls, which the model treats as no-ops (see above), they read no field of the tree object, so they are static methods here.
- The recursion depth passed as `indentDepth + 1` is a Java `int`. The model does not capture its overflow past 2^31 - 1 levels, a depth no tree reaches.
- A child exception leaves the partly built subtree attached to its parent. The model states only the outcome, because `Create` then returns no tree.
