# add_num_leafs, modelled and verified in Dafny

`parse.py` loads a d3-style hierarchy from JSON and calls `add_num_leafs` on its root. That function writes a `numLeafs` key into every node in place. An inner node, one whose `children` key is present and holds a non-empty list, gets the length of that list. This is the number of its direct children, not the number of leaves below it, whatever the name suggests. Every other node gets 0. The function then recurses into each child from left to right and returns the node it was given.

The project has two modules.

- `Spec` (spec.dfy) describes a node as a value:
  - `Children<T>` is the content of the `children` key: `Absent`, `NullValue` or `List(nodes)`. Python's truthiness test at parse.py:23 makes all three of absent, `null` and `[]` a leaf.
  - `Tree` is a node as a value: its children, what it holds under `numLeafs` (`None` when the key is missing), and a map of every other key.
  - `Annotate` is the annotation on values.
  - The lemmas state what `Annotate` does: every node gets its child count, the shape and all other keys are kept, old counts are overwritten, and it is a fixpoint, idempotent and unique.
- `Parse` (parse.dfy) is the program itself:
  - A `Node` class: `children` is a constant, `numLeafs` and `others` are mutable fields.
  - The ghost set `below` holds the nodes strictly below a node. `Valid()` says that the subtree is a tree: sibling subtrees are disjoint and no node is its own descendant.
  - `Model()` reads the subtree back as a `Spec.Tree`.
  - `AddNumLeafs` is the recursive method. Its `for` loop (parse.py:27-28) is the method `AnnotateChildren`, a `while` loop that calls `AddNumLeafs` on each child; the two methods are mutually recursive.
  - `AddNumLeafs` may write only the `numLeafs` field of the nodes of its subtree (`modifies node.Repr()`numLeafs`). So `children`, the other keys of every node, and every object outside the subtree are unchanged by construction.
  - Its contract ties the new state to the old one: the subtree read as a value afterwards is `Annotate` of the subtree read as a value before.
  - A ghost out-parameter records the nodes in the order they are written. It equals the pre-order listing, which is proved to hold every node of the subtree exactly once.

## Model

| member | source | states |
|---|---|---|
| Spec.HasChildren | parse.py:23 | The test of parse.py:23: a node is an inner node exactly when it has children to recurse into. An absent key, `null` and `[]` make a leaf. |
| Spec.Annotate | parse.py:13-33 | add_num_leafs on values. The node gets its child count under `numLeafs` and keeps its number of children and every other key. What happens below it is stated by the Annotate lemmas below. |
| Spec.AnnotateAll | parse.py:26-28 | The loop over the children on values: it annotates each sibling in turn and returns exactly as many trees as it was given. |
| Spec.ChildCount | parse.py:23-31 | The count written to a node is a natural number, 0 exactly when the node is a leaf (children absent, null or empty), and otherwise the length of its children list. |
| Spec.AnnotateAllEach | parse.py:26-28 | Annotating a list of siblings annotates each one on its own and keeps their order. |
| Spec.AnnotateAnnotates | parse.py:23-31 | After the annotation every node of the tree holds the count of its own direct children. |
| Spec.AnnotateKeepsShape | parse.py:23-31 | The annotation changes nothing but `numLeafs`: the children, their order and every other key of every node are those of the input. |
| Spec.AnnotateIgnoresOldCounts | parse.py:25 | Whatever a node held under `numLeafs` beforehand is overwritten: two trees that differ only in their old counts are annotated alike. |
| Spec.AnnotateFixpoint | parse.py:23-31 | A tree is left unchanged by the annotation exactly when every node already holds its child count. |
| Spec.AnnotateIdempotent | parse.py:23-31 | Annotating a second time changes nothing. |
| Spec.AnnotateUnique | parse.py:23-31 | The annotated tree is the only tree with the input's shape and keys in which every node holds its child count. |
| Parse.Node.constructor | parse.py:47 | A node as the JSON loader builds it, over already built children whose subtrees are disjoint, is a well-formed tree holding exactly the given children and keys. |
| Parse.AddNumLeafs | parse.py:13-33 | Returns the node it was given. Afterwards every node of the subtree holds its child count, and the subtree read as a value is `Annotate` of what it was. Only `numLeafs` fields of the subtree are written. The nodes are written in pre-order. |
| Parse.AnnotateChildren | parse.py:26-28 | The loop over the children calls add_num_leafs on each child in list order. Afterwards every node below the parent holds its child count, and the nodes were written child subtree after child subtree. |
| Parse.AnnotatedInPlace | parse.py:23-31 | A subtree in which every node now holds its child count and no other key changed is, as a value, `Annotate` of what it was before. |
| Parse.AllAnnotatedIffAnnotated | parse.py:23-31 | In place and as a value the annotation means the same: every node holds its child count exactly when the subtree read as a value is annotated. |
| Parse.ModelOfAllAnnotated | parse.py:23-31 | If every node holds its child count, then the subtree read as a value is annotated. |
| Parse.AllAnnotatedOfModel | parse.py:23-31 | If the subtree read as a value is annotated, then every node holds its child count. |
| Parse.RerunKeepsModel | parse.py:23-31 | Running add_num_leafs on a tree it has already annotated leaves the tree as it was. |
| Parse.PreOrderCountsEachOnce | parse.py:26-28 | The order in which add_num_leafs visits nodes (the node, then each child's subtree from left to right) lists every node of the subtree exactly once, counted as a multiset. |
| Parse.PreOrderUpToCounts | parse.py:27-28 | After the loop has handled the first `i` children, the nodes written so far are, counted as a multiset, those of the first `i` child subtrees. |
| Parse.PreOrderVisitsEachOnce | parse.py:26-28 | Every node of the subtree is written, and none of them twice. |
| Parse.Example | parse.py:4-6 | The root has children a and b, and b has children c and d. The root gets 2 and b gets 2, although three leaves lie below the root. The leaves a, c and d get 0: a holds null, c has no children key, and d holds an empty list and an old count of 7. |

## Left out

- `process_tree_file` (parse.py:36-68) is left out. It only reads and writes files, calls the JSON library and prints error messages. The tree that `json.load` returns is stood in for by the `Node` constructor.
- `main` (parse.py:71-86) is left out. It only reads command-line arguments and prints usage text.
- JSON parsing and serialisation are library code. Key order in the output is not modelled.
- Ill-typed input is excluded by the types: a node that is not an object, or a `children` value that is a boolean, a string, a number or an object. In Python, `false` would make a leaf that gets 0, and `true` would raise TypeError at `len` (parse.py:25). JSON numbers are modelled as integers only, since the annotation writes integers and passes every other value through unchanged.
- Shared nodes and cycles cannot come out of the JSON loader, so `Valid()` rules them out. With a shared node, Python would write the same value twice. With a cycle, Python recurses until it raises RecursionError.
- Python's recursion limit is ignored. add_num_leafs recurses once per tree level, so in Python a tree deeper than about 1000 levels raises RecursionError. The model annotates such a tree.
- A node's `children` value is a constant. `add_num_leafs` never reassigns or mutates the list, and no other code runs during the call.
- A variant that also numbers the nodes is not part of this source, so it is not modelled.
- Parse.AddNumLeafs does not itself state that an already annotated tree is left unchanged. Parse.RerunKeepsModel states it, using the `Annotate` relation that AddNumLeafs ensures.
