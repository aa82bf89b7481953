/** The tree as the JSON loader hands it over: one mutable object per node,
    and add_num_leafs, which writes "numLeafs" into every node in place. */
module Parse {
  import opened Spec

  /** One node of the hierarchy. Its children never change after loading,
      so they are a constant; "numLeafs" and the other keys are mutable
      fields. `below` is the set of nodes strictly below this one. */
  class Node {
    const children: Children<Node>
    var numLeafs: Option<Value>
    // every key of the JSON object except "children" and "numLeafs"
    var others: map<string, Value>
    ghost const below: set<Node>

    /** The nodes of the subtree: this one and all below it. */
    ghost function Repr(): set<Node> {
      {this} + below
    }

    /** The subtree is a well-formed tree: the nodes below are exactly those
        of the children's subtrees, none of them is this node, and each
        child's subtree is disjoint from those of its siblings (so no node
        is shared and there is no cycle). */
    ghost predicate Valid()
      decreases Repr()
    {
      var ks := Kids(children);
      this !in below &&
      below == ReprUpTo(ks, |ks|) &&
      (forall i :: 0 <= i < |ks| ==> ks[i].Repr() <= below) &&
      (forall i, j :: 0 <= i < j < |ks| ==> ks[i].Repr() !! ks[j].Repr()) &&
      (forall i :: 0 <= i < |ks| ==> ks[i].Valid())
    }

    /** The node as the JSON loader builds it, from already built children. */
    constructor (children: Children<Node>, numLeafs: Option<Value>, others: map<string, Value>)
      requires forall i :: 0 <= i < |Kids(children)| ==> Kids(children)[i].Valid()
      requires forall i, j :: 0 <= i < j < |Kids(children)| ==>
                 Kids(children)[i].Repr() !! Kids(children)[j].Repr()
      ensures Valid()
      ensures this.children == children && this.numLeafs == numLeafs && this.others == others
    {
      this.children := children;
      this.numLeafs := numLeafs;
      this.others := others;
      this.below := ReprUpTo(Kids(children), |Kids(children)|);
      new;
      ReprUpToCovers(Kids(children), |Kids(children)|);
      forall m | m in below
        ensures m != this
      {
        var k := ReprUpToMember(Kids(children), |Kids(children)|, m);
        assert old(allocated(Kids(children)[k]));
      }
    }

    /** The subtree as a value. */
    ghost function Model(): Tree
      reads Repr()
      requires Valid()
      decreases Repr(), 0
    {
      match children
      case Absent => Tree(Absent, numLeafs, others)
      case NullValue => Tree(NullValue, numLeafs, others)
      case List(ks) =>
        var kids := seq(|ks|, k requires 0 <= k < |ks| && ks[k].Valid() reads below => ks[k].Model());
        Tree(List(kids), numLeafs, others)
    }

    /** The nodes of the subtree in the order add_num_leafs visits them:
        this node, then the subtree of each child, left to right. */
    ghost function PreOrder(): seq<Node>
      requires Valid()
      decreases Repr(), 0
    {
      [this] + PreOrderUpTo(Kids(children), |Kids(children)|, below)
    }
  }

  /** The nodes of the first `i` subtrees of `ns`. */
  ghost function ReprUpTo(ns: seq<Node>, i: nat): set<Node>
    requires i <= |ns|
  {
    if i == 0 then {} else ReprUpTo(ns, i - 1) + ns[i - 1].Repr()
  }

  /** Each of the first `i` subtrees lies within their union. */
  lemma {:induction false} ReprUpToCovers(ns: seq<Node>, i: nat)
    requires i <= |ns|
    ensures forall k :: 0 <= k < i ==> ns[k].Repr() <= ReprUpTo(ns, i)
  {
    if i > 0 {
      ReprUpToCovers(ns, i - 1);
    }
  }

  /** A node of the union lies in one of the first `i` subtrees. */
  lemma {:induction false} ReprUpToMember(ns: seq<Node>, i: nat, m: Node) returns (k: nat)
    requires i <= |ns| && m in ReprUpTo(ns, i)
    ensures k < i && m in ns[k].Repr()
  {
    if m in ns[i - 1].Repr() {
      k := i - 1;
    } else {
      k := ReprUpToMember(ns, i - 1, m);
    }
  }

  /** Sibling subtrees that are pairwise disjoint are also disjoint from
      the union of the ones before them. */
  lemma {:induction false} ReprUpToDisjoint(ns: seq<Node>, i: nat, j: nat)
    requires i <= j < |ns|
    requires forall k, l :: 0 <= k < l < |ns| ==> ns[k].Repr() !! ns[l].Repr()
    ensures ReprUpTo(ns, i) !! ns[j].Repr()
  {
    if i > 0 {
      ReprUpToDisjoint(ns, i - 1, j);
    }
  }

  /** Every node of the subtree holds the count of its own children. */
  ghost predicate AllAnnotated(n: Node)
    reads n.Repr()
  {
    forall m :: m in n.Repr() ==> m.numLeafs == Some(Number(ChildCount(m.children)))
  }

  /** Annotates every node reachable from `node` and returns `node` itself.
      `visited` records, for the proof only, the nodes in the order they are
      written. */
  method AddNumLeafs(node: Node) returns (r: Node, ghost visited: seq<Node>)
    requires node.Valid()
    modifies node.Repr()`numLeafs
    decreases node.Repr(), 1
    ensures r == node
    ensures AllAnnotated(node)
    ensures node.Model() == Annotate(old(node.Model()))
    ensures visited == node.PreOrder()
  {
    if HasChildren(node.children) {
      node.numLeafs := Some(Number(|node.children.nodes|));
      var rest := AnnotateChildren(node);
      visited := [node] + rest;
    } else {
      node.numLeafs := Some(Number(0));
      visited := [node];
    }
    r := node;
    AnnotatedInPlace(node);
  }

  /** The loop of add_num_leafs: annotates the subtree of each child of
      `node` in turn, left to right. */
  method AnnotateChildren(node: Node) returns (ghost visited: seq<Node>)
    requires node.Valid()
    modifies node.below`numLeafs
    decreases node.Repr(), 0
    ensures forall m :: m in node.below ==> m.numLeafs == Some(Number(ChildCount(m.children)))
    ensures AllValid(Kids(node.children), node.below)
    ensures visited == PreOrderUpTo(Kids(node.children), |Kids(node.children)|, node.below)
  {
    var ks := Kids(node.children);
    ChildrenValid(node);
    visited := [];
    var i := 0;
    while i < |ks|
      invariant 0 <= i <= |ks|
      invariant forall m :: m in node.below && m in ReprUpTo(ks, i) ==>
                  m.numLeafs == Some(Number(ChildCount(m.children)))
      invariant visited == PreOrderUpTo(ks, i, node.below)
    {
      ReprUpToDisjoint(ks, i, i);
      label Before:
      var _, v := AddNumLeafs(ks[i]);
      forall m | m in node.below && m in ReprUpTo(ks, i + 1)
        ensures m.numLeafs == Some(Number(ChildCount(m.children)))
      {
        if m !in ks[i].Repr() {
          assert m in ReprUpTo(ks, i);
          assert m.numLeafs == old@Before(m.numLeafs);
        }
      }
      visited := visited + v;
      i := i + 1;
    }
  }

  /** A subtree in which every node now holds its child count and no other
      key changed is the annotation of what it was before. */
  twostate lemma {:induction false} AnnotatedInPlace(n: Node)
    requires n.Valid()
    requires AllAnnotated(n)
    requires forall m :: m in n.Repr() ==> m.others == old(m.others)
    ensures n.Model() == Annotate(old(n.Model()))
    decreases n.Repr()
  {
    if n.children.List? {
      var ks := n.children.nodes;
      ReprUpToCovers(ks, |ks|);
      forall k | 0 <= k < |ks|
        ensures ks[k].Model() == Annotate(old(ks[k].Model()))
      {
        AnnotatedInPlace(ks[k]);
      }
      ghost var before := old(n.Model()).children.nodes;
      AnnotateAllEach(before);
      assert n.Model().children.nodes == AnnotateAll(before);
    }
  }

  /** The in-place annotation and the value-level one agree: every node of
      the subtree holds its child count exactly when the subtree, as a
      value, is annotated. */
  lemma AllAnnotatedIffAnnotated(n: Node)
    requires n.Valid()
    ensures AllAnnotated(n) <==> Annotated(n.Model())
  {
    if AllAnnotated(n) {
      ModelOfAllAnnotated(n);
    }
    if Annotated(n.Model()) {
      AllAnnotatedOfModel(n);
    }
  }

  /** One direction of AllAnnotatedIffAnnotated. */
  lemma {:induction false} ModelOfAllAnnotated(n: Node)
    requires n.Valid() && AllAnnotated(n)
    ensures Annotated(n.Model())
    decreases n.Repr()
  {
    var ks := Kids(n.children);
    var cs := Kids(n.Model().children);
    assert |cs| == |ks|;
    forall c | c in cs
      ensures Annotated(c)
    {
      var k :| 0 <= k < |cs| && cs[k] == c;
      ModelOfAllAnnotated(ks[k]);
    }
  }

  /** The other direction of AllAnnotatedIffAnnotated. */
  lemma {:induction false} AllAnnotatedOfModel(n: Node)
    requires n.Valid() && Annotated(n.Model())
    ensures AllAnnotated(n)
    decreases n.Repr()
  {
    var ks := Kids(n.children);
    var cs := Kids(n.Model().children);
    forall m | m in n.Repr()
      ensures m.numLeafs == Some(Number(ChildCount(m.children)))
    {
      if m != n {
        var k := ReprUpToMember(ks, |ks|, m);
        assert cs[k] == ks[k].Model() && cs[k] in cs;
        AllAnnotatedOfModel(ks[k]);
      }
    }
  }

  /** Running add_num_leafs over a tree it has already annotated leaves the
      tree as it was. */
  twostate lemma RerunKeepsModel(n: Node)
    requires n.Valid()
    requires Annotated(old(n.Model()))
    requires n.Model() == Annotate(old(n.Model()))
    ensures n.Model() == old(n.Model())
  {
    AnnotateFixpoint(old(n.Model()));
  }

  /** Every subtree in `ns` is well formed and lies within `bound`. */
  ghost predicate AllValid(ns: seq<Node>, bound: set<Node>) {
    forall k :: 0 <= k < |ns| ==> ns[k].Repr() <= bound && ns[k].Valid()
  }

  /** The children of a well-formed node are well formed and lie below it.
      A hint for the solver: it unfolds Valid() once, so that callers
      need not. */
  lemma ChildrenValid(n: Node)
    requires n.Valid()
    ensures AllValid(Kids(n.children), n.below)
  {
  }

  /** The pre-order listings of the first `i` subtrees of `ns`, one after
      the other. `bound` is a set of nodes holding all of them. */
  ghost function PreOrderUpTo(ns: seq<Node>, i: nat, bound: set<Node>): seq<Node>
    requires i <= |ns|
    requires AllValid(ns, bound)
    decreases bound, i
  {
    if i == 0 then [] else PreOrderUpTo(ns, i - 1, bound) + ns[i - 1].PreOrder()
  }

  /** No element occurs twice in `s`. */
  predicate NoDuplicates<T(==)>(s: seq<T>) {
    forall i, j :: 0 <= i < j < |s| ==> s[i] != s[j]
  }

  /** The set of elements of `s`. */
  function ElementsOf<T>(s: seq<T>): set<T> {
    set x | x in s
  }

  /** A sequence holding each element of a set exactly once has exactly
      the elements of the set, and none twice. */
  lemma OnceEach<T>(s: seq<T>, S: set<T>)
    requires multiset(s) == multiset(S)
    ensures ElementsOf(s) == S
    ensures NoDuplicates(s)
  {
    forall x
      ensures x in ElementsOf(s) <==> x in S
    {
      assert x in s <==> x in multiset(s);
    }
    forall i, j | 0 <= i < j < |s|
      ensures s[i] != s[j]
    {
      var x := s[i];
      assert s == s[..j] + s[j..];
      assert s[..j][i] == x;
      assert multiset(s)[x] == multiset(s[..j])[x] + multiset(s[j..])[x];
      assert s[j..][0] == s[j];
    }
  }

  /** The nodes of the first `i` subtrees of `ns`, counted with
      multiplicity (a node shared by two subtrees would count twice). */
  ghost function ReprBag(ns: seq<Node>, i: nat): multiset<Node>
    requires i <= |ns|
  {
    if i == 0 then multiset{} else ReprBag(ns, i - 1) + multiset(ns[i - 1].Repr())
  }

  /** Disjoint subtrees share no node, so counting with multiplicity gives
      each of their nodes once. */
  lemma {:induction false} ReprBagOfDisjoint(ns: seq<Node>, i: nat)
    requires i <= |ns|
    requires forall k, l :: 0 <= k < l < |ns| ==> ns[k].Repr() !! ns[l].Repr()
    ensures ReprBag(ns, i) == multiset(ReprUpTo(ns, i))
  {
    if i > 0 {
      ReprBagOfDisjoint(ns, i - 1);
      ReprUpToDisjoint(ns, i - 1, i - 1);
      var done, next := ReprUpTo(ns, i - 1), ns[i - 1].Repr();
      assert multiset(done + next) == multiset(done) + multiset(next);
    }
  }

  /** Equal parts make equal sums. A hint for the solver, which otherwise
      spends much longer on the multiset sums of PreOrderUpToCounts. */
  lemma SumOfEqual<T>(a: multiset<T>, b: multiset<T>, c: multiset<T>, d: multiset<T>)
    requires a == c && b == d
    ensures a + b == c + d
  {
  }

  /** The traversal order (the root, then each child's subtree, left to
      right) lists every node of the subtree exactly once. */
  lemma {:induction false} PreOrderCountsEachOnce(n: Node)
    requires n.Valid()
    ensures multiset(n.PreOrder()) == multiset(n.Repr())
    decreases n.Repr(), 0
  {
    var ks := Kids(n.children);
    ChildrenValid(n);
    PreOrderUpToCounts(ks, |ks|, n.below);
    ReprBagOfDisjoint(ks, |ks|);
    assert multiset({n} + n.below) == multiset{n} + multiset(n.below);
  }

  /** The listings of the first `i` subtrees hold, between them, the nodes
      of those subtrees, each as often as ReprBag counts it. */
  lemma {:induction false} PreOrderUpToCounts(ns: seq<Node>, i: nat, bound: set<Node>)
    requires i <= |ns|
    requires AllValid(ns, bound)
    ensures multiset(PreOrderUpTo(ns, i, bound)) == ReprBag(ns, i)
    decreases bound, i
  {
    if i > 0 {
      var before, last := PreOrderUpTo(ns, i - 1, bound), ns[i - 1].PreOrder();
      var done, next := ReprBag(ns, i - 1), multiset(ns[i - 1].Repr());
      assert PreOrderUpTo(ns, i, bound) == before + last;
      assert ReprBag(ns, i) == done + next;
      PreOrderUpToCounts(ns, i - 1, bound);
      assert multiset(before) == done;
      PreOrderCountsEachOnce(ns[i - 1]);
      assert multiset(last) == next;
      assert multiset(before + last) == multiset(before) + multiset(last);
      SumOfEqual(multiset(before), multiset(last), done, next);
    }
  }

  /** The same, as sets and positions: add_num_leafs writes every node of
      the subtree, and none of them twice. */
  lemma PreOrderVisitsEachOnce(n: Node)
    requires n.Valid()
    ensures ElementsOf(n.PreOrder()) == n.Repr()
    ensures NoDuplicates(n.PreOrder())
  {
    PreOrderCountsEachOnce(n);
    OnceEach(n.PreOrder(), n.Repr());
  }

  /** A documented case: the root has children a and b, and b has children
      c and d. The root gets 2 and b gets 2, although three leaves (a, c, d)
      lie below the root: the count is of direct children. */
  method Example() returns (root: Option<Value>, a: Option<Value>, b: Option<Value>, c: Option<Value>, d: Option<Value>)
    ensures root == Some(Number(2)) && b == Some(Number(2))
    ensures a == Some(Number(0)) && c == Some(Number(0)) && d == Some(Number(0))
  {
    var nr, na, nb, nc, nd := ExampleTree();
    var _, _ := AddNumLeafs(nr);
    root, a, b, c, d := nr.numLeafs, na.numLeafs, nb.numLeafs, nc.numLeafs, nd.numLeafs;
  }

  /** The tree of Example, as the JSON loader would build it: a holds null
      under "children". */
  method ExampleTree() returns (nr: Node, na: Node, nb: Node, nc: Node, nd: Node)
    ensures nr.Valid() && nr.Repr() == {nr, na, nb, nc, nd} && fresh(nr.Repr())
    ensures nr.children == List([na, nb]) && nb.children == List([nc, nd])
    ensures na.children == NullValue && nc.children == Absent && nd.children == List([])
  {
    nb, nc, nd := ExampleSubtree();
    na := new Node(NullValue, None, map["name" := Str("a")]);
    assert na.Repr() == {na};
    nr := new Node(List([na, nb]), None, map["name" := Str("root")]);
    assert ReprUpTo([na, nb], 1) == {na};
  }

  /** The subtree b of Example: c has no "children" key, d has an empty
      list and an old count of 7. */
  method ExampleSubtree() returns (nb: Node, nc: Node, nd: Node)
    ensures nb.Valid() && nb.Repr() == {nb, nc, nd} && fresh(nb.Repr())
    ensures nb.children == List([nc, nd])
    ensures nc.children == Absent && nd.children == List([])
  {
    nc := new Node(Absent, None, map["name" := Str("c")]);
    nd := new Node(List([]), Some(Number(7)), map["name" := Str("d")]);
    assert nc.Repr() == {nc} && nd.Repr() == {nd};
    nb := new Node(List([nc, nd]), None, map["name" := Str("b")]);
    assert ReprUpTo([nc, nd], 1) == {nc};
  }
}
