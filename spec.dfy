/** Value-level view of a d3-style hierarchy and of the annotation that
    add_num_leafs performs on it. The in-place traversal (module Parse) is
    proved to turn the tree its nodes describe into Annotate of that tree;
    this module proves what Annotate does. */
module Spec {

  datatype Option<+T> = None | Some(value: T)

  /** A JSON value stored under a key the annotation passes through
      untouched (labels, sizes, colours, ...). */
  datatype Value =
    | Null
    | Bool(b: bool)
    | Number(n: int)
    | Str(s: string)
    | Array(elems: seq<Value>)
    | Object(fields: map<string, Value>)

  /** What a node holds under the key "children": no such key, a JSON null,
      or a list of child nodes. */
  datatype Children<T> = Absent | NullValue | List(nodes: seq<T>)

  /** The test `'children' in node and node['children']`: the key is present
      and the list is non-empty. An absent key, null and [] all make a leaf. */
  predicate HasChildren<T>(c: Children<T>): (b: bool)
    ensures b <==> Kids(c) != []
  {
    c.List? && |c.nodes| > 0
  }

  /** The children to recurse into, in order ([] for a leaf). */
  function Kids<T>(c: Children<T>): seq<T> {
    if c.List? then c.nodes else []
  }

  /** The count written to a node: the number of DIRECT children of an inner
      node (not the number of leaves below it, whatever the key suggests),
      0 for a leaf. */
  function ChildCount<T>(c: Children<T>): (k: nat)
    ensures k == 0 <==> !HasChildren(c)
    ensures k == |Kids(c)|
  {
    if HasChildren(c) then |c.nodes| else 0
  }

  /** A node as a value: its children, whatever it holds under "numLeafs"
      (None when the key is absent) and every other key. `others` never
      holds "children" or "numLeafs": those two keys are the first two
      fields. */
  datatype Tree = Tree(children: Children<Tree>, numLeafs: Option<Value>, others: map<string, Value>)

  /** add_num_leafs on a value: an inner node gets the length of its children
      list and every child is annotated in turn; any other node gets 0. */
  function Annotate(t: Tree): (r: Tree)
    decreases t, 1
    ensures r.numLeafs == Some(Number(ChildCount(t.children)))
    ensures ChildCount(r.children) == ChildCount(t.children)
    ensures r.others == t.others
  {
    if HasChildren(t.children) then
      Tree(List(AnnotateAll(t.children.nodes)), Some(Number(|t.children.nodes|)), t.others)
    else
      t.(numLeafs := Some(Number(0)))
  }

  /** Annotate applied to each tree of a list of siblings, in order. */
  function AnnotateAll(ts: seq<Tree>): (r: seq<Tree>)
    decreases ts, 0
    ensures |r| == |ts|
  {
    if ts == [] then [] else [Annotate(ts[0])] + AnnotateAll(ts[1..])
  }

  /** AnnotateAll annotates each sibling on its own, and keeps their order. */
  lemma {:induction false} AnnotateAllEach(ts: seq<Tree>)
    ensures forall i :: 0 <= i < |ts| ==> AnnotateAll(ts)[i] == Annotate(ts[i])
  {
    if ts != [] {
      AnnotateAllEach(ts[1..]);
    }
  }

  /** Every node of t holds the count of its own children under "numLeafs". */
  predicate Annotated(t: Tree)
    decreases t
  {
    t.numLeafs == Some(Number(ChildCount(t.children))) &&
    forall c :: c in Kids(t.children) ==> Annotated(c)
  }

  /** t with "numLeafs" removed from every node: the shape and the
      pass-through fields, which the annotation must not change. */
  function Erase(t: Tree): Tree
    decreases t
  {
    match t.children
    case List(ns) => Tree(List(seq(|ns|, i requires 0 <= i < |ns| => Erase(ns[i]))), None, t.others)
    case _ => t.(numLeafs := None)
  }

  // ---------------------------------------------------------------------
  // What Annotate does

  /** After the annotation every node holds its own child count. */
  lemma {:induction false} AnnotateAnnotates(t: Tree)
    ensures Annotated(Annotate(t))
    decreases t
  {
    var a := Annotate(t);
    if HasChildren(t.children) {
      AnnotateAllEach(t.children.nodes);
    }
    forall c | c in Kids(a.children)
      ensures Annotated(c)
    {
      var i :| 0 <= i < |a.children.nodes| && a.children.nodes[i] == c;
      AnnotateAnnotates(t.children.nodes[i]);
    }
  }

  /** The annotation changes nothing but "numLeafs": the children, their
      order and every other key are those of the input. */
  lemma {:induction false} AnnotateKeepsShape(t: Tree)
    ensures Erase(Annotate(t)) == Erase(t)
    decreases t
  {
    if HasChildren(t.children) {
      var ns := t.children.nodes;
      var a := Annotate(t).children.nodes;
      AnnotateAllEach(ns);
      forall i | 0 <= i < |ns|
        ensures Erase(a[i]) == Erase(ns[i])
      {
        AnnotateKeepsShape(ns[i]);
      }
      assert Erase(Annotate(t)).children.nodes == Erase(t).children.nodes;
    }
  }

  /** Whatever a node held under "numLeafs" beforehand is overwritten: two
      trees that differ only there are annotated alike. */
  lemma {:induction false} AnnotateIgnoresOldCounts(s: Tree, t: Tree)
    requires Erase(s) == Erase(t)
    ensures Annotate(s) == Annotate(t)
    decreases t
  {
    assert s.others == Erase(s).others;
    assert s.children.List? <==> Erase(s).children.List?;
    assert s.children.Absent? <==> Erase(s).children.Absent?;
    assert t.children.List? <==> Erase(t).children.List?;
    assert t.children.Absent? <==> Erase(t).children.Absent?;
    if s.children.List? {
      var ms, ns := s.children.nodes, t.children.nodes;
      assert |ms| == |Erase(s).children.nodes| == |ns|;
      if |ns| > 0 {
        AnnotateAllEach(ms);
        AnnotateAllEach(ns);
        forall i | 0 <= i < |ns|
          ensures Annotate(ms[i]) == Annotate(ns[i])
        {
          assert Erase(ms[i]) == Erase(s).children.nodes[i] == Erase(ns[i]);
          AnnotateIgnoresOldCounts(ms[i], ns[i]);
        }
        assert Annotate(s).children.nodes == Annotate(t).children.nodes;
      }
    }
  }

  /** A tree is left as it is by the annotation exactly when it is already
      annotated. */
  lemma {:induction false} AnnotateFixpoint(t: Tree)
    ensures Annotate(t) == t <==> Annotated(t)
    decreases t
  {
    var ks := Kids(t.children);
    if HasChildren(t.children) {
      var a := Annotate(t).children.nodes;
      AnnotateAllEach(ks);
      forall i | 0 <= i < |ks|
        ensures a[i] == ks[i] <==> Annotated(ks[i])
      {
        AnnotateFixpoint(ks[i]);
      }
      if Annotated(t) {
        assert a == ks;
      } else if t.numLeafs == Some(Number(ChildCount(t.children))) {
        var c :| c in ks && !Annotated(c);
        var i :| 0 <= i < |ks| && ks[i] == c;
        assert a[i] != ks[i];
      }
    }
  }

  /** Running the annotation a second time changes nothing. */
  lemma AnnotateIdempotent(t: Tree)
    ensures Annotate(Annotate(t)) == Annotate(t)
  {
    AnnotateAnnotates(t);
    AnnotateFixpoint(Annotate(t));
  }

  /** Annotate(t) is the only annotated tree with the shape of t. */
  lemma AnnotateUnique(s: Tree, t: Tree)
    requires Annotated(s) && Erase(s) == Erase(t)
    ensures s == Annotate(t)
  {
    AnnotateFixpoint(s);
    AnnotateIgnoresOldCounts(s, t);
  }
}
