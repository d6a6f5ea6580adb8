/** The tree the OTML parser builds: an arena of nodes addressed by index.
    Index 0 is the document's root node; every other node records the index
    of its parent, which takes the place of the parser's child-to-parent map,
    and its parent lists it among its children. */
module OtmlTree {
  import opened Text

  /** One parsed entry. `value` is the raw scalar ("" when the line gave
      none), `isNull` the `~` marker, `items` the entries of an inline
      `[a, b]` list. The root's `parent` field is never consulted. */
  datatype Node = Node(
    tag: string,
    value: string,
    isNull: bool,
    items: seq<string>,
    unique: bool,
    source: string,
    parent: nat,
    children: seq<nat>)

  /** The document's root node before anything is parsed. */
  function RootNode(): Node {
    Node("", "", false, [], false, "", 0, [])
  }

  /** The entry at `i` is below the one at `j`. */
  predicate Ordered(s: seq<nat>, i: nat, j: nat)
    requires i < |s| && j < |s|
  {
    s[i] < s[j]
  }

  predicate Increasing(s: seq<nat>) {
    forall i, j :: 0 <= i < j < |s| ==> Ordered(s, i, j)
  }

  /** The arena is a tree rooted at 0: parents come before their children,
      each child list is in increasing order, and the parent and child links
      agree. */
  ghost predicate WellFormed(nodes: seq<Node>) {
    && |nodes| >= 1
    && (forall i {:trigger nodes[i].parent} :: 0 < i < |nodes| ==> nodes[i].parent < i && i in nodes[nodes[i].parent].children)
    && (forall p :: 0 <= p < |nodes| ==> Increasing(nodes[p].children))
    && (forall p, c {:trigger c in nodes[p].children} :: 0 <= p < |nodes| && c in nodes[p].children ==> p < c < |nodes| && nodes[c].parent == p)
  }

  /** Number of steps from node `i` up to the root. */
  ghost function Level(nodes: seq<Node>, i: nat): nat
    requires WellFormed(nodes) && i < |nodes|
    decreases i
  {
    if i == 0 then 0 else Level(nodes, nodes[i].parent) + 1
  }

  /** The node `k` steps above `p`. */
  ghost function Ancestor(nodes: seq<Node>, p: nat, k: nat): (a: nat)
    requires WellFormed(nodes) && p < |nodes| && k <= Level(nodes, p)
    ensures a < |nodes| && Level(nodes, a) == Level(nodes, p) - k
    ensures IsDescendant(nodes, p, a)
    decreases k
  {
    if k == 0 then p else Ancestor(nodes, nodes[p].parent, k - 1)
  }

  /** Going up one more step from the `k`-th ancestor gives the
      `k + 1`-th: the parent walk of the parser reaches `Ancestor`. */
  lemma {:induction false} AncestorStep(nodes: seq<Node>, p: nat, k: nat)
    requires WellFormed(nodes) && p < |nodes| && k < Level(nodes, p)
    ensures Ancestor(nodes, p, k + 1) == nodes[Ancestor(nodes, p, k)].parent
    decreases k
  {
    if k > 0 {
      AncestorStep(nodes, nodes[p].parent, k - 1);
    }
  }

  /** `q` is `a` or lies below `a`. */
  ghost predicate IsDescendant(nodes: seq<Node>, q: nat, a: nat)
    requires WellFormed(nodes) && q < |nodes|
    decreases q
  {
    q == a || (q != 0 && IsDescendant(nodes, nodes[q].parent, a))
  }

  /** `q` lies strictly below `a`. */
  ghost predicate Below(nodes: seq<Node>, q: nat, a: nat)
    requires WellFormed(nodes) && q < |nodes|
  {
    q != a && IsDescendant(nodes, q, a)
  }

  /** Appends `node` to the arena as the last child of `p`; nothing else
      in the arena changes. */
  function Attach(nodes: seq<Node>, p: nat, node: Node): (r: seq<Node>)
    requires WellFormed(nodes) && p < |nodes|
    ensures WellFormed(r)
    ensures |r| == |nodes| + 1 && r[|nodes|] == node.(parent := p, children := [])
    ensures r[p] == nodes[p].(children := nodes[p].children + [|nodes|])
    ensures forall i :: 0 <= i < |nodes| && i != p ==> r[i] == nodes[i]
  {
    var r := nodes[p := nodes[p].(children := nodes[p].children + [|nodes|])] + [node.(parent := p, children := [])];
    AttachWellFormed(nodes, p, node, r);
    r
  }

  /** Appending an entry above every entry keeps a list increasing. */
  lemma AppendIncreasing(cs: seq<nat>, n: nat)
    requires Increasing(cs) && forall k :: 0 <= k < |cs| ==> cs[k] < n
    ensures Increasing(cs + [n])
  {
    var ext := cs + [n];
    forall i, j | 0 <= i < j < |ext| ensures Ordered(ext, i, j) {
      if j < |cs| {
        assert Ordered(cs, i, j);
      }
    }
  }

  lemma AttachWellFormed(nodes: seq<Node>, p: nat, node: Node, r: seq<Node>)
    requires WellFormed(nodes) && p < |nodes|
    requires r == nodes[p := nodes[p].(children := nodes[p].children + [|nodes|])] + [node.(parent := p, children := [])]
    ensures WellFormed(r)
  {
    AttachParents(nodes, p, node, r);
    AttachIncreasing(nodes, p, node, r);
    AttachChildren(nodes, p, node, r);
  }

  lemma AttachParents(nodes: seq<Node>, p: nat, node: Node, r: seq<Node>)
    requires WellFormed(nodes) && p < |nodes|
    requires r == nodes[p := nodes[p].(children := nodes[p].children + [|nodes|])] + [node.(parent := p, children := [])]
    ensures forall i :: 0 < i < |r| ==> r[i].parent < i && i in r[r[i].parent].children
  {
    forall i | 0 < i < |r| ensures r[i].parent < i && i in r[r[i].parent].children {
      if i < |nodes| {
        assert i in nodes[nodes[i].parent].children;
      }
    }
  }

  lemma AttachIncreasing(nodes: seq<Node>, p: nat, node: Node, r: seq<Node>)
    requires WellFormed(nodes) && p < |nodes|
    requires r == nodes[p := nodes[p].(children := nodes[p].children + [|nodes|])] + [node.(parent := p, children := [])]
    ensures forall q :: 0 <= q < |r| ==> Increasing(r[q].children)
  {
    var cs := nodes[p].children;
    forall k | 0 <= k < |cs| ensures cs[k] < |nodes| {
      assert cs[k] in nodes[p].children;
    }
    forall q | 0 <= q < |r| ensures Increasing(r[q].children) {
      if q == p {
        assert r[q].children == cs + [|nodes|];
        AppendIncreasing(cs, |nodes|);
      } else if q < |nodes| {
        assert r[q] == nodes[q];
      }
    }
  }

  lemma AttachChildren(nodes: seq<Node>, p: nat, node: Node, r: seq<Node>)
    requires WellFormed(nodes) && p < |nodes|
    requires r == nodes[p := nodes[p].(children := nodes[p].children + [|nodes|])] + [node.(parent := p, children := [])]
    ensures forall q, c {:trigger c in r[q].children} :: 0 <= q < |r| && c in r[q].children ==> q < c < |r| && r[c].parent == q
  {
    var cs := nodes[p].children;
    forall q, c | 0 <= q < |r| && c in r[q].children ensures q < c < |r| && r[c].parent == q {
      if q == p {
        assert r[q].children == cs + [|nodes|];
        if c != |nodes| {
          assert c in nodes[q].children;
          assert r[c].parent == nodes[c].parent;
        }
      } else {
        assert q < |nodes| && r[q] == nodes[q];
        assert c in nodes[q].children;
        assert r[c].parent == nodes[c].parent;
      }
    }
  }

  /** Attaching a node leaves the level of every existing node as it was and
      puts the new node one level below its parent. */
  lemma {:induction false} AttachLevel(nodes: seq<Node>, p: nat, node: Node, i: nat)
    requires WellFormed(nodes) && p < |nodes| && i <= |nodes|
    ensures var r := Attach(nodes, p, node);
      Level(r, i) == if i == |nodes| then Level(nodes, p) + 1 else Level(nodes, i)
    decreases i
  {
    var r := Attach(nodes, p, node);
    if i == |nodes| {
      AttachLevel(nodes, p, node, p);
    } else if i != 0 {
      assert r[i].parent == nodes[i].parent;
      AttachLevel(nodes, p, node, nodes[i].parent);
    }
  }

  /** An ancestor never has a larger index than its descendants. */
  lemma {:induction false} DescendantIndex(nodes: seq<Node>, q: nat, a: nat)
    requires WellFormed(nodes) && q < |nodes| && IsDescendant(nodes, q, a)
    ensures a <= q
    decreases q
  {
    if q != a {
      DescendantIndex(nodes, nodes[q].parent, a);
    }
  }

  /** Lying below is transitive. */
  lemma {:induction false} DescendantTransitive(nodes: seq<Node>, q: nat, m: nat, a: nat)
    requires WellFormed(nodes) && q < |nodes| && m < |nodes|
    requires IsDescendant(nodes, q, m) && IsDescendant(nodes, m, a)
    ensures IsDescendant(nodes, q, a)
    decreases q
  {
    if q != m {
      DescendantTransitive(nodes, nodes[q].parent, m, a);
    }
  }

  /** Every child of `p` lies after it in the arena and names it as parent. */
  lemma ChildrenInRange(nodes: seq<Node>, p: nat)
    requires WellFormed(nodes) && p < |nodes|
    ensures forall i :: 0 <= i < |nodes[p].children| ==>
      p < nodes[p].children[i] < |nodes| && nodes[nodes[p].children[i]].parent == p
  {
    forall i | 0 <= i < |nodes[p].children|
      ensures p < nodes[p].children[i] < |nodes| && nodes[nodes[p].children[i]].parent == p
    {
      assert nodes[p].children[i] in nodes[p].children;
    }
  }

  /** Two arenas with the same links between their nodes. */
  ghost predicate SameShape(a: seq<Node>, b: seq<Node>)
  {
    |a| == |b| && forall i :: 0 <= i < |a| ==> a[i].parent == b[i].parent && a[i].children == b[i].children
  }

  /** Well-formedness is a matter of the links alone. */
  lemma ShapeWellFormed(a: seq<Node>, b: seq<Node>)
    requires WellFormed(a) && SameShape(a, b)
    ensures WellFormed(b)
  {
    forall i | 0 < i < |b| ensures b[i].parent < i && i in b[b[i].parent].children {
      assert a[i].parent < i && i in a[a[i].parent].children;
    }
    forall p | 0 <= p < |b| ensures Increasing(b[p].children) {
      assert Increasing(a[p].children);
    }
    forall p, c | 0 <= p < |b| && c in b[p].children ensures p < c < |b| && b[c].parent == p {
      assert c in a[p].children;
    }
  }

  /** So is lying below a node. */
  lemma {:induction false} ShapeDescendant(a: seq<Node>, b: seq<Node>, q: nat, x: nat)
    requires WellFormed(a) && SameShape(a, b) && q < |a|
    ensures WellFormed(b) && (IsDescendant(a, q, x) <==> IsDescendant(b, q, x))
    decreases q
  {
    ShapeWellFormed(a, b);
    if q != x && q != 0 {
      ShapeDescendant(a, b, a[q].parent, x);
    }
  }

  /** The child of `p` whose subtree holds `q`. */
  ghost function Top(nodes: seq<Node>, q: nat, p: nat): (t: nat)
    requires WellFormed(nodes) && q < |nodes| && p < |nodes| && Below(nodes, q, p)
    ensures 0 < t < |nodes| && nodes[t].parent == p && t in nodes[p].children && IsDescendant(nodes, q, t)
    decreases q
  {
    if nodes[q].parent == p then q
    else
      var t := Top(nodes, nodes[q].parent, p);
      t
  }

  /** A node below a child of `p` has that child as its top. */
  lemma {:induction false} TopUnique(nodes: seq<Node>, q: nat, p: nat, c: nat)
    requires WellFormed(nodes) && q < |nodes| && p < |nodes| && c < |nodes|
    requires c in nodes[p].children && IsDescendant(nodes, q, c)
    ensures Below(nodes, q, p) && Top(nodes, q, p) == c
    decreases q
  {
    if q != c {
      var m := nodes[q].parent;
      TopUnique(nodes, m, p, c);
      DescendantIndex(nodes, m, c);
    }
  }

  /** The document: its source name (used in every node's locator), the node
      arena and the registry of aliases defined at the root. */
  class Document {
    const source: string
    var nodes: seq<Node>
    var globalAliases: map<string, string>

    constructor (source: string)
      ensures this.source == source
      ensures nodes == [RootNode()] && WellFormed(nodes)
      ensures globalAliases == map[]
    {
      this.source := source;
      nodes := [RootNode()];
      globalAliases := map[];
    }
  }
}
