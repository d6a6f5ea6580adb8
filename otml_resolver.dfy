/** The alias pass that runs over the finished tree: at every level the
    `&name: value` children are registered, in order, into a copy of the
    scope inherited from above (and, at the root, into the document's global
    registry); then every other child whose value is a `$name` reference has
    it replaced by the value it resolves to, and the pass descends into every
    child with the level's scope. */
module OtmlResolver {
  import opened Text
  import opened OtmlTree
  import opened OtmlAlias

  /** The alias-defining entries among the children `cs`, in their order. */
  function AliasChildren(nodes: seq<Node>, cs: seq<nat>): (r: seq<nat>)
    requires forall i :: 0 <= i < |cs| ==> cs[i] < |nodes|
    ensures forall a :: a in r <==> a in cs && IsAliasTag(nodes[a].tag)
    ensures forall i :: 0 <= i < |r| ==> r[i] < |nodes|
    decreases |cs|
  {
    if cs == [] then []
    else
      var init := AliasChildren(nodes, cs[..|cs| - 1]);
      assert forall a :: a in cs <==> a in cs[..|cs| - 1] || a == cs[|cs| - 1] by {
        assert cs == cs[..|cs| - 1] + [cs[|cs| - 1]];
      }
      if IsAliasTag(nodes[cs[|cs| - 1]].tag) then init + [cs[|cs| - 1]] else init
  }

  /** Where the definitions of a level stand: the scope built so far, the
      global registry and what was logged. */
  datatype Pass = Pass(scope: map<string, string>, global: map<string, string>, log: seq<Diagnostic>)

  /** What one alias definition amounts to, given the scope it sees (the
      body of the first loop of `resolveVariablesRecursive`): an empty name
      is reported as malformed; a reference that does not resolve is dropped, with what
      the lookup logged; anything else binds its normalised name to the
      resolved value when it is a reference, or else to its normalised
      value. */
  datatype Binding = Nameless(tag: string) | Dropped(log: seq<Diagnostic>) | Bound(name: string, value: string)

  function Classify(tag: string, value: string, scope: map<string, string>): Binding
  {
    var name := NormalizeAliasName(tag);
    if name == "" then Nameless(tag)
    else
      var normalized := NormalizeValue(value);
      var res := ResolveAliasValue(normalized, scope);
      if res.referenced && res.resolved.None? then Dropped(res.log)
      else Bound(name, if res.referenced then res.resolved.value else normalized)
  }

  /** An empty name is malformed; a reference that does not resolve is
      dropped with the one diagnostic of its lookup; anything else binds
      the normalised name, to the end of the chain for a reference and to
      the normalised value otherwise. */
  lemma ClassifyMeaning(tag: string, value: string, scope: map<string, string>)
    ensures var b := Classify(tag, value, scope);
      var res := ResolveAliasValue(NormalizeValue(value), scope);
      && (b.Nameless? <==> NormalizeAliasName(tag) == "")
      && (b.Nameless? ==> b.tag == tag)
      && (b.Dropped? <==> NormalizeAliasName(tag) != "" && res.referenced && res.resolved.None?)
      && (b.Dropped? ==> b.log == res.log && |b.log| == 1)
      && (b.Bound? ==> b.name == NormalizeAliasName(tag) && b.name != "" && res.log == [])
      && (b.Bound? && res.referenced ==> b.value == res.resolved.value && !IsReference(b.value))
      && (b.Bound? && !res.referenced ==> b.value == NormalizeValue(value))
  {
  }

  /** The effect of a binding on where the level stands: only a bound name
      enters the scope, and at the root the registry, with a warning when
      the registry already had it. */
  function Apply(b: Binding, st: Pass, isRoot: bool): (r: Pass)
    ensures !b.Bound? ==> r.scope == st.scope && r.global == st.global
    ensures b.Bound? ==> r.scope == st.scope[b.name := b.value]
    ensures r.global == if isRoot && b.Bound? then st.global[b.name := b.value] else st.global
    ensures r.log == st.log + match b
      case Nameless(tag) => [Malformed(tag)]
      case Dropped(log) => log
      case Bound(name, _) => if isRoot && name in st.global then [Overriding(name)] else []
  {
    match b
    case Nameless(tag) => st.(log := st.log + [Malformed(tag)])
    case Dropped(log) => st.(log := st.log + log)
    case Bound(name, value) =>
      if isRoot then
        Pass(st.scope[name := value], st.global[name := value], st.log + if name in st.global then [Overriding(name)] else [])
      else Pass(st.scope[name := value], st.global, st.log)
  }

  /** One alias definition applied to where the level stands. */
  function DefineAlias(n: Node, st: Pass, isRoot: bool): Pass
  {
    Apply(Classify(n.tag, n.value, st.scope), st, isRoot)
  }

  /** The definitions `aliasNodes` processed in order, starting from `scope`: each
      one sees the inherited scope and the definitions before it. */
  function AliasPass(nodes: seq<Node>, aliasNodes: seq<nat>, scope: map<string, string>, global: map<string, string>, isRoot: bool): (r: Pass)
    requires forall i :: 0 <= i < |aliasNodes| ==> aliasNodes[i] < |nodes|
    decreases |aliasNodes|
  {
    if aliasNodes == [] then Pass(scope, global, [])
    else DefineAlias(nodes[aliasNodes[|aliasNodes| - 1]], AliasPass(nodes, aliasNodes[..|aliasNodes| - 1], scope, global, isRoot), isRoot)
  }

  /** The scope does not depend on the registry, nor on being at the root;
      below the root the registry is left as it was. */
  lemma {:induction false} AliasPassScope(nodes: seq<Node>, aliasNodes: seq<nat>, scope: map<string, string>, global: map<string, string>, isRoot: bool)
    requires forall i :: 0 <= i < |aliasNodes| ==> aliasNodes[i] < |nodes|
    ensures AliasPass(nodes, aliasNodes, scope, global, isRoot).scope == AliasPass(nodes, aliasNodes, scope, map[], false).scope
    ensures AliasPass(nodes, aliasNodes, scope, global, false) == AliasPass(nodes, aliasNodes, scope, map[], false).(global := global)
    decreases |aliasNodes|
  {
    if aliasNodes != [] {
      AliasPassScope(nodes, aliasNodes[..|aliasNodes| - 1], scope, global, isRoot);
    }
  }

  /** A binding only adds its own name to the scope. */
  lemma ApplyExtends(b: Binding, st: Pass, isRoot: bool)
    ensures var r := Apply(b, st, isRoot);
      && st.scope.Keys <= r.scope.Keys
      && forall name :: name in r.scope && (name !in st.scope || r.scope[name] != st.scope[name]) ==>
        b.Bound? && name == b.name
  {
  }

  /** One definition only adds or changes the name it defines. */
  lemma DefineAliasExtends(n: Node, st: Pass, isRoot: bool)
    ensures var r := DefineAlias(n, st, isRoot);
      && st.scope.Keys <= r.scope.Keys
      && forall name :: name in r.scope && (name !in st.scope || r.scope[name] != st.scope[name]) ==>
        name == NormalizeAliasName(n.tag)
  {
    ApplyExtends(Classify(n.tag, n.value, st.scope), st, isRoot);
  }

  /** Definitions only add names to the scope: everything inherited stays
      visible, and a name keeps its inherited value unless a definition of
      the level is registered under it. */
  lemma {:induction false} AliasPassExtends(nodes: seq<Node>, aliasNodes: seq<nat>, scope: map<string, string>, global: map<string, string>, isRoot: bool)
    requires forall i :: 0 <= i < |aliasNodes| ==> aliasNodes[i] < |nodes|
    ensures var r := AliasPass(nodes, aliasNodes, scope, global, isRoot);
      && scope.Keys <= r.scope.Keys
      && forall name :: name in r.scope && (name !in scope || r.scope[name] != scope[name]) ==>
        exists i :: 0 <= i < |aliasNodes| && NormalizeAliasName(nodes[aliasNodes[i]].tag) == name
    decreases |aliasNodes|
  {
    if aliasNodes != [] {
      var init := aliasNodes[..|aliasNodes| - 1];
      var last := |aliasNodes| - 1;
      AliasPassExtends(nodes, init, scope, global, isRoot);
      var before := AliasPass(nodes, init, scope, global, isRoot);
      var r := AliasPass(nodes, aliasNodes, scope, global, isRoot);
      DefineAliasExtends(nodes[aliasNodes[last]], before, isRoot);
      assert r == DefineAlias(nodes[aliasNodes[last]], before, isRoot);
      forall name | name in r.scope && (name !in scope || r.scope[name] != scope[name])
        ensures exists i :: 0 <= i < |aliasNodes| && NormalizeAliasName(nodes[aliasNodes[i]].tag) == name
      {
        if name in before.scope && r.scope[name] == before.scope[name] {
          var i :| 0 <= i < |init| && NormalizeAliasName(nodes[init[i]].tag) == name;
          assert aliasNodes[i] == init[i];
        } else {
          assert NormalizeAliasName(nodes[aliasNodes[last]].tag) == name;
        }
      }
    }
  }

  /** The registry agrees with the root scope on every name the scope
      holds, and holds its earlier value for any other name. */
  ghost predicate InSync(st: Pass, global: map<string, string>)
  {
    && (forall name :: name in st.scope ==> name in st.global && st.global[name] == st.scope[name])
    && (forall name :: name in st.global && name !in st.scope ==> name in global && st.global[name] == global[name])
  }

  lemma ApplyInSync(b: Binding, st: Pass, global: map<string, string>)
    requires InSync(st, global)
    ensures InSync(Apply(b, st, true), global)
  {
  }

  /** At the root, the registry holds every alias the root scope gained,
      with the same value, and otherwise what it held before. */
  lemma {:induction false} RootRegistry(nodes: seq<Node>, aliasNodes: seq<nat>, global: map<string, string>)
    requires forall i :: 0 <= i < |aliasNodes| ==> aliasNodes[i] < |nodes|
    ensures InSync(AliasPass(nodes, aliasNodes, map[], global, true), global)
    decreases |aliasNodes|
  {
    if aliasNodes != [] {
      var init := aliasNodes[..|aliasNodes| - 1];
      RootRegistry(nodes, init, global);
      var before := AliasPass(nodes, init, map[], global, true);
      var n := nodes[aliasNodes[|aliasNodes| - 1]];
      ApplyInSync(Classify(n.tag, n.value, before.scope), before, global);
    }
  }

  /** The scope a level hands to its children: the inherited scope with the
      level's own definitions registered. */
  ghost function LevelScope(nodes: seq<Node>, p: nat, scope: map<string, string>): map<string, string>
    requires WellFormed(nodes) && p < |nodes|
  {
    LevelPass(nodes, p, scope, map[], false).scope
  }

  /** The definitions among the children of `p`, processed in order. */
  ghost function LevelPass(nodes: seq<Node>, p: nat, scope: map<string, string>, global: map<string, string>, isRoot: bool): Pass
    requires WellFormed(nodes) && p < |nodes|
  {
    ChildrenInRange(nodes, p);
    AliasPass(nodes, AliasChildren(nodes, nodes[p].children), scope, global, isRoot)
  }

  /** The second loop's treatment of a child that defines no alias: a
      reference that resolves is replaced by the normalised value it
      resolves to; any other value is left as it is. */
  function Rewrite(n: Node, scope: map<string, string>): (r: Node)
    ensures var res := ResolveAliasValue(n.value, scope);
      && (res.referenced && res.resolved.Some? ==> r == n.(value := NormalizeValue(res.resolved.value)))
      && (!res.referenced || res.resolved.None? ==> r == n)
  {
    var res := ResolveAliasValue(n.value, scope);
    if res.referenced && res.resolved.Some? then n.(value := NormalizeValue(res.resolved.value)) else n
  }

  /** What the pass leaves in a child of a level with scope `scope`: an
      alias definition is marked unique, any other child is rewritten. */
  function Touch(n: Node, scope: map<string, string>): (r: Node)
    ensures r.tag == n.tag && r.parent == n.parent && r.children == n.children
    ensures IsAliasTag(n.tag) ==> r == n.(unique := true)
    ensures !IsAliasTag(n.tag) ==> r == Rewrite(n, scope)
  {
    if IsAliasTag(n.tag) then n.(unique := true) else Rewrite(n, scope)
  }

  /** The scope in force at level `a` below the level `p` the pass started
      at with the inherited scope `scope`. */
  ghost function ScopeFrom(nodes: seq<Node>, p: nat, scope: map<string, string>, a: nat): map<string, string>
    requires WellFormed(nodes) && p < |nodes| && a < |nodes| && IsDescendant(nodes, a, p)
    decreases a
  {
    if a == p then LevelScope(nodes, p, scope)
    else LevelScope(nodes, a, ScopeFrom(nodes, p, scope, nodes[a].parent))
  }

  /** The node `q` once the pass started at `p` is done: every node below
      `p` is touched with the scope of its parent's level; the rest of the
      tree is left as it was. */
  ghost function Expected(nodes: seq<Node>, p: nat, scope: map<string, string>, q: nat): Node
    requires WellFormed(nodes) && p < |nodes| && q < |nodes|
  {
    if Below(nodes, q, p) then Touch(nodes[q], ScopeFrom(nodes, p, scope, nodes[q].parent)) else nodes[q]
  }

  /** Which diagnostics the pass started at `p` logs, in order: the level's
      definitions first, then for each child the lookup of its reference
      (when it defines no alias) followed by everything logged below it. */
  ghost function LogOf(nodes: seq<Node>, p: nat, scope: map<string, string>, isRoot: bool, global: map<string, string>): seq<Diagnostic>
    requires WellFormed(nodes) && p < |nodes|
    decreases |nodes| - p, 1
  {
    var pass := LevelPass(nodes, p, scope, global, isRoot);
    ChildrenInRange(nodes, p);
    pass.log + ChildrenLog(nodes, p, nodes[p].children, pass.scope)
  }

  ghost function ChildrenLog(nodes: seq<Node>, p: nat, cs: seq<nat>, scope: map<string, string>): seq<Diagnostic>
    requires WellFormed(nodes) && p < |nodes|
    requires forall i :: 0 <= i < |cs| ==> p < cs[i] < |nodes|
    decreases |nodes| - p, 0, |cs|
  {
    if cs == [] then []
    else ChildrenLog(nodes, p, cs[..|cs| - 1], scope) + ChildLog(nodes, cs[|cs| - 1], scope)
  }

  /** What the second loop logs for child `c`: the lookup of its reference
      when it defines no alias, then everything logged below it. */
  ghost function ChildLog(nodes: seq<Node>, c: nat, scope: map<string, string>): seq<Diagnostic>
    requires WellFormed(nodes) && c < |nodes|
    decreases |nodes| - c, 2
  {
    (if IsAliasTag(nodes[c].tag) then [] else ResolveAliasValue(nodes[c].value, scope).log)
    + LogOf(nodes, c, scope, false, map[])
  }

  /** Two arenas with the same links, and the same tags and values at every
      node strictly below `c`. */
  ghost predicate AgreeBelow(a: seq<Node>, b: seq<Node>, c: nat)
    requires WellFormed(a) && c < |a|
  {
    && SameShape(a, b)
    && forall x :: 0 <= x < |a| && Below(a, x, c) ==> a[x].tag == b[x].tag && a[x].value == b[x].value
  }

  lemma {:induction false} AliasChildrenFrame(a: seq<Node>, b: seq<Node>, cs: seq<nat>)
    requires |a| == |b| && forall i :: 0 <= i < |cs| ==> cs[i] < |a| && a[cs[i]].tag == b[cs[i]].tag
    ensures AliasChildren(a, cs) == AliasChildren(b, cs)
    decreases |cs|
  {
    if cs != [] {
      AliasChildrenFrame(a, b, cs[..|cs| - 1]);
    }
  }

  lemma {:induction false} AliasPassFrame(a: seq<Node>, b: seq<Node>, aliasNodes: seq<nat>, scope: map<string, string>, global: map<string, string>, isRoot: bool)
    requires |a| == |b|
    requires forall i :: 0 <= i < |aliasNodes| ==> aliasNodes[i] < |a| && a[aliasNodes[i]].tag == b[aliasNodes[i]].tag && a[aliasNodes[i]].value == b[aliasNodes[i]].value
    ensures AliasPass(a, aliasNodes, scope, global, isRoot) == AliasPass(b, aliasNodes, scope, global, isRoot)
    decreases |aliasNodes|
  {
    if aliasNodes != [] {
      AliasPassFrame(a, b, aliasNodes[..|aliasNodes| - 1], scope, global, isRoot);
    }
  }

  /** A level's scope depends only on the tags and values of its children. */
  lemma LevelScopeFrame(a: seq<Node>, b: seq<Node>, x: nat, scope: map<string, string>, isRoot: bool, global: map<string, string>)
    requires WellFormed(a) && SameShape(a, b) && x < |a|
    requires forall c :: c in a[x].children ==> a[c].tag == b[c].tag && a[c].value == b[c].value
    ensures WellFormed(b)
    ensures LevelPass(a, x, scope, global, isRoot) == LevelPass(b, x, scope, global, isRoot)
    ensures LevelScope(a, x, scope) == LevelScope(b, x, scope)
  {
    ShapeWellFormed(a, b);
    ChildrenInRange(a, x);
    var cs := a[x].children;
    assert forall i :: 0 <= i < |cs| ==> cs[i] in a[x].children;
    AliasChildrenFrame(a, b, cs);
    var defs := AliasChildren(a, cs);
    assert forall i :: 0 <= i < |defs| ==> defs[i] in cs;
    AliasPassFrame(a, b, defs, scope, global, isRoot);
    AliasPassFrame(a, b, defs, scope, map[], false);
  }

  /** Every child of a node below `c`, or of `c` itself, lies below `c`. */
  lemma ChildBelow(nodes: seq<Node>, x: nat, c: nat, y: nat)
    requires WellFormed(nodes) && x < |nodes| && c < |nodes| && IsDescendant(nodes, x, c)
    requires y in nodes[x].children
    ensures y < |nodes| && Below(nodes, y, c) && nodes[y].parent == x
  {
    DescendantIndex(nodes, x, c);
    DescendantTransitive(nodes, y, x, c);
  }

  /** The scopes below `c` depend only on the tags and values below `c`. */
  lemma {:induction false} ScopeFromFrame(a: seq<Node>, b: seq<Node>, c: nat, scope: map<string, string>, x: nat)
    requires WellFormed(a) && c < |a| && AgreeBelow(a, b, c)
    requires x < |a| && IsDescendant(a, x, c)
    ensures WellFormed(b) && IsDescendant(b, x, c)
    ensures ScopeFrom(a, c, scope, x) == ScopeFrom(b, c, scope, x)
    decreases x
  {
    ShapeDescendant(a, b, x, c);
    forall y | y in a[x].children
      ensures a[y].tag == b[y].tag && a[y].value == b[y].value
    {
      ChildBelow(a, x, c, y);
    }
    if x == c {
      LevelScopeFrame(a, b, x, scope, false, map[]);
    } else {
      ScopeFromFrame(a, b, c, scope, a[x].parent);
      LevelScopeFrame(a, b, x, ScopeFrom(a, c, scope, a[x].parent), false, map[]);
    }
  }

  /** Below a child `c` of `p`, the scopes seen from `p` are those seen from
      `c` once `c` inherits the scope of `p`'s level. */
  lemma {:induction false} ScopeFromChild(nodes: seq<Node>, p: nat, scope: map<string, string>, c: nat, x: nat)
    requires WellFormed(nodes) && p < |nodes| && c in nodes[p].children
    requires x < |nodes| && IsDescendant(nodes, x, c)
    ensures c < |nodes| && IsDescendant(nodes, x, p)
    ensures ScopeFrom(nodes, p, scope, x) == ScopeFrom(nodes, c, LevelScope(nodes, p, scope), x)
    decreases x
  {
    ChildBelow(nodes, p, p, c);
    DescendantTransitive(nodes, x, c, p);
    DescendantIndex(nodes, x, c);
    var level := LevelScope(nodes, p, scope);
    if x == c {
      assert ScopeFrom(nodes, p, scope, nodes[c].parent) == level;
      assert ScopeFrom(nodes, p, scope, c) == LevelScope(nodes, c, level);
    } else {
      var m := nodes[x].parent;
      ScopeFromChild(nodes, p, scope, c, m);
      assert ScopeFrom(nodes, p, scope, x) == LevelScope(nodes, x, ScopeFrom(nodes, p, scope, m));
    }
  }

  /** What is logged below `c` depends only on the tags and values below `c`. */
  lemma {:induction false} LogOfFrame(a: seq<Node>, b: seq<Node>, c: nat, x: nat, scope: map<string, string>)
    requires WellFormed(a) && c < |a| && AgreeBelow(a, b, c)
    requires x < |a| && IsDescendant(a, x, c)
    ensures WellFormed(b)
    ensures LogOf(a, x, scope, false, map[]) == LogOf(b, x, scope, false, map[])
    decreases |a| - x, 1
  {
    ShapeWellFormed(a, b);
    forall y | y in a[x].children
      ensures a[y].tag == b[y].tag && a[y].value == b[y].value
    {
      ChildBelow(a, x, c, y);
    }
    LevelScopeFrame(a, b, x, scope, false, map[]);
    ChildrenInRange(a, x);
    var pass := LevelPass(a, x, scope, map[], false);
    ChildrenLogFrame(a, b, c, x, a[x].children, pass.scope);
  }

  lemma {:induction false} ChildrenLogFrame(a: seq<Node>, b: seq<Node>, c: nat, x: nat, cs: seq<nat>, scope: map<string, string>)
    requires WellFormed(a) && c < |a| && AgreeBelow(a, b, c)
    requires x < |a| && IsDescendant(a, x, c)
    requires forall i :: 0 <= i < |cs| ==> cs[i] in a[x].children
    ensures WellFormed(b) && forall i :: 0 <= i < |cs| ==> x < cs[i] < |a|
    ensures ChildrenLog(a, x, cs, scope) == ChildrenLog(b, x, cs, scope)
    decreases |a| - x, 0, |cs|
  {
    ShapeWellFormed(a, b);
    ChildrenInRange(a, x);
    forall i | 0 <= i < |cs| ensures x < cs[i] < |a| {
      ChildBelow(a, x, c, cs[i]);
      DescendantIndex(a, cs[i], x);
    }
    if cs != [] {
      var y := cs[|cs| - 1];
      ChildBelow(a, x, c, y);
      ChildrenLogFrame(a, b, c, x, cs[..|cs| - 1], scope);
      LogOfFrame(a, b, c, y, scope);
    }
  }

  /** The arena part-way through the second loop at level `p`: the level's
      alias definitions are marked, and the first `k` children have been
      rewritten and descended into. */
  ghost function Midway(nodes: seq<Node>, p: nat, scope: map<string, string>, k: nat, q: nat): Node
    requires WellFormed(nodes) && p < |nodes| && q < |nodes| && k <= |nodes[p].children|
  {
    if Below(nodes, q, p) && ((nodes[q].parent == p && IsAliasTag(nodes[q].tag)) || Top(nodes, q, p) in nodes[p].children[..k])
    then Expected(nodes, p, scope, q)
    else nodes[q]
  }

  /** The whole arena part-way through the second loop. */
  ghost function Partial(nodes: seq<Node>, p: nat, scope: map<string, string>, k: nat): (r: seq<Node>)
    requires WellFormed(nodes) && p < |nodes| && k <= |nodes[p].children|
    ensures |r| == |nodes| && forall q :: 0 <= q < |nodes| ==> r[q] == Midway(nodes, p, scope, k, q)
  {
    seq(|nodes|, q requires 0 <= q < |nodes| => Midway(nodes, p, scope, k, q))
  }

  /** The whole arena once the pass started at `p` is done. */
  ghost function Resolved(nodes: seq<Node>, p: nat, scope: map<string, string>): (r: seq<Node>)
    requires WellFormed(nodes) && p < |nodes|
    ensures |r| == |nodes| && forall q :: 0 <= q < |nodes| ==> r[q] == Expected(nodes, p, scope, q)
  {
    seq(|nodes|, q requires 0 <= q < |nodes| => Expected(nodes, p, scope, q))
  }

  /** Midway through, the arena keeps its links and tags. */
  lemma MidwayShape(nodes: seq<Node>, p: nat, scope: map<string, string>, k: nat, mid: seq<Node>)
    requires WellFormed(nodes) && p < |nodes| && k <= |nodes[p].children|
    requires mid == Partial(nodes, p, scope, k)
    ensures SameShape(nodes, mid) && WellFormed(mid)
    ensures forall q :: 0 <= q < |nodes| ==> mid[q].tag == nodes[q].tag
  {
    ShapeWellFormed(nodes, mid);
  }

  /** After the first loop only the level's alias definitions are marked,
      which is where the second loop starts. */
  lemma DefinitionsMarked(nodes: seq<Node>, p: nat, scope: map<string, string>, defs: seq<nat>, mid: seq<Node>)
    requires WellFormed(nodes) && p < |nodes|
    requires (ChildrenInRange(nodes, p); defs == AliasChildren(nodes, nodes[p].children))
    requires mid == Marked(nodes, defs)
    ensures mid == Partial(nodes, p, scope, 0)
  {
    ChildrenInRange(nodes, p);
    forall q | 0 <= q < |nodes| ensures mid[q] == Midway(nodes, p, scope, 0, q) {
      DefinitionMarked(nodes, p, scope, defs, q);
    }
  }

  /** The same, node by node. */
  lemma DefinitionMarked(nodes: seq<Node>, p: nat, scope: map<string, string>, defs: seq<nat>, q: nat)
    requires WellFormed(nodes) && p < |nodes| && q < |nodes|
    requires (ChildrenInRange(nodes, p); defs == AliasChildren(nodes, nodes[p].children))
    ensures Marked(nodes, defs)[q] == Midway(nodes, p, scope, 0, q)
  {
    if q in defs {
      ChildBelow(nodes, p, p, q);
      assert ScopeFrom(nodes, p, scope, nodes[q].parent) == LevelScope(nodes, p, scope);
    } else if Below(nodes, q, p) && nodes[q].parent == p {
      assert q in nodes[p].children;
    }
  }

  /** After the second loop every node below the level is as expected. */
  lemma ChildrenDone(nodes: seq<Node>, p: nat, scope: map<string, string>)
    requires WellFormed(nodes) && p < |nodes|
    ensures Partial(nodes, p, scope, |nodes[p].children|) == Resolved(nodes, p, scope)
  {
    assert nodes[p].children[..|nodes[p].children|] == nodes[p].children;
    forall q | 0 <= q < |nodes|
      ensures Partial(nodes, p, scope, |nodes[p].children|)[q] == Resolved(nodes, p, scope)[q]
    {
      if Below(nodes, q, p) {
        var t := Top(nodes, q, p);
      }
    }
  }

  /** One turn of the second loop: child `c`, the `k`-th, is touched with
      the level's scope `level` and the pass descends into it. */
  ghost predicate Turn(nodes: seq<Node>, p: nat, scope: map<string, string>, k: nat, c: nat, level: map<string, string>, mid0: seq<Node>, mid1: seq<Node>)
    requires WellFormed(nodes) && p < |nodes| && k < |nodes[p].children|
  {
    && c == nodes[p].children[k] && p < c < |nodes|
    && level == LevelScope(nodes, p, scope)
    && mid0 == Partial(nodes, p, scope, k)
    && mid1 == mid0[c := Touch(nodes[c], level)]
  }

  /** Rewriting the `k`-th child with the level's scope starts its turn. */
  lemma TurnStart(nodes: seq<Node>, p: nat, scope: map<string, string>, k: nat, c: nat, mid0: seq<Node>, mid1: seq<Node>)
    requires WellFormed(nodes) && p < |nodes| && k < |nodes[p].children| && c == nodes[p].children[k]
    requires mid0 == Partial(nodes, p, scope, k) && c < |mid0|
    requires mid1 == mid0[c := if IsAliasTag(mid0[c].tag) then mid0[c] else Rewrite(mid0[c], LevelScope(nodes, p, scope))]
    ensures Turn(nodes, p, scope, k, c, LevelScope(nodes, p, scope), mid0, mid1)
    ensures WellFormed(mid1)
    ensures mid0[c].tag == nodes[c].tag && mid0[c].value == nodes[c].value
  {
    ChildrenInRange(nodes, p);
    MidwayBefore(nodes, p, scope, k, c);
    var level := LevelScope(nodes, p, scope);
    if IsAliasTag(nodes[c].tag) {
      assert mid1 == mid0;
      assert mid0[c] == Touch(nodes[c], level);
    } else {
      assert mid0[c] == nodes[c];
    }
    MidwayShape(nodes, p, scope, k, mid0);
    ShapeWellFormed(nodes, mid1);
  }

  /** Before the turn on `c`, nothing strictly below `c` has been touched. */
  lemma UntouchedBelow(nodes: seq<Node>, p: nat, scope: map<string, string>, k: nat, c: nat, level: map<string, string>, mid0: seq<Node>, mid1: seq<Node>)
    requires WellFormed(nodes) && p < |nodes| && k < |nodes[p].children|
    requires Turn(nodes, p, scope, k, c, level, mid0, mid1)
    ensures forall x :: 0 <= x < |nodes| && Below(nodes, x, c) ==> mid1[x] == nodes[x]
  {
    forall x | 0 <= x < |nodes| && Below(nodes, x, c) ensures mid1[x] == nodes[x] {
      MidwayBelow(nodes, p, scope, k, c, x);
    }
  }

  /** Replacing a node by one with the same links keeps the shape. */
  lemma ShapeUpdate(nodes: seq<Node>, mid: seq<Node>, c: nat, n: Node)
    requires SameShape(nodes, mid) && c < |mid|
    requires n.parent == mid[c].parent && n.children == mid[c].children
    ensures SameShape(nodes, mid[c := n])
  {
  }

  /** An arena with the original's links that is untouched below `c`
      agrees with it there. */
  lemma AgreeBelowUntouched(nodes: seq<Node>, mid: seq<Node>, c: nat)
    requires WellFormed(nodes) && c < |nodes| && SameShape(nodes, mid)
    requires forall x :: 0 <= x < |nodes| && Below(nodes, x, c) ==> mid[x] == nodes[x]
    ensures AgreeBelow(nodes, mid, c)
  {
  }

  /** The `k`-th child is touched with the level's scope on its turn. */
  lemma MidwaySelf(nodes: seq<Node>, p: nat, scope: map<string, string>, k: nat, c: nat)
    requires WellFormed(nodes) && p < |nodes| && k < |nodes[p].children| && c == nodes[p].children[k]
    ensures c < |nodes| && Midway(nodes, p, scope, k + 1, c) == Touch(nodes[c], LevelScope(nodes, p, scope))
  {
    var cs := nodes[p].children;
    assert c in cs;
    ChildBelow(nodes, p, p, c);
    assert cs[..k + 1] == cs[..k] + [c];
    assert ScopeFrom(nodes, p, scope, nodes[c].parent) == LevelScope(nodes, p, scope);
  }

  /** Nodes outside the subtree of the `k`-th child are not affected by its turn. */
  lemma MidwayOther(nodes: seq<Node>, p: nat, scope: map<string, string>, k: nat, c: nat, q: nat)
    requires WellFormed(nodes) && p < |nodes| && k < |nodes[p].children| && c == nodes[p].children[k]
    requires q < |nodes| && !IsDescendant(nodes, q, c)
    ensures Midway(nodes, p, scope, k + 1, q) == Midway(nodes, p, scope, k, q)
  {
    var cs := nodes[p].children;
    assert cs[..k + 1] == cs[..k] + [c];
    if Below(nodes, q, p) {
      var t := Top(nodes, q, p);
      assert t != c;
    }
  }

  /** Nodes strictly below the `k`-th child are untouched before its turn and
      as expected after it. */
  lemma MidwayBelow(nodes: seq<Node>, p: nat, scope: map<string, string>, k: nat, c: nat, q: nat)
    requires WellFormed(nodes) && p < |nodes| && k < |nodes[p].children| && c == nodes[p].children[k]
    requires q < |nodes| && Below(nodes, q, c)
    ensures Below(nodes, q, p) && nodes[q].parent != p
    ensures Midway(nodes, p, scope, k, q) == nodes[q]
    ensures Midway(nodes, p, scope, k + 1, q) == Expected(nodes, p, scope, q)
  {
    var cs := nodes[p].children;
    assert c in cs;
    assert c !in cs[..k] by {
      assert Increasing(cs);
      forall i | 0 <= i < k ensures cs[..k][i] < c {
        assert Ordered(cs, i, k);
      }
    }
    assert cs[..k + 1] == cs[..k] + [c];
    TopUnique(nodes, q, p, c);
    ChildBelow(nodes, p, p, c);
    DescendantIndex(nodes, nodes[q].parent, c);
  }

  /** A node strictly below `c` is touched with the scope of its parent's
      level, which is the same seen from `c` as from `p`. */
  lemma ExpectedBelow(nodes: seq<Node>, mid: seq<Node>, p: nat, scope: map<string, string>, c: nat, q: nat)
    requires WellFormed(nodes) && p < |nodes| && c in nodes[p].children && AgreeBelow(nodes, mid, c)
    requires q < |nodes| && Below(nodes, q, c) && mid[q] == nodes[q]
    ensures WellFormed(mid)
    ensures Expected(mid, c, LevelScope(nodes, p, scope), q) == Expected(nodes, p, scope, q)
  {
    ShapeDescendant(nodes, mid, q, c);
    var m := nodes[q].parent;
    ScopeFromFrame(nodes, mid, c, LevelScope(nodes, p, scope), m);
    ScopeFromChild(nodes, p, scope, c, m);
    ChildBelow(nodes, p, p, c);
    DescendantTransitive(nodes, q, c, p);
    DescendantIndex(nodes, q, c);
  }

  lemma ChildStep(nodes: seq<Node>, p: nat, scope: map<string, string>, k: nat, c: nat, level: map<string, string>, mid0: seq<Node>, mid1: seq<Node>, mid2: seq<Node>)
    requires WellFormed(nodes) && p < |nodes| && k < |nodes[p].children|
    requires Turn(nodes, p, scope, k, c, level, mid0, mid1)
    requires WellFormed(mid1) && mid2 == Resolved(mid1, c, level)
    ensures mid2 == Partial(nodes, p, scope, k + 1)
  {
    UntouchedBelow(nodes, p, scope, k, c, level, mid0, mid1);
    MidwayShape(nodes, p, scope, k, mid0);
    ShapeUpdate(nodes, mid0, c, Touch(nodes[c], level));
    AgreeBelowUntouched(nodes, mid1, c);
    forall q | 0 <= q < |nodes| ensures mid2[q] == Midway(nodes, p, scope, k + 1, q) {
      ShapeDescendant(nodes, mid1, q, c);
      if Below(nodes, q, c) {
        MidwayBelow(nodes, p, scope, k, c, q);
        ExpectedBelow(nodes, mid1, p, scope, c, q);
      } else if q == c {
        MidwaySelf(nodes, p, scope, k, c);
      } else {
        MidwayOther(nodes, p, scope, k, c, q);
      }
    }
  }

  /** Before its turn, the `k`-th child is marked if it defines an alias and
      untouched otherwise. */
  lemma MidwayBefore(nodes: seq<Node>, p: nat, scope: map<string, string>, k: nat, c: nat)
    requires WellFormed(nodes) && p < |nodes| && k < |nodes[p].children| && c == nodes[p].children[k]
    ensures c < |nodes|
    ensures Midway(nodes, p, scope, k, c) == if IsAliasTag(nodes[c].tag) then Touch(nodes[c], LevelScope(nodes, p, scope)) else nodes[c]
  {
    var cs := nodes[p].children;
    assert c in cs;
    assert c !in cs[..k] by {
      assert Increasing(cs);
      forall i | 0 <= i < k ensures cs[..k][i] < c {
        assert Ordered(cs, i, k);
      }
    }
    ChildBelow(nodes, p, p, c);
    assert ScopeFrom(nodes, p, scope, nodes[c].parent) == LevelScope(nodes, p, scope);
  }

  /** Below the root, the pass leaves the registry alone and logs the same
      whatever the registry holds. */
  lemma LogOfBelowRoot(nodes: seq<Node>, x: nat, scope: map<string, string>, global: map<string, string>)
    requires WellFormed(nodes) && x < |nodes|
    ensures LevelPass(nodes, x, scope, global, false).global == global
    ensures LogOf(nodes, x, scope, false, global) == LogOf(nodes, x, scope, false, map[])
  {
    ChildrenInRange(nodes, x);
    AliasPassScope(nodes, AliasChildren(nodes, nodes[x].children), scope, global, false);
  }

  /** The log of the first `k + 1` children: that of the first `k`, then
      that of the `k`-th. */
  lemma ChildrenLogSnoc(nodes: seq<Node>, p: nat, k: nat, level: map<string, string>)
    requires WellFormed(nodes) && p < |nodes| && k < |nodes[p].children|
    ensures (ChildrenInRange(nodes, p);
      ChildrenLog(nodes, p, nodes[p].children[..k + 1], level)
      == ChildrenLog(nodes, p, nodes[p].children[..k], level) + ChildLog(nodes, nodes[p].children[k], level))
  {
    ChildrenInRange(nodes, p);
    var cs := nodes[p].children;
    assert cs[..k + 1][..k] == cs[..k];
  }

  /** What the subtree of `c` logs is not affected by changes above it. */
  lemma SubtreeLog(nodes: seq<Node>, mid: seq<Node>, c: nat, level: map<string, string>, global: map<string, string>)
    requires WellFormed(nodes) && c < |nodes| && AgreeBelow(nodes, mid, c)
    ensures WellFormed(mid)
    ensures LevelPass(mid, c, level, global, false).global == global
    ensures LogOf(mid, c, level, false, global) == LogOf(nodes, c, level, false, map[])
  {
    ShapeWellFormed(nodes, mid);
    LogOfBelowRoot(mid, c, level, global);
    LogOfFrame(nodes, mid, c, c, level);
  }

  /** The arena with the definitions `defs` marked unique. */
  function Marked(nodes: seq<Node>, defs: seq<nat>): (r: seq<Node>)
    requires forall i :: 0 <= i < |defs| ==> defs[i] < |nodes|
    ensures |r| == |nodes|
    ensures forall q :: 0 <= q < |nodes| ==> r[q] == if q in defs then nodes[q].(unique := true) else nodes[q]
    decreases |defs|
  {
    if defs == [] then nodes
    else
      var init := defs[..|defs| - 1];
      var last := defs[|defs| - 1];
      assert forall q :: q in defs <==> q in init || q == last by {
        assert defs == init + [last];
      }
      var m := Marked(nodes, init);
      m[last := m[last].(unique := true)]
  }

  /** One more definition processed. */
  lemma AliasPassSnoc(nodes: seq<Node>, defs: seq<nat>, j: nat, scope: map<string, string>, global: map<string, string>, isRoot: bool)
    requires j < |defs| && forall i :: 0 <= i < |defs| ==> defs[i] < |nodes|
    ensures AliasPass(nodes, defs[..j + 1], scope, global, isRoot) == DefineAlias(nodes[defs[j]], AliasPass(nodes, defs[..j], scope, global, isRoot), isRoot)
    ensures Marked(nodes, defs[..j + 1]) == Marked(nodes, defs[..j])[defs[j] := Marked(nodes, defs[..j])[defs[j]].(unique := true)]
  {
    assert defs[..j + 1][..j] == defs[..j];
  }

  /** No node of the tree defines an alias. */
  predicate NoDefinitions(nodes: seq<Node>) {
    forall i :: 0 <= i < |nodes| ==> !IsAliasTag(nodes[i].tag)
  }

  lemma {:induction false} NoAliasChildren(nodes: seq<Node>, cs: seq<nat>)
    requires NoDefinitions(nodes) && forall i :: 0 <= i < |cs| ==> cs[i] < |nodes|
    ensures AliasChildren(nodes, cs) == []
    decreases |cs|
  {
    if cs != [] {
      NoAliasChildren(nodes, cs[..|cs| - 1]);
    }
  }

  /** Without definitions a level registers nothing and logs nothing. */
  lemma QuietLevel(nodes: seq<Node>, x: nat, global: map<string, string>, isRoot: bool)
    requires WellFormed(nodes) && x < |nodes| && NoDefinitions(nodes)
    ensures LevelPass(nodes, x, map[], global, isRoot) == Pass(map[], global, [])
  {
    ChildrenInRange(nodes, x);
    NoAliasChildren(nodes, nodes[x].children);
  }

  /** Without definitions every scope below `p` stays empty. */
  lemma {:induction false} EmptyScopes(nodes: seq<Node>, p: nat, a: nat)
    requires WellFormed(nodes) && p < |nodes| && a < |nodes| && IsDescendant(nodes, a, p) && NoDefinitions(nodes)
    ensures ScopeFrom(nodes, p, map[], a) == map[]
    decreases a
  {
    QuietLevel(nodes, a, map[], false);
    if a != p {
      EmptyScopes(nodes, p, nodes[a].parent);
    }
  }

  lemma {:induction false} QuietLog(nodes: seq<Node>, x: nat, isRoot: bool, global: map<string, string>)
    requires WellFormed(nodes) && x < |nodes| && NoDefinitions(nodes)
    ensures LogOf(nodes, x, map[], isRoot, global) == []
    decreases |nodes| - x, 1
  {
    QuietLevel(nodes, x, global, isRoot);
    ChildrenInRange(nodes, x);
    QuietChildren(nodes, x, nodes[x].children);
  }

  lemma {:induction false} QuietChildren(nodes: seq<Node>, p: nat, cs: seq<nat>)
    requires WellFormed(nodes) && p < |nodes| && NoDefinitions(nodes)
    requires forall i :: 0 <= i < |cs| ==> p < cs[i] < |nodes|
    ensures ChildrenLog(nodes, p, cs, map[]) == []
    decreases |nodes| - p, 0, |cs|
  {
    if cs != [] {
      QuietChildren(nodes, p, cs[..|cs| - 1]);
      QuietLog(nodes, cs[|cs| - 1], false, map[]);
    }
  }

  /** A tree without alias definitions comes out of the pass unchanged,
      the registry keeps what it had, and nothing is logged. */
  lemma NoDefinitionsNoChange(nodes: seq<Node>, p: nat, global: map<string, string>)
    requires WellFormed(nodes) && p < |nodes| && NoDefinitions(nodes)
    ensures Resolved(nodes, p, map[]) == nodes
    ensures LevelPass(nodes, p, map[], global, true).global == global
    ensures LogOf(nodes, p, map[], true, global) == []
  {
    forall q | 0 <= q < |nodes| && Below(nodes, q, p)
      ensures Expected(nodes, p, map[], q) == nodes[q]
    {
      EmptyScopes(nodes, p, nodes[q].parent);
    }
    QuietLevel(nodes, p, global, true);
    QuietLog(nodes, p, true, global);
  }

  /** The first loop of `resolveVariablesRecursive`: the definitions `defs`
      are registered in order into a copy of `parentAliases` (and, at the
      root, into the registry) and each is marked unique. */
  method DefineAliases(doc: Document, defs: seq<nat>, parentAliases: map<string, string>, isRoot: bool)
    returns (aliases: map<string, string>, log: seq<Diagnostic>)
    requires forall i :: 0 <= i < |defs| ==> defs[i] < |doc.nodes|
    modifies doc
    ensures doc.nodes == Marked(old(doc.nodes), defs)
    ensures Pass(aliases, doc.globalAliases, log) == AliasPass(old(doc.nodes), defs, parentAliases, old(doc.globalAliases), isRoot)
  {
    ghost var nodes := doc.nodes;
    ghost var global := doc.globalAliases;
    aliases := parentAliases;
    log := [];
    var j := 0;
    while j < |defs|
      invariant j <= |defs|
      invariant doc.nodes == Marked(nodes, defs[..j])
      invariant Pass(aliases, doc.globalAliases, log) == AliasPass(nodes, defs[..j], parentAliases, global, isRoot)
    {
      AliasPassSnoc(nodes, defs, j, parentAliases, global, isRoot);
      aliases, log := DefineOne(doc, defs[j], aliases, log, isRoot);
      j := j + 1;
    }
    assert defs[..|defs|] == defs;
  }

  /** The body of the first loop for the definition `a`. */
  method DefineOne(doc: Document, a: nat, aliases: map<string, string>, log: seq<Diagnostic>, isRoot: bool)
    returns (aliases': map<string, string>, log': seq<Diagnostic>)
    requires a < |doc.nodes|
    modifies doc
    ensures doc.nodes == old(doc.nodes)[a := old(doc.nodes)[a].(unique := true)]
    ensures Pass(aliases', doc.globalAliases, log') == DefineAlias(old(doc.nodes)[a], Pass(aliases, old(doc.globalAliases), log), isRoot)
  {
    aliases', log' := aliases, log;
    ghost var st := Pass(aliases, doc.globalAliases, log);
    var b := ClassifyDefinition(doc.nodes[a].tag, doc.nodes[a].value, aliases);
    assert DefineAlias(doc.nodes[a], st, isRoot) == Apply(b, st, isRoot);
    match b {
      case Nameless(tag) =>
        log' := log' + [Malformed(tag)];
      case Dropped(lookup) =>
        log' := log' + lookup;
      case Bound(name, value) =>
        aliases' := aliases'[name := value];
        if isRoot {
          if name in doc.globalAliases {
            log' := log' + [Overriding(name)];
          }
          doc.globalAliases := doc.globalAliases[name := value];
        }
    }
    assert Pass(aliases', doc.globalAliases, log') == Apply(b, st, isRoot);
    doc.nodes := doc.nodes[a := doc.nodes[a].(unique := true)];
  }

  /** The name and value of a definition, resolved against the scope: an
      empty name, a reference that does not resolve, or a binding. */
  method ClassifyDefinition(tag: string, value: string, aliases: map<string, string>) returns (b: Binding)
    ensures b == Classify(tag, value, aliases)
  {
    var name := NormalizeAliasName(tag);
    if name == "" {
      return Nameless(tag);
    }
    var normalized := NormalizeValue(value);
    var res := ResolveAliasValue(normalized, aliases);
    if res.referenced && res.resolved.None? {
      return Dropped(res.log);
    }
    if res.referenced {
      normalized := res.resolved.value;
    }
    return Bound(name, normalized);
  }

  /** The second loop's treatment of child `c` before the pass descends
      into it: a child that defines no alias has its reference looked up in
      the level's scope, and replaced when it resolves. */
  method RewriteChild(doc: Document, c: nat, aliases: map<string, string>) returns (lookup: seq<Diagnostic>)
    requires c < |doc.nodes|
    modifies doc
    ensures doc.globalAliases == old(doc.globalAliases)
    ensures doc.nodes == old(doc.nodes)[c := if IsAliasTag(old(doc.nodes)[c].tag) then old(doc.nodes)[c] else Rewrite(old(doc.nodes)[c], aliases)]
    ensures lookup == if IsAliasTag(old(doc.nodes)[c].tag) then [] else ResolveAliasValue(old(doc.nodes)[c].value, aliases).log
  {
    lookup := [];
    var child := doc.nodes[c];
    if !IsAliasTag(child.tag) {
      var res := ResolveAliasValue(child.value, aliases);
      lookup := res.log;
      if res.referenced && res.resolved.Some? {
        doc.nodes := doc.nodes[c := child.(value := NormalizeValue(res.resolved.value))];
      }
    }
  }

  /** The alias pass at `p` with the scope `parentAliases` inherited from
      above: the level's definitions are registered (and, at the root,
      entered in the document's registry), every node below `p` is touched
      with the scope of its parent's level, and the diagnostics come out in
      the order `LogOf` gives. */
  method ResolveVariablesRecursive(doc: Document, p: nat, parentAliases: map<string, string>, isRoot: bool) returns (log: seq<Diagnostic>)
    requires WellFormed(doc.nodes) && p < |doc.nodes|
    modifies doc
    ensures |doc.nodes| == |old(doc.nodes)|
    ensures doc.nodes == Resolved(old(doc.nodes), p, parentAliases)
    ensures doc.globalAliases == LevelPass(old(doc.nodes), p, parentAliases, old(doc.globalAliases), isRoot).global
    ensures log == LogOf(old(doc.nodes), p, parentAliases, isRoot, old(doc.globalAliases))
    decreases |doc.nodes| - p, 1
  {
    ghost var nodes := doc.nodes;
    ghost var global := doc.globalAliases;
    var defs := CollectDefinitions(doc, p);
    var aliases, defined := DefineAliases(doc, defs, parentAliases, isRoot);
    LevelStart(nodes, p, parentAliases, global, isRoot, defs, aliases, doc.globalAliases, defined, doc.nodes);
    var rest := ResolveChildren(doc, p, aliases, nodes, parentAliases);
    log := defined + rest;
  }

  /** The alias definitions among the children of `p`, in order. */
  method CollectDefinitions(doc: Document, p: nat) returns (defs: seq<nat>)
    requires WellFormed(doc.nodes) && p < |doc.nodes|
    ensures (ChildrenInRange(doc.nodes, p); defs == AliasChildren(doc.nodes, doc.nodes[p].children))
  {
    ChildrenInRange(doc.nodes, p);
    var cs := doc.nodes[p].children;
    defs := [];
    var i := 0;
    while i < |cs|
      invariant i <= |cs|
      invariant defs == AliasChildren(doc.nodes, cs[..i])
    {
      assert cs[..i + 1][..i] == cs[..i];
      if IsAliasTag(doc.nodes[cs[i]].tag) {
        defs := defs + [cs[i]];
      }
      i := i + 1;
    }
    assert cs[..|cs|] == cs;
  }

  /** Once the definitions are registered, the scope is the level's and the
      second loop can start. */
  lemma LevelStart(nodes: seq<Node>, p: nat, parentAliases: map<string, string>, global: map<string, string>, isRoot: bool,
                   defs: seq<nat>, aliases: map<string, string>, global': map<string, string>, log: seq<Diagnostic>, marked: seq<Node>)
    requires WellFormed(nodes) && p < |nodes|
    requires (ChildrenInRange(nodes, p); defs == AliasChildren(nodes, nodes[p].children))
    requires Pass(aliases, global', log) == AliasPass(nodes, defs, parentAliases, global, isRoot)
    requires marked == Marked(nodes, defs)
    ensures Pass(aliases, global', log) == LevelPass(nodes, p, parentAliases, global, isRoot)
    ensures aliases == LevelScope(nodes, p, parentAliases)
    ensures marked == Partial(nodes, p, parentAliases, 0)
  {
    AliasPassScope(nodes, defs, parentAliases, global, isRoot);
    DefinitionsMarked(nodes, p, parentAliases, defs, marked);
  }

  /** The second loop of `resolveVariablesRecursive`, over the children of
      `p` with the level's scope `aliases`. */
  method ResolveChildren(doc: Document, p: nat, aliases: map<string, string>, ghost nodes: seq<Node>, ghost parentAliases: map<string, string>)
    returns (log: seq<Diagnostic>)
    requires WellFormed(nodes) && p < |nodes|
    requires aliases == LevelScope(nodes, p, parentAliases)
    requires doc.nodes == Partial(nodes, p, parentAliases, 0)
    modifies doc
    ensures doc.nodes == Resolved(nodes, p, parentAliases)
    ensures doc.globalAliases == old(doc.globalAliases)
    ensures (ChildrenInRange(nodes, p); log == ChildrenLog(nodes, p, nodes[p].children, aliases))
    decreases |doc.nodes| - p, 0
  {
    ChildrenInRange(nodes, p);
    assert doc.nodes[p] == nodes[p];
    var cs := doc.nodes[p].children;
    log := [];
    var k := 0;
    while k < |cs|
      invariant k <= |cs|
      invariant doc.nodes == Partial(nodes, p, parentAliases, k)
      invariant doc.globalAliases == old(doc.globalAliases)
      invariant log == ChildrenLog(nodes, p, cs[..k], aliases)
    {
      var entry := ResolveChild(doc, cs[k], aliases, nodes, p, parentAliases, k);
      ChildrenLogSnoc(nodes, p, k, aliases);
      log := log + entry;
      k := k + 1;
    }
    ChildrenDone(nodes, p, parentAliases);
    assert cs[..|cs|] == cs;
  }

  /** The body of the second loop for the `k`-th child `c` of `p`: a child
      that defines no alias has its reference looked up in the level's
      scope `aliases`, and replaced when it resolves; then the pass descends
      into the child. */
  method ResolveChild(doc: Document, c: nat, aliases: map<string, string>, ghost nodes: seq<Node>, ghost p: nat, ghost parentAliases: map<string, string>, ghost k: nat)
    returns (entry: seq<Diagnostic>)
    requires WellFormed(nodes) && p < |nodes| && k < |nodes[p].children| && c == nodes[p].children[k]
    requires aliases == LevelScope(nodes, p, parentAliases)
    requires doc.nodes == Partial(nodes, p, parentAliases, k)
    modifies doc
    ensures doc.nodes == Partial(nodes, p, parentAliases, k + 1)
    ensures doc.globalAliases == old(doc.globalAliases)
    ensures c < |nodes| && entry == ChildLog(nodes, c, aliases)
    decreases |doc.nodes| - c, 2
  {
    ChildrenInRange(nodes, p);
    ghost var mid0 := doc.nodes;
    var lookup := RewriteChild(doc, c, aliases);
    ghost var mid1 := doc.nodes;
    TurnStart(nodes, p, parentAliases, k, c, mid0, mid1);
    MidwayShape(nodes, p, parentAliases, k, mid0);
    ShapeUpdate(nodes, mid0, c, Touch(nodes[c], aliases));
    UntouchedBelow(nodes, p, parentAliases, k, c, aliases, mid0, mid1);
    AgreeBelowUntouched(nodes, mid1, c);
    SubtreeLog(nodes, mid1, c, aliases, doc.globalAliases);
    var sub := ResolveVariablesRecursive(doc, c, aliases, false);
    ChildStep(nodes, p, parentAliases, k, c, aliases, mid0, mid1, doc.nodes);
    entry := lookup + sub;
  }
}
