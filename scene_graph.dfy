/** The scene hierarchy as pure values: nodes in an arena keyed by entity,
    subtrees, and the world matrices a top-down propagation computes. */
module SceneGraph {
  import opened Wrappers
  import opened Entities
  import opened XMath
  import Transforms

  /** `Scene::SceneNode`: the `shared_ptr`/`weak_ptr` links are entity keys
      into the arena. */
  datatype Node = Node(entity: EntityId, children: seq<EntityId>, parent: Option<EntityId>, local: Mat, world: Mat)

  type Nodes = map<EntityId, Node>

  /** Child lists of every node. */
  type Kids = map<EntityId, seq<EntityId>>

  ghost function Children(nodes: Nodes): (kids: Kids)
    ensures kids.Keys == nodes.Keys
  {
    map e | e in nodes :: nodes[e].children
  }

  ghost function Locals(nodes: Nodes): (locals: map<EntityId, Mat>)
    ensures locals.Keys == nodes.Keys
  {
    map e | e in nodes :: nodes[e].local
  }

  /** The links agree: every node records its own key, a node's parent lists
      it as a child, every listed child is live and names that parent, and no
      child is listed twice. */
  ghost predicate Linked(nodes: Nodes) {
    && (forall e :: e in nodes ==> nodes[e].entity == e)
    && (forall e :: e in nodes && nodes[e].parent.Some? ==>
          nodes[e].parent.value in nodes && e in nodes[nodes[e].parent.value].children)
    && (forall p, i :: p in nodes && 0 <= i < |nodes[p].children| ==>
          nodes[p].children[i] in nodes && nodes[nodes[p].children[i]].parent == Some(p))
    && (forall p, i, j :: p in nodes && 0 <= i < j < |nodes[p].children| ==>
          nodes[p].children[i] != nodes[p].children[j])
  }

  /** A rank that strictly decreases from parent to child; it exists exactly
      when the child lists have no cycle. */
  ghost predicate RankedBy(kids: Kids, rank: map<EntityId, nat>) {
    forall e :: e in kids ==> e in rank && forall i :: 0 <= i < |kids[e]| ==>
      kids[e][i] in kids && kids[e][i] in rank && rank[kids[e][i]] < rank[e]
  }

  ghost predicate ChildrenOf(kids: Kids, rank: map<EntityId, nat>, cs: seq<EntityId>, bound: EntityId) {
    && RankedBy(kids, rank) && bound in rank
    && forall c :: c in cs ==> c in kids && rank[c] < rank[bound]
  }

  /** The node `n` and all its descendants. */
  ghost function Sub(kids: Kids, rank: map<EntityId, nat>, n: EntityId): set<EntityId>
    requires RankedBy(kids, rank) && n in kids
    decreases rank[n], 1, 0
  {
    {n} + SubOf(kids, rank, kids[n], n)
  }

  /** The subtrees of the nodes in `cs`, all ranked below `bound`. */
  ghost function SubOf(kids: Kids, rank: map<EntityId, nat>, cs: seq<EntityId>, bound: EntityId): set<EntityId>
    requires ChildrenOf(kids, rank, cs, bound)
    decreases rank[bound], 0, |cs|
  {
    if cs == [] then {}
    else SubOf(kids, rank, cs[..|cs| - 1], bound) + Sub(kids, rank, cs[|cs| - 1])
  }

  lemma ChildrenOfPrefix(kids: Kids, rank: map<EntityId, nat>, cs: seq<EntityId>, bound: EntityId, k: nat)
    requires ChildrenOf(kids, rank, cs, bound) && k <= |cs|
    ensures ChildrenOf(kids, rank, cs[..k], bound)
  {
    forall c | c in cs[..k] ensures c in cs {
      var i :| 0 <= i < k && cs[..k][i] == c;
      assert cs[i] == c;
    }
  }

  lemma ChildrenOfNode(kids: Kids, rank: map<EntityId, nat>, n: EntityId)
    requires RankedBy(kids, rank) && n in kids
    ensures ChildrenOf(kids, rank, kids[n], n)
  {
  }

  /** Every member of a subtree is live and ranked no higher than its top. */
  lemma {:induction false} SubBound(kids: Kids, rank: map<EntityId, nat>, n: EntityId, x: EntityId)
    requires RankedBy(kids, rank) && n in kids && x in Sub(kids, rank, n)
    ensures x in kids && rank[x] <= rank[n]
    decreases rank[n], 1, 0
  {
    if x != n {
      SubOfBound(kids, rank, kids[n], n, x);
    }
  }

  lemma {:induction false} SubOfBound(kids: Kids, rank: map<EntityId, nat>, cs: seq<EntityId>, bound: EntityId, x: EntityId)
    requires ChildrenOf(kids, rank, cs, bound) && x in SubOf(kids, rank, cs, bound)
    ensures x in kids && rank[x] < rank[bound]
    decreases rank[bound], 0, |cs|
  {
    var k := |cs| - 1;
    ChildrenOfPrefix(kids, rank, cs, bound, k);
    if x in SubOf(kids, rank, cs[..k], bound) {
      SubOfBound(kids, rank, cs[..k], bound, x);
    } else {
      SubBound(kids, rank, cs[k], x);
    }
  }

  /** Each listed subtree is part of the union. */
  lemma {:induction false} SubOfContains(kids: Kids, rank: map<EntityId, nat>, cs: seq<EntityId>, bound: EntityId, i: nat)
    requires ChildrenOf(kids, rank, cs, bound) && i < |cs|
    ensures Sub(kids, rank, cs[i]) <= SubOf(kids, rank, cs, bound)
    decreases |cs|
  {
    var k := |cs| - 1;
    ChildrenOfPrefix(kids, rank, cs, bound, k);
    if i < k {
      SubOfContains(kids, rank, cs[..k], bound, i);
    }
  }

  /** A member of the union lies in one listed subtree. */
  lemma {:induction false} SubOfWitness(kids: Kids, rank: map<EntityId, nat>, cs: seq<EntityId>, bound: EntityId, x: EntityId)
    returns (i: nat)
    requires ChildrenOf(kids, rank, cs, bound) && x in SubOf(kids, rank, cs, bound)
    ensures i < |cs| && x in Sub(kids, rank, cs[i])
    decreases |cs|
  {
    var k := |cs| - 1;
    ChildrenOfPrefix(kids, rank, cs, bound, k);
    if x in SubOf(kids, rank, cs[..k], bound) {
      i := SubOfWitness(kids, rank, cs[..k], bound, x);
    } else {
      i := k;
    }
  }

  /** A subtree contains the subtree of each of its members. */
  lemma {:induction false} SubNested(kids: Kids, rank: map<EntityId, nat>, n: EntityId, x: EntityId)
    requires RankedBy(kids, rank) && n in kids && x in Sub(kids, rank, n)
    ensures x in kids && Sub(kids, rank, x) <= Sub(kids, rank, n)
    decreases rank[n]
  {
    SubBound(kids, rank, n, x);
    if x != n {
      ChildrenOfNode(kids, rank, n);
      var i := SubOfWitness(kids, rank, kids[n], n, x);
      SubNested(kids, rank, kids[n][i], x);
      SubOfContains(kids, rank, kids[n], n, i);
    }
  }

  /** A subtree is closed under taking children. */
  lemma SubClosed(kids: Kids, rank: map<EntityId, nat>, n: EntityId, x: EntityId, i: nat)
    requires RankedBy(kids, rank) && n in kids && x in Sub(kids, rank, n)
    requires x in kids && i < |kids[x]|
    ensures kids[x][i] in Sub(kids, rank, n)
  {
    SubNested(kids, rank, n, x);
    ChildrenOfNode(kids, rank, x);
    SubOfContains(kids, rank, kids[x], x, i);
  }

  /** Every member of a subtree other than its top is listed as a child of
      some member. */
  lemma {:induction false} SubParent(kids: Kids, rank: map<EntityId, nat>, n: EntityId, x: EntityId)
    returns (p: EntityId, j: nat)
    requires RankedBy(kids, rank) && n in kids && x in Sub(kids, rank, n) && x != n
    ensures p in Sub(kids, rank, n) && p in kids && j < |kids[p]| && kids[p][j] == x
    decreases rank[n]
  {
    ChildrenOfNode(kids, rank, n);
    var i := SubOfWitness(kids, rank, kids[n], n, x);
    var c := kids[n][i];
    if x == c {
      p, j := n, i;
    } else {
      p, j := SubParent(kids, rank, c, x);
      SubNested(kids, rank, n, c) by {
        SubOfContains(kids, rank, kids[n], n, i);
      }
    }
  }

  /** No node is listed twice, in one list or in two. */
  ghost predicate UniqueParents(kids: Kids) {
    forall p, q, i, j :: p in kids && q in kids && 0 <= i < |kids[p]| && 0 <= j < |kids[q]| && kids[p][i] == kids[q][j] ==>
      p == q && i == j
  }

  lemma LinkedUnique(nodes: Nodes)
    requires Linked(nodes)
    ensures UniqueParents(Children(nodes))
  {
    var kids := Children(nodes);
    forall p, q, i, j | p in kids && q in kids && 0 <= i < |kids[p]| && 0 <= j < |kids[q]| && kids[p][i] == kids[q][j]
      ensures p == q && i == j
    {
      assert nodes[nodes[p].children[i]].parent == Some(p);
      assert nodes[nodes[q].children[j]].parent == Some(q);
    }
  }

  /** The subtrees below two different children of one node are disjoint. */
  lemma {:induction false} SiblingsDisjoint(kids: Kids, rank: map<EntityId, nat>, p: EntityId, a: nat, b: nat, x: EntityId)
    requires RankedBy(kids, rank) && UniqueParents(kids) && p in kids
    requires a < |kids[p]| && b < |kids[p]| && a != b
    requires x in Sub(kids, rank, kids[p][a])
    ensures x !in Sub(kids, rank, kids[p][b])
    decreases if x in rank && rank[x] <= rank[kids[p][a]] then rank[kids[p][a]] - rank[x] else 0
  {
    var ca, cb := kids[p][a], kids[p][b];
    SubBound(kids, rank, ca, x);
    if x in Sub(kids, rank, cb) {
      SubBound(kids, rank, cb, x);
      if x == ca {
        var q, j := SubParent(kids, rank, cb, x);
        SubBound(kids, rank, cb, q);
      } else if x == cb {
        var q, j := SubParent(kids, rank, ca, x);
        SubBound(kids, rank, ca, q);
      } else {
        var q1, j1 := SubParent(kids, rank, ca, x);
        var q2, j2 := SubParent(kids, rank, cb, x);
        SubBound(kids, rank, ca, q1);
        SiblingsDisjoint(kids, rank, p, a, b, q1);
      }
    }
  }

  /** A subtree depends only on the child lists of its own members. */
  lemma {:induction false} SubLocal(a: Kids, ra: map<EntityId, nat>, b: Kids, rb: map<EntityId, nat>, n: EntityId)
    requires RankedBy(a, ra) && RankedBy(b, rb) && n in a
    requires forall x :: x in Sub(a, ra, n) ==> x in a && x in b && b[x] == a[x]
    ensures n in b && Sub(b, rb, n) == Sub(a, ra, n)
    decreases ra[n], 1, 0
  {
    ChildrenOfNode(a, ra, n);
    ChildrenOfNode(b, rb, n);
    SubOfLocal(a, ra, b, rb, a[n], n);
  }

  lemma {:induction false} SubOfLocal(a: Kids, ra: map<EntityId, nat>, b: Kids, rb: map<EntityId, nat>, cs: seq<EntityId>, bound: EntityId)
    requires ChildrenOf(a, ra, cs, bound) && RankedBy(b, rb) && forall c :: c in cs ==> c in b
    requires forall x :: x in SubOf(a, ra, cs, bound) ==> x in a && x in b && b[x] == a[x]
    ensures ChildrenOf(b, rb, cs, bound) ==> SubOf(b, rb, cs, bound) == SubOf(a, ra, cs, bound)
    decreases ra[bound], 0, |cs|
  {
    if cs != [] && ChildrenOf(b, rb, cs, bound) {
      var k := |cs| - 1;
      ChildrenOfPrefix(a, ra, cs, bound, k);
      ChildrenOfPrefix(b, rb, cs, bound, k);
      SubOfLocal(a, ra, b, rb, cs[..k], bound);
      SubLocal(a, ra, b, rb, cs[k]);
    }
  }

  /** The worlds `UpdateWorldTransforms(n, parentWorld)` assigns: each node's
      world is its parent's world times its own local transform. */
  ghost function Worlds(kids: Kids, locals: map<EntityId, Mat>, rank: map<EntityId, nat>, n: EntityId, parentWorld: Mat): map<EntityId, Mat>
    requires RankedBy(kids, rank) && n in kids && kids.Keys <= locals.Keys
    decreases rank[n], 1, 0
  {
    var w := Mul(parentWorld, locals[n]);
    map[n := w] + WorldsOf(kids, locals, rank, kids[n], n, w)
  }

  ghost function WorldsOf(kids: Kids, locals: map<EntityId, Mat>, rank: map<EntityId, nat>, cs: seq<EntityId>, bound: EntityId, w: Mat): map<EntityId, Mat>
    requires ChildrenOf(kids, rank, cs, bound) && kids.Keys <= locals.Keys
    decreases rank[bound], 0, |cs|
  {
    if cs == [] then map[]
    else WorldsOf(kids, locals, rank, cs[..|cs| - 1], bound, w) + Worlds(kids, locals, rank, cs[|cs| - 1], w)
  }

  /** The propagation reaches exactly the subtree. */
  lemma {:induction false} WorldsKeys(kids: Kids, locals: map<EntityId, Mat>, rank: map<EntityId, nat>, n: EntityId, parentWorld: Mat)
    requires RankedBy(kids, rank) && n in kids && kids.Keys <= locals.Keys
    ensures Worlds(kids, locals, rank, n, parentWorld).Keys == Sub(kids, rank, n)
    decreases rank[n], 1, 0
  {
    ChildrenOfNode(kids, rank, n);
    WorldsOfKeys(kids, locals, rank, kids[n], n, Mul(parentWorld, locals[n]));
  }

  lemma {:induction false} WorldsOfKeys(kids: Kids, locals: map<EntityId, Mat>, rank: map<EntityId, nat>, cs: seq<EntityId>, bound: EntityId, w: Mat)
    requires ChildrenOf(kids, rank, cs, bound) && kids.Keys <= locals.Keys
    ensures WorldsOf(kids, locals, rank, cs, bound, w).Keys == SubOf(kids, rank, cs, bound)
    decreases rank[bound], 0, |cs|
  {
    if cs != [] {
      var k := |cs| - 1;
      ChildrenOfPrefix(kids, rank, cs, bound, k);
      WorldsOfKeys(kids, locals, rank, cs[..k], bound, w);
      WorldsKeys(kids, locals, rank, cs[k], w);
    }
  }

  /** The top of the subtree gets `parentWorld * local`. */
  lemma WorldsAtTop(kids: Kids, locals: map<EntityId, Mat>, rank: map<EntityId, nat>, n: EntityId, parentWorld: Mat)
    requires RankedBy(kids, rank) && n in kids && kids.Keys <= locals.Keys
    ensures n in Worlds(kids, locals, rank, n, parentWorld)
    ensures Worlds(kids, locals, rank, n, parentWorld)[n] == Mul(parentWorld, locals[n])
  {
    var w := Mul(parentWorld, locals[n]);
    ChildrenOfNode(kids, rank, n);
    WorldsOfKeys(kids, locals, rank, kids[n], n, w);
    if n in SubOf(kids, rank, kids[n], n) {
      SubOfBound(kids, rank, kids[n], n, n);
    }
  }

  /** Sibling subtrees do not overwrite each other's worlds. */
  lemma {:induction false} WorldsOfRestrict(kids: Kids, locals: map<EntityId, Mat>, rank: map<EntityId, nat>, cs: seq<EntityId>, bound: EntityId, w: Mat, i: nat, y: EntityId)
    requires RankedBy(kids, rank) && UniqueParents(kids) && kids.Keys <= locals.Keys
    requires bound in kids && |cs| <= |kids[bound]| && cs == kids[bound][..|cs|]
    requires i < |cs| && cs[i] in kids && y in Sub(kids, rank, cs[i])
    ensures ChildrenOf(kids, rank, cs, bound)
    ensures y in WorldsOf(kids, locals, rank, cs, bound, w) && y in Worlds(kids, locals, rank, cs[i], w)
    ensures WorldsOf(kids, locals, rank, cs, bound, w)[y] == Worlds(kids, locals, rank, cs[i], w)[y]
    decreases |cs|
  {
    ChildrenOfNode(kids, rank, bound);
    ChildrenOfPrefix(kids, rank, kids[bound], bound, |cs|);
    var k := |cs| - 1;
    ChildrenOfPrefix(kids, rank, cs, bound, k);
    assert WorldsOf(kids, locals, rank, cs, bound, w) == WorldsOf(kids, locals, rank, cs[..k], bound, w) + Worlds(kids, locals, rank, cs[k], w);
    hide WorldsOf, Worlds;
    WorldsKeys(kids, locals, rank, cs[i], w);
    WorldsKeys(kids, locals, rank, cs[k], w);
    if i < k {
      SiblingsDisjoint(kids, rank, bound, i, k, y);
      assert cs[..k] == kids[bound][..k] && cs[..k][i] == cs[i];
      WorldsOfRestrict(kids, locals, rank, cs[..k], bound, w, i, y);
    }
  }

  /** After propagation every child's world is its parent's world times the
      child's local transform. */
  lemma {:induction false} WorldsPropagate(kids: Kids, locals: map<EntityId, Mat>, rank: map<EntityId, nat>, n: EntityId, parentWorld: Mat, p: EntityId, j: nat)
    requires RankedBy(kids, rank) && UniqueParents(kids) && n in kids && kids.Keys <= locals.Keys
    requires p in Sub(kids, rank, n) && p in kids && j < |kids[p]|
    ensures var worlds := Worlds(kids, locals, rank, n, parentWorld);
      && p in worlds && kids[p][j] in worlds
      && worlds[kids[p][j]] == Mul(worlds[p], locals[kids[p][j]])
    decreases rank[n]
  {
    var w := Mul(parentWorld, locals[n]);
    var worlds := Worlds(kids, locals, rank, n, parentWorld);
    var cs := kids[n];
    ChildrenOfNode(kids, rank, n);
    WorldsAtTop(kids, locals, rank, n, parentWorld);
    assert cs[..|cs|] == cs;
    var c := kids[p][j];
    if p == n {
      WorldsOfRestrict(kids, locals, rank, cs, n, w, j, c);
      WorldsAtTop(kids, locals, rank, c, w);
    } else {
      var i := SubOfWitness(kids, rank, cs, n, p);
      var k := cs[i];
      SubClosed(kids, rank, k, p, j);
      SubBound(kids, rank, k, p);
      SubBound(kids, rank, k, c);
      WorldsPropagate(kids, locals, rank, k, w, p, j);
      WorldsOfRestrict(kids, locals, rank, cs, n, w, i, p);
      WorldsOfRestrict(kids, locals, rank, cs, n, w, i, c);
    }
  }

  /** The arena with the given worlds written over the cached ones. */
  ghost function WithWorlds(nodes: Nodes, worlds: map<EntityId, Mat>): (r: Nodes)
    ensures r.Keys == nodes.Keys
    ensures Children(r) == Children(nodes) && Locals(r) == Locals(nodes)
    ensures forall e :: e in r ==> r[e].world == (if e in worlds then worlds[e] else nodes[e].world)
  {
    map e | e in nodes :: if e in worlds then nodes[e].(world := worlds[e]) else nodes[e]
  }

  /** Overwriting worlds only ever touches worlds. */
  lemma WithWorldsLinked(nodes: Nodes, worlds: map<EntityId, Mat>)
    requires Linked(nodes)
    ensures Linked(WithWorlds(nodes, worlds))
  {
    var r := WithWorlds(nodes, worlds);
    assert forall e :: e in r ==> r[e].children == nodes[e].children && r[e].parent == nodes[e].parent && r[e].entity == nodes[e].entity;
  }

  /** Two successive overwrites are one overwrite with the later map winning. */
  lemma WithWorldsTwice(nodes: Nodes, a: map<EntityId, Mat>, b: map<EntityId, Mat>)
    ensures WithWorlds(WithWorlds(nodes, a), b) == WithWorlds(nodes, a + b)
  {
  }

  /** The component store after decomposed worlds have been written into the
      transforms of the entities that have one. */
  ghost function Posed(contents: map<EntityId, Transforms.Transform>, worlds: map<EntityId, Mat>): (r: map<EntityId, Transforms.Transform>)
    ensures r.Keys == contents.Keys
  {
    map e | e in contents :: if e in worlds then contents[e].WithPose(Decompose(worlds[e])) else contents[e]
  }

  lemma PosedTwice(contents: map<EntityId, Transforms.Transform>, a: map<EntityId, Mat>, b: map<EntityId, Mat>)
    ensures Posed(Posed(contents, a), b) == Posed(contents, a + b)
  {
    forall e | e in contents && e in a && e in b
      ensures contents[e].WithPose(Decompose(a[e])).WithPose(Decompose(b[e])) == contents[e].WithPose(Decompose(b[e]))
    {
      Transforms.WithPoseOverwrites(contents[e], Decompose(a[e]), Decompose(b[e]));
    }
  }

  /** `std::erase_if(children, n->entity == e)`. */
  function Without(s: seq<EntityId>, e: EntityId): (r: seq<EntityId>)
    ensures forall x :: x in r <==> x in s && x != e
    ensures |r| <= |s|
  {
    if s == [] then []
    else if s[0] == e then Without(s[1..], e)
    else [s[0]] + Without(s[1..], e)
  }

  predicate Distinct(s: seq<EntityId>) {
    forall i, j :: 0 <= i < j < |s| ==> s[i] != s[j]
  }

  lemma {:induction false} WithoutDistinct(s: seq<EntityId>, e: EntityId)
    requires Distinct(s)
    ensures Distinct(Without(s, e))
  {
    if s != [] {
      assert Distinct(s[1..]) by {
        forall i, j | 0 <= i < j < |s[1..]| ensures s[1..][i] != s[1..][j] {
          assert s[i + 1] != s[j + 1];
        }
      }
      WithoutDistinct(s[1..], e);
      if s[0] != e {
        var r := [s[0]] + Without(s[1..], e);
        forall i, j | 0 <= i < j < |r| ensures r[i] != r[j] {
          if i == 0 {
            assert r[j] in Without(s[1..], e);
            assert s[0] !in s[1..] by {
              forall k | 0 <= k < |s[1..]| ensures s[1..][k] != s[0] {
                assert s[k + 1] != s[0];
              }
            }
          } else {
            assert r[i] == Without(s[1..], e)[i - 1] && r[j] == Without(s[1..], e)[j - 1];
          }
        }
      }
    }
  }

  /** Erasing an absent element changes nothing. */
  lemma {:induction false} WithoutAbsent(s: seq<EntityId>, e: EntityId)
    requires e !in s
    ensures Without(s, e) == s
  {
    if s != [] {
      WithoutAbsent(s[1..], e);
    }
  }

  lemma DistinctTail(s: seq<EntityId>, i: nat)
    requires Distinct(s) && i < |s|
    ensures Without(s[i..], s[i]) == s[i + 1..]
  {
    assert s[i] !in s[i + 1..] by {
      forall k | i + 1 <= k < |s| ensures s[k] != s[i] {
        assert s[i] != s[k];
      }
    }
    assert s[i..][1..] == s[i + 1..];
    WithoutAbsent(s[i + 1..], s[i]);
  }

  /** The shape a scene keeps: consistent links, no cycle, and either no
      node at all or a parentless root above every node (the root has the
      largest rank and every other node has a parent). */
  ghost predicate Tree(nodes: Nodes, rank: map<EntityId, nat>, root: Option<EntityId>) {
    && Linked(nodes)
    && RankedBy(Children(nodes), rank)
    && Rooted(nodes, rank, root)
  }

  /** Every node of a scene lies below its root. */
  lemma {:induction false} InRootTree(nodes: Nodes, rank: map<EntityId, nat>, root: EntityId, x: EntityId)
    requires Tree(nodes, rank, Some(root)) && x in nodes
    ensures x in Sub(Children(nodes), rank, root)
    decreases rank[root] - rank[x]
  {
    if x != root {
      var p := nodes[x].parent.value;
      var j :| 0 <= j < |nodes[p].children| && nodes[p].children[j] == x;
      assert Children(nodes)[p][j] == x;
      InRootTree(nodes, rank, root, p);
      SubClosed(Children(nodes), rank, root, p, j);
    }
  }

  lemma RootCovers(nodes: Nodes, rank: map<EntityId, nat>, root: EntityId)
    requires Tree(nodes, rank, Some(root))
    ensures Sub(Children(nodes), rank, root) == nodes.Keys
  {
    forall x | x in nodes ensures x in Sub(Children(nodes), rank, root) {
      InRootTree(nodes, rank, root, x);
    }
    forall x | x in Sub(Children(nodes), rank, root) ensures x in nodes {
      SubBound(Children(nodes), rank, root, x);
    }
  }

  /** A node that has a parent has no parentless node below it. */
  lemma ParentlessOutside(nodes: Nodes, rank: map<EntityId, nat>, c: EntityId, r: EntityId)
    requires Linked(nodes) && RankedBy(Children(nodes), rank) && c in nodes && r in nodes
    requires nodes[c].parent.Some? && nodes[r].parent.None?
    ensures r !in Sub(Children(nodes), rank, c)
  {
    if r in Sub(Children(nodes), rank, c) {
      var p, j := SubParent(Children(nodes), rank, c, r);
    }
  }

  /** `Scene::CreateEntity`: a new leaf with identity transforms, appended to
      the child list of `at` when there is one. */
  ghost function Placed(nodes: Nodes, entity: EntityId, at: Option<EntityId>): (r: Nodes)
    requires at.Some? ==> at.value in nodes
    ensures r.Keys == nodes.Keys + {entity}
  {
    var created := Node(entity, [], at, Identity(), Identity());
    var linked := if at.Some? then nodes[at.value := nodes[at.value].(children := nodes[at.value].children + [entity])] else nodes;
    linked[entity := created]
  }

  /** A rank for the arena after `Placed`: the new leaf at zero, the rest one
      higher. */
  ghost function Lifted(nodes: Nodes, rank: map<EntityId, nat>, entity: EntityId): (r: map<EntityId, nat>)
    ensures r.Keys == nodes.Keys + {entity}
  {
    map e | e in nodes.Keys + {entity} :: if e == entity || e !in rank then 0 else rank[e] + 1
  }

  /** `Placed` node by node. */
  lemma PlacedShape(nodes: Nodes, entity: EntityId, at: Option<EntityId>)
    requires entity !in nodes
    requires at.Some? ==> at.value in nodes
    ensures var r := Placed(nodes, entity, at);
      && r[entity] == Node(entity, [], at, Identity(), Identity())
      && (forall e :: e in nodes && (at.None? || e != at.value) ==> r[e] == nodes[e])
      && (at.Some? ==> r[at.value] == nodes[at.value].(children := nodes[at.value].children + [entity]))
  {
  }

  lemma PlacedLinked(nodes: Nodes, entity: EntityId, at: Option<EntityId>)
    requires Linked(nodes) && entity !in nodes
    requires at.Some? ==> at.value in nodes
    ensures Linked(Placed(nodes, entity, at))
  {
    var r := Placed(nodes, entity, at);
    PlacedShape(nodes, entity, at);
    hide Placed;
    forall p, i | p in r && 0 <= i < |r[p].children|
      ensures r[p].children[i] in r && r[r[p].children[i]].parent == Some(p)
    {
      if at.Some? && p == at.value && i == |nodes[p].children| {
      } else {
        assert r[p].children[i] == nodes[p].children[i];
        assert nodes[p].children[i] in nodes;
      }
    }
    forall p, i, j | p in r && 0 <= i < j < |r[p].children| ensures r[p].children[i] != r[p].children[j] {
      assert r[p].children[i] == nodes[p].children[i];
      assert nodes[p].children[i] in nodes;
      if j < |nodes[p].children| {
        assert r[p].children[j] == nodes[p].children[j];
      }
    }
  }

  lemma PlacedRanked(nodes: Nodes, rank: map<EntityId, nat>, entity: EntityId, at: Option<EntityId>)
    requires RankedBy(Children(nodes), rank) && entity !in nodes
    requires at.Some? ==> at.value in nodes
    ensures RankedBy(Children(Placed(nodes, entity, at)), Lifted(nodes, rank, entity))
  {
    var r := Placed(nodes, entity, at);
    var rank' := Lifted(nodes, rank, entity);
    var kids, old_kids := Children(r), Children(nodes);
    PlacedShape(nodes, entity, at);
    hide Placed;
    assert forall e :: e in nodes && (at.None? || e != at.value) ==> kids[e] == old_kids[e];
    assert at.Some? ==> kids[at.value] == old_kids[at.value] + [entity];
    assert kids[entity] == [];
    forall e, i | e in kids && 0 <= i < |kids[e]|
      ensures kids[e][i] in kids && kids[e][i] in rank' && rank'[kids[e][i]] < rank'[e]
    {
      if at.Some? && e == at.value && i == |old_kids[e]| {
      } else {
        assert kids[e][i] == old_kids[e][i];
      }
    }
  }

  /** The root conditions of `Tree`. */
  ghost predicate Rooted(nodes: Nodes, rank: map<EntityId, nat>, root: Option<EntityId>) {
    && (root.None? ==> nodes == map[])
    && (root.Some? ==>
          && root.value in nodes && nodes[root.value].parent.None?
          && forall x :: x in nodes ==> (x != root.value ==> nodes[x].parent.Some?) && x in rank && root.value in rank && rank[x] <= rank[root.value])
  }

  lemma TreeParts(nodes: Nodes, rank: map<EntityId, nat>, root: Option<EntityId>)
    ensures Tree(nodes, rank, root) <==> Linked(nodes) && RankedBy(Children(nodes), rank) && Rooted(nodes, rank, root)
  {
  }

  lemma PlacedRooted(nodes: Nodes, rank: map<EntityId, nat>, root: Option<EntityId>, entity: EntityId, at: Option<EntityId>)
    requires Rooted(nodes, rank, root) && entity !in nodes
    requires at.Some? ==> at.value in nodes
    requires root.Some? ==> at.Some?
    ensures Rooted(Placed(nodes, entity, at), Lifted(nodes, rank, entity), if at.None? then Some(entity) else root)
  {
    var r := Placed(nodes, entity, at);
    var rank' := Lifted(nodes, rank, entity);
    if at.None? {
      assert r == map[entity := Node(entity, [], None, Identity(), Identity())];
    } else {
      var top := root.value;
      assert forall e :: e in nodes ==> r[e].parent == nodes[e].parent && rank'[e] == rank[e] + 1;
    }
  }

  /** Placing a fresh entity under the root, under a live node, or as the
      root of an empty scene keeps the tree shape. */
  lemma PlacedTree(nodes: Nodes, rank: map<EntityId, nat>, root: Option<EntityId>, entity: EntityId, at: Option<EntityId>)
    requires Tree(nodes, rank, root) && entity !in nodes
    requires at.Some? ==> at.value in nodes
    requires root.Some? ==> at.Some?
    ensures Tree(Placed(nodes, entity, at), Lifted(nodes, rank, entity), if at.None? then Some(entity) else root)
  {
    TreeParts(nodes, rank, root);
    PlacedLinked(nodes, entity, at);
    PlacedRanked(nodes, rank, entity, at);
    PlacedRooted(nodes, rank, root, entity, at);
    TreeParts(Placed(nodes, entity, at), Lifted(nodes, rank, entity), if at.None? then Some(entity) else root);
  }

  /** `std::erase_if` of `e` on the child list of `parent`, when it is live. */
  ghost function Unlinked(nodes: Nodes, parent: Option<EntityId>, e: EntityId): (r: Nodes)
    ensures r.Keys == nodes.Keys
  {
    if parent.Some? && parent.value in nodes then
      nodes[parent.value := nodes[parent.value].(children := Without(nodes[parent.value].children, e))]
    else nodes
  }

  /** `Scene::RemoveEntity(e)`: the subtree of `e` leaves the arena and `e`
      leaves its parent's child list. */
  ghost function Pruned(nodes: Nodes, rank: map<EntityId, nat>, e: EntityId): (r: Nodes)
    requires RankedBy(Children(nodes), rank) && e in nodes
    ensures r.Keys == nodes.Keys - Sub(Children(nodes), rank, e)
  {
    Unlinked(nodes - Sub(Children(nodes), rank, e), nodes[e].parent, e)
  }

  /** The arena once `RemoveEntity(e)` has removed the subtrees of the first
      `i` children of `e`. */
  ghost function Partial(nodes: Nodes, rank: map<EntityId, nat>, e: EntityId, i: nat): Nodes
    requires RankedBy(Children(nodes), rank) && e in nodes && i <= |nodes[e].children|
  {
    var kids := nodes[e].children;
    ChildrenOfNode(Children(nodes), rank, e);
    ChildrenOfPrefix(Children(nodes), rank, kids, e, i);
    (nodes - SubOf(Children(nodes), rank, kids[..i], e))[e := nodes[e].(children := kids[i..])]
  }

  lemma PartialStart(nodes: Nodes, rank: map<EntityId, nat>, e: EntityId)
    requires RankedBy(Children(nodes), rank) && e in nodes
    ensures Partial(nodes, rank, e, 0) == nodes
  {
    assert nodes[e].children[0..] == nodes[e].children;
  }

  lemma LinkedDistinct(nodes: Nodes, p: EntityId)
    requires Linked(nodes) && p in nodes
    ensures Distinct(nodes[p].children)
  {
  }

  /** The subtree of the next child of `e` in the partial arena: it is the
      child's subtree in the whole arena, it avoids `e` and what is already
      gone, and it extends the union of the removed subtrees. */
  lemma PartialNext(nodes: Nodes, rank: map<EntityId, nat>, e: EntityId, i: nat)
    requires Linked(nodes) && RankedBy(Children(nodes), rank) && e in nodes && i < |nodes[e].children|
    requires RankedBy(Children(Partial(nodes, rank, e, i)), rank)
    ensures var kids, K := nodes[e].children, Children(nodes);
      var cur, c := Partial(nodes, rank, e, i), kids[i];
      && ChildrenOf(K, rank, kids[..i], e) && ChildrenOf(K, rank, kids[..i + 1], e)
      && c in K && c in cur && c != e && cur[c].parent == Some(e)
      && Sub(Children(cur), rank, c) == Sub(K, rank, c)
      && SubOf(K, rank, kids[..i + 1], e) == SubOf(K, rank, kids[..i], e) + Sub(K, rank, c)
      && (forall x :: x in Sub(K, rank, c) ==> x in nodes && x != e && x !in SubOf(K, rank, kids[..i], e))
      && Without(kids[i..], c) == kids[i + 1..]
  {
    var kids, K := nodes[e].children, Children(nodes);
    var cur, c := Partial(nodes, rank, e, i), kids[i];
    NextSubtree(nodes, rank, e, i);
    assert c in Sub(K, rank, c);
    SubLocal(K, rank, Children(cur), rank, c);
    LinkedDistinct(nodes, e);
    DistinctTail(kids, i);
  }

  /** The subtree of the `i`-th child of `e` is disjoint from those of the
      children before it and from `e`, and extends their union. */
  lemma NextSubtree(nodes: Nodes, rank: map<EntityId, nat>, e: EntityId, i: nat)
    requires Linked(nodes) && RankedBy(Children(nodes), rank) && e in nodes && i < |nodes[e].children|
    ensures var kids, K := nodes[e].children, Children(nodes);
      && ChildrenOf(K, rank, kids[..i], e) && ChildrenOf(K, rank, kids[..i + 1], e) && kids[i] in K
      && SubOf(K, rank, kids[..i + 1], e) == SubOf(K, rank, kids[..i], e) + Sub(K, rank, kids[i])
      && (forall x :: x in Sub(K, rank, kids[i]) ==> x in nodes && x != e && x !in SubOf(K, rank, kids[..i], e))
  {
    var kids, K := nodes[e].children, Children(nodes);
    var c := kids[i];
    ChildrenOfNode(K, rank, e);
    ChildrenOfPrefix(K, rank, kids, e, i);
    ChildrenOfPrefix(K, rank, kids, e, i + 1);
    assert kids[..i + 1][..i] == kids[..i];
    assert SubOf(K, rank, kids[..i + 1], e) == SubOf(K, rank, kids[..i], e) + Sub(K, rank, c);
    NextSubtreeApart(nodes, rank, e, i);
  }

  lemma NextSubtreeApart(nodes: Nodes, rank: map<EntityId, nat>, e: EntityId, i: nat)
    requires Linked(nodes) && RankedBy(Children(nodes), rank) && e in nodes && i < |nodes[e].children|
    requires var kids, K := nodes[e].children, Children(nodes);
      ChildrenOf(K, rank, kids[..i], e) && kids[i] in K
    ensures var kids, K := nodes[e].children, Children(nodes);
      forall x :: x in Sub(K, rank, kids[i]) ==> x in nodes && x != e && x !in SubOf(K, rank, kids[..i], e)
  {
    var kids, K := nodes[e].children, Children(nodes);
    var c := kids[i];
    LinkedUnique(nodes);
    var done := SubOf(K, rank, kids[..i], e);
    forall x | x in Sub(K, rank, c) ensures x in nodes && x != e && x !in done {
      SubBound(K, rank, c, x);
      if x in done {
        var j := SubOfWitness(K, rank, kids[..i], e, x);
        SiblingsDisjoint(K, rank, e, i, j, x);
      }
    }
  }

  /** One turn of the loop over the children of `e`: removing the next
      child's subtree from the partial arena gives the next partial arena. */
  lemma PartialStep(nodes: Nodes, rank: map<EntityId, nat>, e: EntityId, i: nat)
    requires Linked(nodes) && RankedBy(Children(nodes), rank) && e in nodes && i < |nodes[e].children|
    requires RankedBy(Children(Partial(nodes, rank, e, i)), rank)
    ensures var cur, c := Partial(nodes, rank, e, i), nodes[e].children[i];
      && c in cur && c != e && cur[c].parent == Some(e)
      && Sub(Children(cur), rank, c) == Sub(Children(nodes), rank, c)
      && Pruned(cur, rank, c) == Partial(nodes, rank, e, i + 1)
  {
    PartialNext(nodes, rank, e, i);
    var kids, K := nodes[e].children, Children(nodes);
    var cur, c := Partial(nodes, rank, e, i), kids[i];
    var done, S := SubOf(K, rank, kids[..i], e), Sub(K, rank, c);
    var top := nodes[e].(children := kids[i + 1..]);
    assert cur == (nodes - done)[e := nodes[e].(children := kids[i..])];
    assert Partial(nodes, rank, e, i + 1) == (nodes - (done + S))[e := top];
    hide Sub, SubOf, Children, RankedBy, ChildrenOf, Partial;
    assert Pruned(cur, rank, c) == Unlinked(cur - S, Some(e), c);
    Regrafted(nodes, done, S, e, c, i);
  }

  /** The map algebra of one turn: taking a subtree out of the partial
      arena and the child out of the child list of `e` is the next partial
      arena. */
  lemma Regrafted(nodes: Nodes, done: set<EntityId>, S: set<EntityId>, e: EntityId, c: EntityId, i: nat)
    requires e in nodes && e !in S && i < |nodes[e].children|
    requires Without(nodes[e].children[i..], c) == nodes[e].children[i + 1..]
    ensures var cur := (nodes - done)[e := nodes[e].(children := nodes[e].children[i..])];
      Unlinked(cur - S, Some(e), c) == (nodes - (done + S))[e := nodes[e].(children := nodes[e].children[i + 1..])]
  {
  }

  /** After the loop `e` is a leaf, and removing it completes the removal of
      its whole subtree. */
  lemma PartialFinish(nodes: Nodes, rank: map<EntityId, nat>, e: EntityId)
    requires Linked(nodes) && RankedBy(Children(nodes), rank) && e in nodes
    requires RankedBy(Children(Partial(nodes, rank, e, |nodes[e].children|)), rank)
    ensures var cur := Partial(nodes, rank, e, |nodes[e].children|);
      && e in cur && cur[e].children == [] && cur[e].parent == nodes[e].parent
      && Pruned(cur, rank, e) == Pruned(nodes, rank, e)
  {
    var kids, K := nodes[e].children, Children(nodes);
    var cur := Partial(nodes, rank, e, |kids|);
    ChildrenOfNode(K, rank, e);
    assert K[e] == kids && kids[|kids|..] == [];
    var done := SubOf(K, rank, kids[..|kids|], e);
    assert cur == (nodes - done)[e := nodes[e].(children := [])];
    assert Sub(Children(cur), rank, e) == {e};
    MinusSub(nodes, K, rank, e);
    hide SubOf, Sub, Children, Partial, RankedBy, ChildrenOf;
    assert cur - {e} == (nodes - done) - {e};
  }

  lemma PrunedLeafLinked(nodes: Nodes, e: EntityId)
    requires Linked(nodes) && e in nodes && nodes[e].children == []
    ensures Linked(Unlinked(nodes - {e}, nodes[e].parent, e))
  {
    var parent := nodes[e].parent;
    var r := Unlinked(nodes - {e}, parent, e);
    forall x | x in r ensures r[x].entity == x && r[x].parent == nodes[x].parent {
    }
    forall x | x in r && r[x].parent.Some? ensures r[x].parent.value in r && x in r[r[x].parent.value].children {
      var q := nodes[x].parent.value;
      assert x in nodes[q].children;
      if q == e {
        assert false;
      }
    }
    forall p | p in r ensures forall y :: y in r[p].children ==> y in nodes[p].children && y != e {
    }
    forall p | p in r ensures Distinct(r[p].children) {
      LinkedDistinct(nodes, p);
      if parent.Some? && p == parent.value {
        WithoutDistinct(nodes[p].children, e);
      }
    }
    forall p, i | p in r && 0 <= i < |r[p].children| ensures r[p].children[i] in r && r[r[p].children[i]].parent == Some(p) {
      var y := r[p].children[i];
      assert y in nodes[p].children;
      var k :| 0 <= k < |nodes[p].children| && nodes[p].children[k] == y;
    }
  }

  /** Dropping a leaf keeps the ranking of what remains. */
  lemma PrunedLeafRanked(nodes: Nodes, rank: map<EntityId, nat>, e: EntityId)
    requires Linked(nodes) && RankedBy(Children(nodes), rank) && e in nodes
    ensures RankedBy(Children(Unlinked(nodes - {e}, nodes[e].parent, e)), rank)
  {
    var K, u := Children(nodes), Unlinked(nodes - {e}, nodes[e].parent, e);
    var R := Children(u);
    forall p, i | p in R && 0 <= i < |R[p]| ensures R[p][i] in R && R[p][i] in rank && rank[R[p][i]] < rank[p] {
      var y := R[p][i];
      assert R[p] == u[p].children && K[p] == nodes[p].children;
      assert u[p].children == if nodes[e].parent == Some(p) then Without(nodes[p].children, e) else nodes[p].children;
      assert y in R[p];
      assert y in K[p];
      var k :| 0 <= k < |K[p]| && K[p][k] == y;
      assert nodes[y].parent == Some(p);
    }
  }

  /** Dropping a leaf other than the root keeps the root, parents and ranks;
      dropping the root leaf empties the arena. */
  lemma PrunedLeafRooted(nodes: Nodes, rank: map<EntityId, nat>, root: Option<EntityId>, e: EntityId)
    requires Tree(nodes, rank, root) && e in nodes && nodes[e].children == []
    ensures Rooted(Unlinked(nodes - {e}, nodes[e].parent, e), rank, if root == Some(e) then None else root)
  {
    var r := Unlinked(nodes - {e}, nodes[e].parent, e);
    if root == Some(e) {
      assert Sub(Children(nodes), rank, e) == {e};
      RootCovers(nodes, rank, e);
      assert r.Keys == {};
    } else if root.Some? {
      forall x | x in r ensures r[x].parent == nodes[x].parent {
      }
    }
  }

  lemma PrunedLeafTree(nodes: Nodes, rank: map<EntityId, nat>, root: Option<EntityId>, e: EntityId)
    requires Tree(nodes, rank, root) && e in nodes && nodes[e].children == []
    ensures Tree(Pruned(nodes, rank, e), rank, if root == Some(e) then None else root)
  {
    assert Sub(Children(nodes), rank, e) == {e};
    PrunedLeafLinked(nodes, e);
    PrunedLeafRanked(nodes, rank, e);
    PrunedLeafRooted(nodes, rank, root, e);
  }

  /** The child loop of `RemoveEntity` before its first turn. */
  lemma RemovalStart<V>(nodes: Nodes, rank: map<EntityId, nat>, root: Option<EntityId>, e: EntityId, m: map<EntityId, V>)
    requires Tree(nodes, rank, root) && e in nodes
    ensures ChildrenOf(Children(nodes), rank, nodes[e].children[..0], e)
    ensures Partial(nodes, rank, e, 0) == nodes
    ensures m - SubOf(Children(nodes), rank, nodes[e].children[..0], e) == m
  {
    PartialStart(nodes, rank, e);
    ChildrenOfNode(Children(nodes), rank, e);
    SubOfSnoc(Children(nodes), rank, nodes[e].children, e, 0);
  }

  /** One turn of the child loop of `RemoveEntity`, stated on the arena
      after `i` children are gone and on a map `m` keyed by entity. */
  lemma RemovalStep<V>(nodes: Nodes, rank: map<EntityId, nat>, root: Option<EntityId>, e: EntityId, i: nat, m: map<EntityId, V>)
    requires Tree(nodes, rank, root) && e in nodes && i < |nodes[e].children|
    requires Tree(Partial(nodes, rank, e, i), rank, root)
    ensures var cur, c, K := Partial(nodes, rank, e, i), nodes[e].children[i], Children(nodes);
      && c in cur && c in rank && e in rank && rank[c] < rank[e] && root != Some(c)
      && Pruned(cur, rank, c) == Partial(nodes, rank, e, i + 1)
      && ChildrenOf(K, rank, nodes[e].children[..i + 1], e)
      && (m - SubOf(K, rank, nodes[e].children[..i], e)) - Sub(Children(cur), rank, c)
         == m - SubOf(K, rank, nodes[e].children[..i + 1], e)
  {
    var kids, K := nodes[e].children, Children(nodes);
    PartialStep(nodes, rank, e, i);
    ChildrenOfNode(K, rank, e);
    SubOfSnoc(K, rank, kids, e, i);
    assert kids[i] in kids;
    MinusTwice(m, SubOf(K, rank, kids[..i], e), Sub(K, rank, kids[i]));
  }

  /** The child loop of `RemoveEntity` after its last turn: the node is a
      leaf whose removal finishes the removal of its whole subtree. */
  lemma RemovalFinish<V>(nodes: Nodes, rank: map<EntityId, nat>, root: Option<EntityId>, e: EntityId, m: map<EntityId, V>)
    requires Tree(nodes, rank, root) && e in nodes
    requires Tree(Partial(nodes, rank, e, |nodes[e].children|), rank, root)
    ensures var cur := Partial(nodes, rank, e, |nodes[e].children|);
      && e in cur && cur[e].children == []
      && Pruned(cur, rank, e) == Pruned(nodes, rank, e)
      && ChildrenOf(Children(nodes), rank, nodes[e].children[..|nodes[e].children|], e)
      && (m - SubOf(Children(nodes), rank, nodes[e].children[..|nodes[e].children|], e)) - {e}
         == m - Sub(Children(nodes), rank, e)
  {
    PartialFinish(nodes, rank, e);
    MinusSub(m, Children(nodes), rank, e);
  }

  /** Removing a leaf, stated on the edit as `RemoveEntity` performs it. */
  lemma LeafRemoval(nodes: Nodes, rank: map<EntityId, nat>, root: Option<EntityId>, e: EntityId)
    requires Tree(nodes, rank, root) && e in nodes && nodes[e].children == []
    ensures var p := nodes[e].parent;
      && (p.Some? ==> p.value in nodes)
      && var r := Unlinked(nodes, p, e) - {e};
      && r == Pruned(nodes, rank, e)
      && Sub(Children(nodes), rank, e) == {e}
      && Tree(r, rank, if root == Some(e) then None else root)
  {
    PrunedLeaf(nodes, rank, e);
    PrunedLeafTree(nodes, rank, root, e);
  }

  /** After propagating from `n`, the world of `n` is `parentWorld * local`. */
  lemma WithWorldsAtTop(nodes: Nodes, rank: map<EntityId, nat>, n: EntityId, parentWorld: Mat)
    requires RankedBy(Children(nodes), rank) && n in nodes
    ensures var r := WithWorlds(nodes, Worlds(Children(nodes), Locals(nodes), rank, n, parentWorld));
      n in r && r[n].world == Mul(parentWorld, nodes[n].local)
  {
    WorldsAtTop(Children(nodes), Locals(nodes), rank, n, parentWorld);
  }

  /** The hierarchy edit of `AttachEntity` and `DetachEntity`: `c` leaves
      its old parent's child list, is appended to the child list of `np`,
      records `np` as its parent and takes the given local transform. */
  ghost function Relinked(nodes: Nodes, c: EntityId, np: EntityId, local: Mat): (r: Nodes)
    requires c in nodes && np in nodes && np != c
    ensures r.Keys == nodes.Keys
  {
    var detached := Unlinked(nodes, nodes[c].parent, c);
    var attached := detached[np := detached[np].(children := detached[np].children + [c])];
    attached[c := attached[c].(parent := Some(np), local := local)]
  }

  /** A rank for the arena after `Relinked`: the moved subtree keeps its
      ranks and everything else is lifted above it. */
  ghost function Rerank(nodes: Nodes, rank: map<EntityId, nat>, c: EntityId): (r: map<EntityId, nat>)
    requires RankedBy(Children(nodes), rank) && c in nodes
    ensures r.Keys == nodes.Keys
  {
    var moved := Sub(Children(nodes), rank, c);
    map x | x in nodes :: if x !in rank then 0 else if x in moved then rank[x] else rank[x] + rank[c] + 1
  }

  /** The child lists after `Relinked`. */
  lemma RelinkedChildren(nodes: Nodes, c: EntityId, np: EntityId, local: Mat, p: EntityId)
    requires c in nodes && np in nodes && np != c && nodes[c].parent != Some(c) && p in nodes
    ensures var base := if nodes[c].parent == Some(p) then Without(nodes[p].children, c) else nodes[p].children;
      Relinked(nodes, c, np, local)[p].children == if p == np then base + [c] else base
    ensures Relinked(nodes, c, np, local)[p].parent == if p == c then Some(np) else nodes[p].parent
    ensures Relinked(nodes, c, np, local)[p].entity == nodes[p].entity
  {
  }

  /** How each node looks after `Relinked`, for every node at once. */
  ghost predicate RelinkedShape(nodes: Nodes, r: Nodes, c: EntityId, np: EntityId) {
    && r.Keys == nodes.Keys && c in nodes && np in nodes && np != c
    && forall p :: p in nodes ==>
      && (var base := if nodes[c].parent == Some(p) then Without(nodes[p].children, c) else nodes[p].children;
          r[p].children == if p == np then base + [c] else base)
      && r[p].parent == (if p == c then Some(np) else nodes[p].parent)
      && r[p].entity == nodes[p].entity
  }

  lemma RelinkedHasShape(nodes: Nodes, c: EntityId, np: EntityId, local: Mat)
    requires c in nodes && np in nodes && np != c && nodes[c].parent != Some(c)
    ensures RelinkedShape(nodes, Relinked(nodes, c, np, local), c, np)
  {
    forall p | p in nodes ensures
      && (var base := if nodes[c].parent == Some(p) then Without(nodes[p].children, c) else nodes[p].children;
          Relinked(nodes, c, np, local)[p].children == if p == np then base + [c] else base)
      && Relinked(nodes, c, np, local)[p].parent == (if p == c then Some(np) else nodes[p].parent)
      && Relinked(nodes, c, np, local)[p].entity == nodes[p].entity
    {
      RelinkedChildren(nodes, c, np, local, p);
    }
  }

  /** A node listed as a child names that parent. */
  lemma ListedParent(nodes: Nodes, p: EntityId, y: EntityId)
    requires Linked(nodes) && p in nodes && y in nodes[p].children
    ensures y in nodes && nodes[y].parent == Some(p)
  {
    var k :| 0 <= k < |nodes[p].children| && nodes[p].children[k] == y;
  }

  lemma RelinkedParents(nodes: Nodes, r: Nodes, c: EntityId, np: EntityId)
    requires Linked(nodes) && RelinkedShape(nodes, r, c, np)
    requires r[c].parent == Some(np)
    ensures forall x :: x in r && r[x].parent.Some? ==> r[x].parent.value in r && x in r[r[x].parent.value].children
  {
    forall x | x in r && r[x].parent.Some? ensures r[x].parent.value in r && x in r[r[x].parent.value].children {
      var q := r[x].parent.value;
      var base := if nodes[c].parent == Some(q) then Without(nodes[q].children, c) else nodes[q].children;
      assert r[q].children == if q == np then base + [c] else base;
      if x != c {
        assert nodes[x].parent == Some(q) && x in nodes[q].children;
        assert x in base;
      } else {
        assert q == np;
      }
    }
  }

  lemma RelinkedBackLinks(nodes: Nodes, r: Nodes, c: EntityId, np: EntityId)
    requires Linked(nodes) && RelinkedShape(nodes, r, c, np)
    ensures forall p, i :: p in r && 0 <= i < |r[p].children| ==> r[p].children[i] in r && r[r[p].children[i]].parent == Some(p)
  {
    forall p, i | p in r && 0 <= i < |r[p].children| ensures r[p].children[i] in r && r[r[p].children[i]].parent == Some(p) {
      var y := r[p].children[i];
      if y != c || p != np {
        var base := if nodes[c].parent == Some(p) then Without(nodes[p].children, c) else nodes[p].children;
        assert y in base;
        ListedParent(nodes, p, y);
      }
    }
  }

  lemma RelinkedDistinct(nodes: Nodes, r: Nodes, c: EntityId, np: EntityId)
    requires Linked(nodes) && RelinkedShape(nodes, r, c, np)
    ensures forall p, i, j :: p in r && 0 <= i < j < |r[p].children| ==> r[p].children[i] != r[p].children[j]
  {
    forall p | p in r ensures Distinct(r[p].children) {
      RelinkedDistinctAt(nodes, r, c, np, p);
    }
  }

  /** One child list after the move still has no repeats. */
  lemma RelinkedDistinctAt(nodes: Nodes, r: Nodes, c: EntityId, np: EntityId, p: EntityId)
    requires Linked(nodes) && RelinkedShape(nodes, r, c, np) && p in r
    ensures Distinct(r[p].children)
  {
    LinkedDistinct(nodes, p);
    var base := if nodes[c].parent == Some(p) then Without(nodes[p].children, c) else nodes[p].children;
    assert r[p].children == if p == np then base + [c] else base;
    if nodes[c].parent == Some(p) {
      WithoutDistinct(nodes[p].children, c);
    }
    if p == np {
      if c in nodes[p].children {
        ListedParent(nodes, p, c);
      }
      assert c !in base;
      DistinctSnoc(base, c);
    }
  }

  lemma DistinctSnoc(s: seq<EntityId>, x: EntityId)
    requires Distinct(s) && x !in s
    ensures Distinct(s + [x])
  {
    forall i, j | 0 <= i < j < |s + [x]| ensures (s + [x])[i] != (s + [x])[j] {
      if j == |s| {
        assert (s + [x])[i] == s[i];
      }
    }
  }

  lemma RelinkedLinked(nodes: Nodes, c: EntityId, np: EntityId, local: Mat)
    requires Linked(nodes) && c in nodes && np in nodes && np != c && nodes[c].parent != Some(c)
    ensures Linked(Relinked(nodes, c, np, local))
  {
    var r := Relinked(nodes, c, np, local);
    RelinkedHasShape(nodes, c, np, local);
    assert r[c].parent == Some(np);
    RelinkedParents(nodes, r, c, np);
    RelinkedBackLinks(nodes, r, c, np);
    RelinkedDistinct(nodes, r, c, np);
  }

  lemma RelinkedRanked(nodes: Nodes, rank: map<EntityId, nat>, r: Nodes, c: EntityId, np: EntityId)
    requires Linked(nodes) && RankedBy(Children(nodes), rank) && RelinkedShape(nodes, r, c, np)
    requires np !in Sub(Children(nodes), rank, c)
    ensures RankedBy(Children(r), Rerank(nodes, rank, c))
  {
    var R, rank' := Children(r), Rerank(nodes, rank, c);
    forall p, i | p in R && 0 <= i < |R[p]| ensures R[p][i] in R && R[p][i] in rank' && rank'[R[p][i]] < rank'[p] {
      RelinkedEdge(nodes, rank, r, c, np, p, i);
    }
  }

  /** One child link after the move still descends in the new rank. */
  lemma RelinkedEdge(nodes: Nodes, rank: map<EntityId, nat>, r: Nodes, c: EntityId, np: EntityId, p: EntityId, i: nat)
    requires Linked(nodes) && RankedBy(Children(nodes), rank) && RelinkedShape(nodes, r, c, np)
    requires np !in Sub(Children(nodes), rank, c)
    requires p in r && i < |r[p].children|
    ensures var y, rank' := r[p].children[i], Rerank(nodes, rank, c);
      y in r && y in rank' && p in rank' && rank'[y] < rank'[p]
  {
    var K, rank' := Children(nodes), Rerank(nodes, rank, c);
    var moved := Sub(K, rank, c);
    var y := r[p].children[i];
    var base := if nodes[c].parent == Some(p) then Without(nodes[p].children, c) else nodes[p].children;
    assert r[p].children == if p == np then base + [c] else base;
    if p == np && i == |base| {
      assert y == c && c in moved;
    } else {
      assert y == base[i];
      assert y in nodes[p].children;
      assert K[p] == nodes[p].children;
      var k :| 0 <= k < |K[p]| && K[p][k] == y;
      if y == c {
        ListedParent(nodes, p, c);
        assert false;
      }
      KeptEdge(nodes, rank, c, p, k);
    }
  }

  /** An edge that `Relinked` keeps still goes down in the new ranks. */
  lemma KeptEdge(nodes: Nodes, rank: map<EntityId, nat>, c: EntityId, p: EntityId, k: nat)
    requires Linked(nodes) && RankedBy(Children(nodes), rank) && c in nodes
    requires p in nodes && k < |nodes[p].children| && nodes[p].children[k] != c
    ensures var y, rank' := nodes[p].children[k], Rerank(nodes, rank, c);
      y in nodes && y in rank' && p in rank' && rank'[y] < rank'[p]
  {
    var K := Children(nodes);
    var moved := Sub(K, rank, c);
    var y := K[p][k];
    LinkedUnique(nodes);
    if p in moved {
      SubClosed(K, rank, c, p, k);
    } else if y in moved {
      var q, j := SubParent(K, rank, c, y);
    }
  }

  lemma RelinkedRooted(nodes: Nodes, rank: map<EntityId, nat>, root: EntityId, r: Nodes, c: EntityId, np: EntityId)
    requires RankedBy(Children(nodes), rank) && Rooted(nodes, rank, Some(root)) && RelinkedShape(nodes, r, c, np) && c != root
    requires root !in Sub(Children(nodes), rank, c)
    ensures Rooted(r, Rerank(nodes, rank, c), Some(root))
  {
    var rank' := Rerank(nodes, rank, c);
    forall x | x in r ensures (x != root ==> r[x].parent.Some?) && x in rank' && root in rank' && rank'[x] <= rank'[root] {
      if x in Sub(Children(nodes), rank, c) {
        SubBound(Children(nodes), rank, c, x);
      }
    }
  }

  /** Moving a non-root subtree below a node outside it keeps the tree
      shape and leaves the moved subtree as it was. */
  lemma RelinkedTree(nodes: Nodes, rank: map<EntityId, nat>, root: Option<EntityId>, c: EntityId, np: EntityId, local: Mat)
    requires Tree(nodes, rank, root) && c in nodes && nodes[c].parent.Some?
    requires np in nodes && np !in Sub(Children(nodes), rank, c)
    ensures c != np && c in Relinked(nodes, c, np, local)
    ensures var r, rank' := Relinked(nodes, c, np, local), Rerank(nodes, rank, c);
      && Tree(r, rank', root)
      && Sub(Children(r), rank', c) == Sub(Children(nodes), rank, c)
  {
    var K := Children(nodes);
    var moved := Sub(K, rank, c);
    assert c in moved;
    var oldp := nodes[c].parent.value;
    assert c in nodes[oldp].children;
    var k :| 0 <= k < |K[oldp]| && K[oldp][k] == c;
    assert rank[c] < rank[oldp];
    var r, rank' := Relinked(nodes, c, np, local), Rerank(nodes, rank, c);
    RelinkedHasShape(nodes, c, np, local);
    RelinkedLinked(nodes, c, np, local);
    RelinkedRanked(nodes, rank, r, c, np);
    if root.Some? {
      ParentlessOutside(nodes, rank, c, root.value);
      RelinkedRooted(nodes, rank, root.value, r, c, np);
    }
    RelinkedMovedSub(nodes, rank, r, c, np, oldp);
  }

  lemma RelinkedMovedSub(nodes: Nodes, rank: map<EntityId, nat>, r: Nodes, c: EntityId, np: EntityId, oldp: EntityId)
    requires RankedBy(Children(nodes), rank) && RelinkedShape(nodes, r, c, np)
    requires RankedBy(Children(r), Rerank(nodes, rank, c))
    requires np !in Sub(Children(nodes), rank, c)
    requires nodes[c].parent == Some(oldp) && oldp in rank && rank[c] < rank[oldp]
    ensures Sub(Children(r), Rerank(nodes, rank, c), c) == Sub(Children(nodes), rank, c)
  {
    var K, R := Children(nodes), Children(r);
    var moved := Sub(K, rank, c);
    forall x | x in moved ensures x in K && x in R && R[x] == K[x] {
      SubBound(K, rank, c, x);
      assert x != oldp && x != np;
      assert r[x].children == nodes[x].children;
    }
    SubLocal(K, rank, R, Rerank(nodes, rank, c), c);
  }

  /** Overwriting worlds keeps the tree shape. */
  lemma WithWorldsTree(nodes: Nodes, rank: map<EntityId, nat>, root: Option<EntityId>, worlds: map<EntityId, Mat>)
    requires Tree(nodes, rank, root)
    ensures Tree(WithWorlds(nodes, worlds), rank, root)
  {
    WithWorldsLinked(nodes, worlds);
    var r := WithWorlds(nodes, worlds);
    assert forall x :: x in r ==> r[x].parent == nodes[x].parent;
  }

  /** `SetWorldTransform`'s edit before propagation: a new local transform. */
  ghost function Relocal(nodes: Nodes, e: EntityId, local: Mat): (r: Nodes)
    requires e in nodes
    ensures r.Keys == nodes.Keys && Children(r) == Children(nodes)
    ensures r[e].local == local
  {
    nodes[e := nodes[e].(local := local)]
  }

  lemma RelocalTree(nodes: Nodes, rank: map<EntityId, nat>, root: Option<EntityId>, e: EntityId, local: Mat)
    requires Tree(nodes, rank, root) && e in nodes
    ensures Tree(Relocal(nodes, e, local), rank, root)
  {
    var r := Relocal(nodes, e, local);
    assert forall x :: x in r ==> r[x].parent == nodes[x].parent && r[x].children == nodes[x].children && r[x].entity == nodes[x].entity;
  }

  /** The range-for over `node->children` in `RemoveEntity` as written, for
      leaf children: each visit erases the visited child from the very vector
      being traversed, while the position only moves forward and the end
      stays where it was on entry. The result lists the children visited and
      whether the loop went on past the live end of the vector. */
  function RangeForErasing(live: seq<EntityId>, i: nat, end: nat): (r: (seq<EntityId>, bool))
    ensures forall x :: x in r.0 ==> x in live
    decreases end - i
  {
    if i >= end then ([], false)
    else if i >= |live| then ([], true)
    else
      var rest := RangeForErasing(Without(live, live[i]), i + 1, end);
      ([live[i]] + rest.0, rest.1)
  }

  /** With two leaf children the first is removed, the second is never
      visited, and the loop reads the slot past the end of the vector. */
  lemma RangeForSkipsSecondChild(a: EntityId, b: EntityId)
    requires a != b
    ensures RangeForErasing([a, b], 0, 2) == ([a], true)
  {
    assert Without([a, b], a) == [b] by {
      assert [a, b][1..] == [b];
      assert Without([b], a) == [b] by {
        assert [b][1..] == [];
      }
    }
    assert RangeForErasing([b], 1, 2) == ([], true);
    assert [a, b][0] == a;
    var rest := RangeForErasing(Without([a, b], a), 1, 2);
    assert RangeForErasing([a, b], 0, 2) == ([a] + rest.0, rest.1);
    assert [a] + [] == [a];
  }

  /** The children at odd positions `1, 3, …, 2i-1`: those the range-for has
      stepped over after `i` visits. */
  function OddPositions(cs: seq<EntityId>, i: nat): (r: seq<EntityId>)
    requires 2 * i <= |cs|
    ensures |r| == i
    ensures forall j :: 0 <= j < i ==> r[j] == cs[2 * j + 1]
  {
    if i == 0 then [] else OddPositions(cs, i - 1) + [cs[2 * i - 1]]
  }

  /** Erasing an element the prefix does not hold only touches the suffix. */
  lemma {:induction false} WithoutAfterPrefix(a: seq<EntityId>, b: seq<EntityId>, e: EntityId)
    requires e !in a
    ensures Without(a + b, e) == a + Without(b, e)
  {
    if a == [] {
      assert a + b == b;
    } else {
      assert (a + b)[0] == a[0] != e;
      assert (a + b)[1..] == a[1..] + b;
      WithoutAfterPrefix(a[1..], b, e);
      assert [a[0]] + (a[1..] + Without(b, e)) == a + Without(b, e);
    }
  }

  /** The visit at position `i` erases child `2i` and leaves the skipped
      children in front of the rest of the tail. */
  lemma ErasingAtEvenPosition(cs: seq<EntityId>, i: nat)
    requires Distinct(cs) && 2 * i < |cs|
    ensures var live := OddPositions(cs, i) + cs[2 * i..];
      && i < |live| && live[i] == cs[2 * i]
      && Without(live, cs[2 * i]) == OddPositions(cs, i) + cs[2 * i + 1..]
  {
    var odd := OddPositions(cs, i);
    assert cs[2 * i] !in odd by {
      forall j | 0 <= j < i ensures odd[j] != cs[2 * i] {
        assert cs[2 * j + 1] != cs[2 * i];
      }
    }
    WithoutAfterPrefix(odd, cs[2 * i..], cs[2 * i]);
    DistinctTail(cs, 2 * i);
  }

  /** After `i` visits the vector holds the skipped odd-position children
      followed by the untouched tail, and from there the loop visits the
      even positions `2i, 2i+2, …` and then reads past the live end. */
  lemma {:induction false} RangeForFrom(cs: seq<EntityId>, i: nat)
    requires Distinct(cs) && 2 <= |cs| && 2 * i <= |cs|
    ensures var r := RangeForErasing(OddPositions(cs, i) + cs[2 * i..], i, |cs|);
      && |r.0| == (|cs| - 2 * i + 1) / 2
      && (forall j :: 0 <= j < |r.0| ==> r.0[j] == cs[2 * i + 2 * j])
      && r.1
    decreases |cs| - 2 * i
  {
    var live := OddPositions(cs, i) + cs[2 * i..];
    if 2 * i < |cs| {
      ErasingAtEvenPosition(cs, i);
      var next := OddPositions(cs, i) + cs[2 * i + 1..];
      var rest := RangeForErasing(next, i + 1, |cs|);
      assert RangeForErasing(live, i, |cs|) == ([cs[2 * i]] + rest.0, rest.1);
      if 2 * i + 2 <= |cs| {
        assert next == OddPositions(cs, i + 1) + cs[2 * (i + 1)..] by {
          assert OddPositions(cs, i + 1) == OddPositions(cs, i) + [cs[2 * i + 1]];
          assert cs[2 * i + 1..] == [cs[2 * i + 1]] + cs[2 * i + 2..];
        }
        RangeForFrom(cs, i + 1);
      } else {
        assert rest == ([], true);
      }
    } else {
      assert RangeForErasing(live, i, |cs|) == ([], true);
    }
  }

  /** Whatever the number of leaf children, from two on the loop visits
      exactly those at even positions, skips every other one, and reads past
      the live end of the vector. */
  lemma RangeForSkipsOddChildren(cs: seq<EntityId>)
    requires Distinct(cs) && 2 <= |cs|
    ensures var r := RangeForErasing(cs, 0, |cs|);
      && |r.0| == (|cs| + 1) / 2
      && (forall j :: 0 <= j < |r.0| ==> r.0[j] == cs[2 * j])
      && cs[1] !in r.0
      && r.1
  {
    assert OddPositions(cs, 0) + cs[0..] == cs;
    RangeForFrom(cs, 0);
    var r := RangeForErasing(cs, 0, |cs|);
    forall j | 0 <= j < |r.0| ensures r.0[j] != cs[1] {
      assert cs[2 * j] != cs[1];
    }
  }

  /** One more child handled by the propagation loop. */
  lemma WorldsOfSnoc(kids: Kids, locals: map<EntityId, Mat>, rank: map<EntityId, nat>, cs: seq<EntityId>, bound: EntityId, w: Mat, top: map<EntityId, Mat>, i: nat)
    requires ChildrenOf(kids, rank, cs, bound) && kids.Keys <= locals.Keys && i < |cs|
    ensures ChildrenOf(kids, rank, cs[..i], bound) && ChildrenOf(kids, rank, cs[..i + 1], bound) && cs[i] in kids
    ensures RankedBy(kids, rank) && cs[i] in rank && bound in rank && rank[cs[i]] < rank[bound]
    ensures top + WorldsOf(kids, locals, rank, cs[..i], bound, w) + Worlds(kids, locals, rank, cs[i], w)
         == top + WorldsOf(kids, locals, rank, cs[..i + 1], bound, w)
  {
    ChildrenOfPrefix(kids, rank, cs, bound, i);
    ChildrenOfPrefix(kids, rank, cs, bound, i + 1);
    assert cs[..i + 1][..i] == cs[..i];
    assert cs[..i + 1][i] == cs[i];
    var a, b := WorldsOf(kids, locals, rank, cs[..i], bound, w), Worlds(kids, locals, rank, cs[i], w);
    assert WorldsOf(kids, locals, rank, cs[..i + 1], bound, w) == a + b;
    assert top + a + b == top + (a + b);
  }

  /** The start and the end of the propagation loop. */
  lemma WorldsOfEnds(kids: Kids, locals: map<EntityId, Mat>, rank: map<EntityId, nat>, n: EntityId, parentWorld: Mat)
    requires RankedBy(kids, rank) && n in kids && kids.Keys <= locals.Keys
    ensures var w := Mul(parentWorld, locals[n]);
      && ChildrenOf(kids, rank, kids[n][..0], n) && ChildrenOf(kids, rank, kids[n][..|kids[n]|], n)
      && map[n := w] + WorldsOf(kids, locals, rank, kids[n][..0], n, w) == map[n := w]
      && map[n := w] + WorldsOf(kids, locals, rank, kids[n][..|kids[n]|], n, w) == Worlds(kids, locals, rank, n, parentWorld)
  {
    assert kids[n][..|kids[n]|] == kids[n];
    ChildrenOfNode(kids, rank, n);
    ChildrenOfPrefix(kids, rank, kids[n], n, 0);
  }

  /** Writing one world into the node that owns it. */
  lemma WithOneWorld(nodes: Nodes, e: EntityId, w: Mat)
    requires e in nodes
    ensures nodes[e := nodes[e].(world := w)] == WithWorlds(nodes, map[e := w])
  {
  }

  /** Writing one pose into the component store. */
  lemma PosedOne(contents: map<EntityId, Transforms.Transform>, e: EntityId, w: Mat)
    ensures e in contents ==> Posed(contents, map[e := w]) == contents[e := contents[e].WithPose(Decompose(w))]
    ensures e !in contents ==> Posed(contents, map[e := w]) == contents
  {
  }

  /** One more subtree in a union of subtrees; at the end, the whole list. */
  lemma SubOfSnoc(kids: Kids, rank: map<EntityId, nat>, cs: seq<EntityId>, bound: EntityId, i: nat)
    requires ChildrenOf(kids, rank, cs, bound) && i <= |cs|
    ensures ChildrenOf(kids, rank, cs[..i], bound)
    ensures i < |cs| ==>
      && ChildrenOf(kids, rank, cs[..i + 1], bound) && cs[i] in kids
      && SubOf(kids, rank, cs[..i + 1], bound) == SubOf(kids, rank, cs[..i], bound) + Sub(kids, rank, cs[i])
    ensures i == |cs| ==> bound in kids ==> cs == kids[bound] ==> Sub(kids, rank, bound) == {bound} + SubOf(kids, rank, cs[..i], bound)
  {
    ChildrenOfPrefix(kids, rank, cs, bound, i);
    if i < |cs| {
      ChildrenOfPrefix(kids, rank, cs, bound, i + 1);
      assert cs[..i + 1][..i] == cs[..i];
    } else {
      assert cs[..i] == cs;
    }
  }

  /** Taking away the subtrees of all children and then the node itself
      takes away the node's subtree. */
  lemma MinusSub<V>(m: map<EntityId, V>, kids: Kids, rank: map<EntityId, nat>, n: EntityId)
    requires RankedBy(kids, rank) && n in kids
    ensures ChildrenOf(kids, rank, kids[n][..|kids[n]|], n)
    ensures (m - SubOf(kids, rank, kids[n][..|kids[n]|], n)) - {n} == m - Sub(kids, rank, n)
  {
    ChildrenOfNode(kids, rank, n);
    SubOfSnoc(kids, rank, kids[n], n, |kids[n]|);
    MinusTwice(m, SubOf(kids, rank, kids[n][..|kids[n]|], n), {n});
  }

  /** Removing two sets of keys one after the other. */
  lemma MinusTwice<V>(m: map<EntityId, V>, a: set<EntityId>, b: set<EntityId>)
    ensures (m - a) - b == m - (a + b)
  {
  }

  /** Removing a leaf. */
  lemma PrunedLeaf(nodes: Nodes, rank: map<EntityId, nat>, e: EntityId)
    requires RankedBy(Children(nodes), rank) && e in nodes && nodes[e].children == [] && nodes[e].parent != Some(e)
    ensures Sub(Children(nodes), rank, e) == {e}
    ensures Pruned(nodes, rank, e) == Unlinked(nodes, nodes[e].parent, e) - {e}
  {
    assert Sub(Children(nodes), rank, e) == {e};
  }

  /** The world a node inherits: its parent's cached world, or the identity
      at a node without a parent. */
  ghost function ParentWorld(nodes: Nodes, e: EntityId): Mat
    requires e in nodes
  {
    var p := nodes[e].parent;
    if p.Some? && p.value in nodes then nodes[p.value].world else Identity()
  }

  /** The cached world of `e` is the one a propagation would give it. */
  ghost predicate ConsistentAt(nodes: Nodes, e: EntityId)
    requires e in nodes
  {
    nodes[e].world == Mul(ParentWorld(nodes, e), nodes[e].local)
  }

  /** The world invariant of the scene design: every node's world is its
      parent's world (the identity at a parentless node) times its local
      transform. */
  ghost predicate Consistent(nodes: Nodes) {
    forall e :: e in nodes ==> ConsistentAt(nodes, e)
  }

  /** The parent of the top of a subtree, or of a node outside it, lies
      outside the subtree. */
  lemma ParentOutsideSub(nodes: Nodes, rank: map<EntityId, nat>, c: EntityId, x: EntityId)
    requires Linked(nodes) && RankedBy(Children(nodes), rank) && c in nodes && x in nodes
    requires x == c || x !in Sub(Children(nodes), rank, c)
    requires nodes[x].parent.Some?
    ensures nodes[x].parent.value in nodes && nodes[x].parent.value !in Sub(Children(nodes), rank, c)
  {
    var K, p := Children(nodes), nodes[x].parent.value;
    var j :| 0 <= j < |nodes[p].children| && nodes[p].children[j] == x;
    assert K[p][j] == x;
    if p in Sub(K, rank, c) {
      SubClosed(K, rank, c, p, j);
      SubBound(K, rank, c, p);
    }
  }

  /** What `WithWorlds` keeps of one node. */
  lemma WithWorldsAt(nodes: Nodes, worlds: map<EntityId, Mat>, x: EntityId)
    requires x in nodes
    ensures var r := WithWorlds(nodes, worlds);
      && x in r && r[x].parent == nodes[x].parent && r[x].local == nodes[x].local
      && r[x].world == (if x in worlds then worlds[x] else nodes[x].world)
  {
  }

  /** Propagating from `c` with the world its parent passes down makes every
      world consistent, provided every node other than `c` was consistent:
      the subtree of `c` is recomputed top-down, and no node outside it has
      its parent inside it. */
  lemma PropagatedConsistent(nodes: Nodes, rank: map<EntityId, nat>, c: EntityId)
    requires Linked(nodes) && RankedBy(Children(nodes), rank) && c in nodes
    requires forall x :: x in nodes && x != c ==> ConsistentAt(nodes, x)
    ensures Consistent(WithWorlds(nodes, Worlds(Children(nodes), Locals(nodes), rank, c, ParentWorld(nodes, c))))
  {
    var r := WithWorlds(nodes, Worlds(Children(nodes), Locals(nodes), rank, c, ParentWorld(nodes, c)));
    forall x | x in r ensures ConsistentAt(r, x) {
      PropagatedConsistentAt(nodes, rank, c, x);
    }
  }

  /** `PropagatedConsistent` at one node. */
  lemma PropagatedConsistentAt(nodes: Nodes, rank: map<EntityId, nat>, c: EntityId, x: EntityId)
    requires Linked(nodes) && RankedBy(Children(nodes), rank) && c in nodes && x in nodes
    requires x != c ==> ConsistentAt(nodes, x)
    ensures var r := WithWorlds(nodes, Worlds(Children(nodes), Locals(nodes), rank, c, ParentWorld(nodes, c)));
      x in r && ConsistentAt(r, x)
  {
    var K, L, pw := Children(nodes), Locals(nodes), ParentWorld(nodes, c);
    var worlds := Worlds(K, L, rank, c, pw);
    var r := WithWorlds(nodes, worlds);
    var S := Sub(K, rank, c);
    WorldsKeys(K, L, rank, c, pw);
    WithWorldsAt(nodes, worlds, x);
    assert L[x] == nodes[x].local;
    if x == c || x !in S {
      if nodes[x].parent.Some? {
        ParentOutsideSub(nodes, rank, c, x);
        WithWorldsAt(nodes, worlds, nodes[x].parent.value);
      }
      if x == c {
        WorldsAtTop(K, L, rank, c, pw);
      }
    } else {
      var q, j := SubParent(K, rank, c, x);
      assert nodes[q].children[j] == x;
      LinkedUnique(nodes);
      WorldsPropagate(K, L, rank, c, pw, q, j);
      WithWorldsAt(nodes, worlds, q);
    }
  }

  /** `RemoveEntity` keeps the invariant: no remaining node loses its
      parent, and no world or local changes. */
  lemma PrunedConsistent(nodes: Nodes, rank: map<EntityId, nat>, root: Option<EntityId>, e: EntityId)
    requires Tree(nodes, rank, root) && Consistent(nodes) && e in nodes
    ensures Consistent(Pruned(nodes, rank, e))
  {
    var r := Pruned(nodes, rank, e);
    PrunedKeeps(nodes, rank, e);
    assert Linked(nodes) && RankedBy(Children(nodes), rank);
    hide Pruned, Tree, Sub, Children;
    forall x | x in r ensures ConsistentAt(r, x) {
      assert ConsistentAt(nodes, x);
      if nodes[x].parent.Some? {
        ParentOutsideSub(nodes, rank, e, x);
      }
    }
  }

  /** `Pruned` changes no world, local or parent of a remaining node. */
  lemma PrunedKeeps(nodes: Nodes, rank: map<EntityId, nat>, e: EntityId)
    requires RankedBy(Children(nodes), rank) && e in nodes
    ensures var r := Pruned(nodes, rank, e);
      forall x :: x in r ==> r[x].world == nodes[x].world && r[x].local == nodes[x].local && r[x].parent == nodes[x].parent
  {
  }

  /** `Relinked` changes no world, and only the parent and local of `c`. */
  lemma RelinkedKeeps(nodes: Nodes, c: EntityId, np: EntityId, local: Mat)
    requires c in nodes && np in nodes && np != c
    ensures var r := Relinked(nodes, c, np, local);
      && r[c].parent == Some(np) && r[c].local == local
      && forall x :: x in nodes ==>
        && r[x].world == nodes[x].world
        && (x != c ==> r[x].local == nodes[x].local && r[x].parent == nodes[x].parent)
  {
  }

  /** An edit that changes no world, and no parent or local except at `c`,
      keeps every node other than `c` consistent. */
  lemma EditedConsistent(nodes: Nodes, r: Nodes, c: EntityId)
    requires Consistent(nodes) && r.Keys == nodes.Keys
    requires forall x :: x in nodes ==>
      && r[x].world == nodes[x].world
      && (x != c ==> r[x].local == nodes[x].local && r[x].parent == nodes[x].parent)
    ensures forall x :: x in r && x != c ==> ConsistentAt(r, x)
  {
    forall x | x in r && x != c ensures ConsistentAt(r, x) {
      assert ConsistentAt(nodes, x);
    }
  }

  /** `AttachEntity` and `DetachEntity` keep the invariant: moving `c` below
      `np` with any local transform and then propagating from `c` with the
      world of `np` leaves every world consistent. */
  lemma RelinkedConsistent(nodes: Nodes, rank: map<EntityId, nat>, root: Option<EntityId>, c: EntityId, np: EntityId, local: Mat)
    requires Tree(nodes, rank, root) && Consistent(nodes)
    requires c in nodes && np in nodes && np !in Sub(Children(nodes), rank, c)
    ensures c != np
    ensures var mid, rank' := Relinked(nodes, c, np, local), Rerank(nodes, rank, c);
      && c in mid && RankedBy(Children(mid), rank')
      && Consistent(WithWorlds(mid, Worlds(Children(mid), Locals(mid), rank', c, nodes[np].world)))
  {
    if root.Some? {
      RootCovers(nodes, rank, root.value);
    }
    RelinkedTree(nodes, rank, root, c, np, local);
    var mid, rank' := Relinked(nodes, c, np, local), Rerank(nodes, rank, c);
    RelinkedKeeps(nodes, c, np, local);
    hide Relinked, Rerank;
    EditedConsistent(nodes, mid, c);
    assert ParentWorld(mid, c) == nodes[np].world;
    hide Sub, Worlds, WithWorlds, Locals;
    PropagatedConsistent(mid, rank', c);
  }

  /** `SetWorldTransform` keeps the invariant: a new local transform at `e`,
      propagated from `e` with the world its parent passes down, leaves
      every world consistent. */
  lemma RelocalConsistent(nodes: Nodes, rank: map<EntityId, nat>, root: Option<EntityId>, e: EntityId, local: Mat)
    requires Tree(nodes, rank, root) && Consistent(nodes) && e in nodes
    ensures var mid := Relocal(nodes, e, local);
      && RankedBy(Children(mid), rank) && e in mid
      && Consistent(WithWorlds(mid, Worlds(Children(mid), Locals(mid), rank, e, ParentWorld(nodes, e))))
  {
    var mid := Relocal(nodes, e, local);
    RelocalTree(nodes, rank, root, e, local);
    assert Linked(mid) && RankedBy(Children(mid), rank);
    RelocalKeeps(nodes, e, local);
    hide Relocal, Tree;
    EditedConsistent(nodes, mid, e);
    assert ParentWorld(mid, e) == ParentWorld(nodes, e);
    hide Sub, Worlds, WithWorlds, Locals, Linked, RankedBy, Children;
    PropagatedConsistent(mid, rank, e);
  }

  /** `Relocal` changes no world and no parent, and only the local of `e`. */
  lemma RelocalKeeps(nodes: Nodes, e: EntityId, local: Mat)
    requires e in nodes
    ensures var r := Relocal(nodes, e, local);
      forall x :: x in nodes ==>
        && r[x].world == nodes[x].world && r[x].parent == nodes[x].parent
        && (x != e ==> r[x].local == nodes[x].local)
  {
  }

  /** As written, `CreateEntity` breaks the invariant below a parent whose
      world is not the identity: the new leaf gets the identity world while
      its parent passes down another one. */
  lemma PlacedInconsistent(nodes: Nodes, entity: EntityId, at: Option<EntityId>)
    requires entity !in nodes && at.Some? && at.value in nodes
    requires RightNeutral() && nodes[at.value].world != Identity()
    ensures entity in Placed(nodes, entity, at) && !ConsistentAt(Placed(nodes, entity, at), entity)
    ensures !Consistent(Placed(nodes, entity, at))
  {
    PlacedShape(nodes, entity, at);
  }

  /** `CreateEntity` as the invariant requires it: the new leaf's world is
      the world it inherits times its identity local transform. */
  ghost function PlacedIntended(nodes: Nodes, entity: EntityId, at: Option<EntityId>): (r: Nodes)
    requires at.Some? ==> at.value in nodes
    ensures r.Keys == nodes.Keys + {entity}
  {
    var inherited := if at.Some? then nodes[at.value].world else Identity();
    WithWorlds(Placed(nodes, entity, at), map[entity := Mul(inherited, Identity())])
  }

  /** The corrected creation keeps both the tree shape and the invariant. */
  lemma PlacedIntendedConsistent(nodes: Nodes, rank: map<EntityId, nat>, root: Option<EntityId>, entity: EntityId, at: Option<EntityId>)
    requires Tree(nodes, rank, root) && Consistent(nodes) && entity !in nodes
    requires at.Some? ==> at.value in nodes
    requires root.Some? ==> at.Some?
    ensures Tree(PlacedIntended(nodes, entity, at), Lifted(nodes, rank, entity), if at.None? then Some(entity) else root)
    ensures Consistent(PlacedIntended(nodes, entity, at))
  {
    var inherited := if at.Some? then nodes[at.value].world else Identity();
    PlacedTree(nodes, rank, root, entity, at);
    WithWorldsTree(Placed(nodes, entity, at), Lifted(nodes, rank, entity), if at.None? then Some(entity) else root, map[entity := Mul(inherited, Identity())]);
    assert forall x :: x in nodes && nodes[x].parent.Some? ==> nodes[x].parent.value in nodes;
    PlacedIntendedKeeps(nodes, entity, at);
    var r := PlacedIntended(nodes, entity, at);
    hide PlacedIntended, Tree, Placed, Lifted, WithWorlds, Linked;
    forall x | x in r ensures ConsistentAt(r, x) {
      if x != entity {
        assert ConsistentAt(nodes, x);
      }
    }
  }

  /** What `PlacedIntended` keeps of the old nodes, and the new leaf. */
  lemma PlacedIntendedKeeps(nodes: Nodes, entity: EntityId, at: Option<EntityId>)
    requires entity !in nodes && (at.Some? ==> at.value in nodes)
    ensures var r := PlacedIntended(nodes, entity, at);
      && entity in r && r[entity].parent == at && r[entity].local == Identity()
      && r[entity].world == Mul(if at.Some? then nodes[at.value].world else Identity(), Identity())
      && forall x :: x in nodes ==>
        r[x].world == nodes[x].world && r[x].local == nodes[x].local && r[x].parent == nodes[x].parent
  {
    PlacedShape(nodes, entity, at);
  }
}
