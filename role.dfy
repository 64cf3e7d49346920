/** The role document (`models/Role.js`): its pre-save level hook, the
    effective-permission walk up the parent chain, the permission test built on
    it, and the nested hierarchy built from the parentless roles down. */
module RoleModel {
  import opened Common
  import opened Hierarchy

  /** A role document. `perms` keeps the stored permission references in
      order (the schema does not exclude repeats); `parent` is `parentRole`;
      `level` is the stored level. */
  datatype Role = Role(name: string, description: string, perms: seq<PermId>, parent: Option<RoleId>, level: int)

  /** The role collection, keyed by document id. */
  type Store = map<RoleId, Role>

  /** The permission collection: the name of every stored permission.
      `populate('permissions')` keeps only references that occur here. */
  type Catalog = map<PermId, string>

  /** The `parentRole` reference of every stored role. */
  function ParentLinks(store: Store): (links: Links)
    ensures links.Keys == store.Keys
    ensures forall id :: id in store ==> links[id] == store[id].parent
  {
    map id | id in store :: store[id].parent
  }

  // ---------------------------------------------------------------------
  // Population and set semantics

  /** The permission references that survive `populate`: those naming a
      stored permission, in stored order. */
  function Populated(perms: seq<PermId>, catalog: Catalog): (r: seq<PermId>)
    ensures forall p :: p in r <==> p in perms && p in catalog
    ensures |r| <= |perms|
  {
    if perms == [] then []
    else (if perms[0] in catalog then [perms[0]] else []) + Populated(perms[1..], catalog)
  }

  /** `populate` keeps the stored order: populating two lists one after the
      other is populating their concatenation. */
  lemma {:induction false} PopulatedAppend(xs: seq<PermId>, ys: seq<PermId>, catalog: Catalog)
    ensures Populated(xs + ys, catalog) == Populated(xs, catalog) + Populated(ys, catalog)
    decreases |xs|
  {
    if xs != [] {
      assert (xs + ys)[1..] == xs[1..] + ys;
      PopulatedAppend(xs[1..], ys, catalog);
    } else {
      assert xs + ys == ys;
    }
  }

  /** Adding `xs` one by one to an insertion-ordered set `acc` of id values:
      a value already present is not added again. */
  function AddAll(acc: seq<PermId>, xs: seq<PermId>): (r: seq<PermId>)
    ensures forall p :: p in r <==> p in acc || p in xs
    ensures Distinct(acc) ==> Distinct(r)
    ensures acc <= r
    decreases |xs|
  {
    if xs == [] then acc
    else AddAll(if xs[0] in acc then acc else acc + [xs[0]], xs[1..])
  }

  lemma {:induction false} AddAllAppend(acc: seq<PermId>, xs: seq<PermId>, ys: seq<PermId>)
    ensures AddAll(acc, xs + ys) == AddAll(AddAll(acc, xs), ys)
    decreases |xs|
  {
    if xs == [] {
      assert xs + ys == ys;
    } else {
      assert (xs + ys)[0] == xs[0];
      assert (xs + ys)[1..] == xs[1..] + ys;
      AddAllAppend(if xs[0] in acc then acc else acc + [xs[0]], xs[1..], ys);
    }
  }

  /** Adds each element of `xs` to the set held in `acc`, in order. */
  method AddEach(acc: seq<PermId>, xs: seq<PermId>) returns (r: seq<PermId>)
    ensures r == AddAll(acc, xs)
  {
    r := acc;
    for i := 0 to |xs|
      invariant r == AddAll(acc, xs[..i])
    {
      assert xs[..i + 1] == xs[..i] + [xs[i]];
      AddAllAppend(acc, xs[..i], [xs[i]]);
      AddOne(r, xs[i]);
      if xs[i] !in r {
        r := r + [xs[i]];
      }
    }
    assert xs[..|xs|] == xs;
  }

  lemma AddOne(acc: seq<PermId>, x: PermId)
    ensures AddAll(acc, [x]) == if x in acc then acc else acc + [x]
  {
    assert [x][1..] == [];
  }

  // ---------------------------------------------------------------------
  // Effective permissions

  /** The permissions a walk from `cur` collects: every stored role it meets
      contributes its populated permissions, in walk order; the walk ends at
      a null or dangling reference. */
  function AncestorPerms(store: Store, catalog: Catalog, cur: Option<RoleId>): seq<PermId>
    requires Grounded(ParentLinks(store), cur)
    decreases Depth(ParentLinks(store), cur)
  {
    if !Present(ParentLinks(store), cur) then []
    else
      DepthOfChild(ParentLinks(store), cur.value);
      Populated(store[cur.value].perms, catalog) + AncestorPerms(store, catalog, store[cur.value].parent)
  }

  /** Some stored role met on the walk from `cur` holds `p`, and `p` names a
      stored permission. */
  ghost predicate Inherits(store: Store, catalog: Catalog, cur: Option<RoleId>, p: PermId)
  {
    exists k: nat :: Present(ParentLinks(store), Up(ParentLinks(store), cur, k))
      && p in store[Up(ParentLinks(store), cur, k).value].perms && p in catalog
  }

  lemma {:induction false} AncestorPermsMembers(store: Store, catalog: Catalog, cur: Option<RoleId>)
    requires Grounded(ParentLinks(store), cur)
    ensures forall p :: p in AncestorPerms(store, catalog, cur) <==> Inherits(store, catalog, cur, p)
    decreases Depth(ParentLinks(store), cur)
  {
    var links := ParentLinks(store);
    if !Present(links, cur) {
      forall p | Inherits(store, catalog, cur, p)
        ensures false
      {
        var k: nat :| Present(links, Up(links, cur, k)) && p in store[Up(links, cur, k).value].perms && p in catalog;
        StoppedUp(links, cur, k);
      }
    } else {
      var c := cur.value;
      DepthOfChild(links, c);
      var parent := store[c].parent;
      AncestorPermsMembers(store, catalog, parent);
      forall p
        ensures p in AncestorPerms(store, catalog, cur) <==> Inherits(store, catalog, cur, p)
      {
        if p in Populated(store[c].perms, catalog) {
          assert Up(links, cur, 0) == cur;
        } else if Inherits(store, catalog, parent, p) {
          var k: nat :| Present(links, Up(links, parent, k)) && p in store[Up(links, parent, k).value].perms && p in catalog;
          assert Up(links, cur, k + 1) == Up(links, parent, k);
        }
        if Inherits(store, catalog, cur, p) {
          var k: nat :| Present(links, Up(links, cur, k)) && p in store[Up(links, cur, k).value].perms && p in catalog;
          if k > 0 {
            assert Up(links, cur, k) == Up(links, parent, k - 1);
          }
        }
      }
    }
  }

  /** The list `getEffectivePermissions` returns as written: the role's own
      references, then every permission id collected up the chain. The `Set`
      it is built in holds id objects, which a `Set` compares by identity, so
      no two entries are ever merged. */
  function EffectiveListAsWritten(store: Store, catalog: Catalog, self: Role): (ps: seq<PermId>)
    requires Grounded(ParentLinks(store), self.parent)
    ensures forall p :: p in ps <==> p in self.perms || Inherits(store, catalog, self.parent, p)
  {
    AncestorPermsMembers(store, catalog, self.parent);
    self.perms + AncestorPerms(store, catalog, self.parent)
  }

  /** As written, a permission held by a role and by its parent is listed twice. */
  lemma DuplicateGrantAsWritten()
    ensures
      var store := map[0 := Role("base", "", [7], None, 0), 1 := Role("child", "", [7], Some(0), 1)];
      Grounded(ParentLinks(store), store[1].parent)
      && EffectiveListAsWritten(store, map[7 := "read"], store[1]) == [7, 7]
      && !Distinct(EffectiveListAsWritten(store, map[7 := "read"], store[1]))
  {
    var store := map[0 := Role("base", "", [7], None, 0), 1 := Role("child", "", [7], Some(0), 1)];
    var links := ParentLinks(store);
    assert links == map[0 := None, 1 := Some(0)];
    assert Up(links, Some(0), 2) == None;
    assert Populated([7], map[7 := "read"]) == [7];
    var listed := EffectiveListAsWritten(store, map[7 := "read"], store[1]);
    assert listed == [7, 7];
    assert listed[0] == listed[1];
  }

  /** `getEffectivePermissions` with the set keyed by id value, as the `Set`
      evidently intends: the own permissions, then those inherited up the
      chain, each listed once, in first-seen order. */
  method GetEffectivePermissions(store: Store, catalog: Catalog, self: Role) returns (perms: seq<PermId>)
    requires Grounded(ParentLinks(store), self.parent)
    ensures perms == AddAll([], EffectiveListAsWritten(store, catalog, self))
    ensures Distinct(perms)
    ensures forall p :: p in perms <==> p in self.perms || Inherits(store, catalog, self.parent, p)
  {
    var links := ParentLinks(store);
    perms := AddEach([], self.perms);
    AddAllAppend([], self.perms, AncestorPerms(store, catalog, self.parent));
    var current := self.parent;
    while current.Some?
      invariant Grounded(links, current)
      invariant Distinct(perms)
      invariant AddAll(perms, AncestorPerms(store, catalog, current)) == AddAll([], EffectiveListAsWritten(store, catalog, self))
      decreases Depth(links, current)
    {
      if current.value in store {
        var role := store[current.value];
        DepthOfChild(links, current.value);
        AddAllAppend(perms, Populated(role.perms, catalog), AncestorPerms(store, catalog, role.parent));
        perms := AddEach(perms, Populated(role.perms, catalog));
        current := role.parent;
      } else {
        break;
      }
    }
  }

  /** `hasPermission`: membership in the effective permissions. */
  method HasPermission(store: Store, catalog: Catalog, self: Role, p: PermId) returns (has: bool)
    requires Grounded(ParentLinks(store), self.parent)
    ensures has <==> p in self.perms || Inherits(store, catalog, self.parent, p)
  {
    var perms := GetEffectivePermissions(store, catalog, self);
    has := p in perms;
  }

  /** Nothing above the first null or dangling reference contributes: the
      permissions inherited from `cur` are those of the roles met before the
      walk stops. */
  lemma {:induction false} InheritsOnlyBeforeStop(store: Store, catalog: Catalog, cur: Option<RoleId>, n: nat, p: PermId)
    requires !Present(ParentLinks(store), Up(ParentLinks(store), cur, n))
    ensures Inherits(store, catalog, cur, p) <==>
      exists k: nat :: k < n && Present(ParentLinks(store), Up(ParentLinks(store), cur, k))
        && p in store[Up(ParentLinks(store), cur, k).value].perms && p in catalog
  {
    var links := ParentLinks(store);
    if Inherits(store, catalog, cur, p) {
      var k: nat :| Present(links, Up(links, cur, k)) && p in store[Up(links, cur, k).value].perms && p in catalog;
      if k >= n {
        StoppedStays(links, cur, n, k - n);
        assert false;
      }
      assert k < n && Present(links, Up(links, cur, k)) && p in store[Up(links, cur, k).value].perms && p in catalog;
    }
    if exists k: nat :: k < n && Present(links, Up(links, cur, k)) && p in store[Up(links, cur, k).value].perms && p in catalog {
      var k: nat :| k < n && Present(links, Up(links, cur, k)) && p in store[Up(links, cur, k).value].perms && p in catalog;
      assert Present(links, Up(links, cur, k)) && p in store[Up(links, cur, k).value].perms && p in catalog;
    }
  }

  // ---------------------------------------------------------------------
  // The nested hierarchy

  /** A node of the nested hierarchy: a role and the roles hanging from it. */
  datatype RoleNode = RoleNode(id: RoleId, name: string, description: string, perms: seq<PermId>, level: int, children: seq<RoleNode>)

  /** The ids of the top nodes of a forest, in order. */
  function Tops(nodes: seq<RoleNode>): (ids: seq<RoleId>)
    ensures |ids| == |nodes| && forall i :: 0 <= i < |nodes| ==> ids[i] == nodes[i].id
  {
    seq(|nodes|, i requires 0 <= i < |nodes| => nodes[i].id)
  }

  /** The listed roles whose populated parent is `key`, in listing order;
      for the null key, the roles with no stored parent. */
  function Children(store: Store, docs: seq<RoleId>, key: Option<RoleId>): (cs: seq<RoleId>)
    requires forall d :: d in docs ==> d in store
    ensures forall c :: c in cs ==> c in store
    ensures forall c :: c in cs <==> c in docs && Resolved(ParentLinks(store), c) == key
  {
    if docs == [] then []
    else (if Resolved(ParentLinks(store), docs[0]) == key then [docs[0]] else []) + Children(store, docs[1..], key)
  }

  /** The filter keeps the listing order: the children found in two
      listings one after the other are the children found in their
      concatenation. */
  lemma {:induction false} ChildrenAppend(store: Store, xs: seq<RoleId>, ys: seq<RoleId>, key: Option<RoleId>)
    requires forall d :: d in xs + ys ==> d in store
    ensures Children(store, xs + ys, key) == Children(store, xs, key) + Children(store, ys, key)
    decreases |xs|
  {
    if xs != [] {
      assert (xs + ys)[1..] == xs[1..] + ys;
      ChildrenAppend(store, xs[1..], ys, key);
    } else {
      assert xs + ys == ys;
    }
  }

  /** `buildHierarchy(roles, key, level)`: one node per listed role hanging
      directly from `key`, each carrying the forest hanging from it. With
      `stored` a node shows the role's stored level, as the controller's
      variant does; otherwise it shows `level`, which grows by one per
      nesting step, as `Role.getHierarchy` does. */
  function Forest(store: Store, catalog: Catalog, docs: seq<RoleId>, key: Option<RoleId>, level: int, stored: bool): (nodes: seq<RoleNode>)
    requires forall d :: d in docs ==> d in store
    requires key.None? || (key.value in store && Grounded(ParentLinks(store), key))
    ensures Tops(nodes) == Children(store, docs, key)
    decreases |ParentLinks(store)| - Depth(ParentLinks(store), key), 2, 0
  {
    Nodes(store, catalog, docs, key, Children(store, docs, key), level, stored)
  }

  /** The nodes for the roles `cs`, all hanging directly from `key`. */
  function Nodes(store: Store, catalog: Catalog, docs: seq<RoleId>, key: Option<RoleId>, cs: seq<RoleId>, level: int, stored: bool): (nodes: seq<RoleNode>)
    requires forall d :: d in docs ==> d in store
    requires key.None? || (key.value in store && Grounded(ParentLinks(store), key))
    requires forall c :: c in cs ==> c in store && Resolved(ParentLinks(store), c) == key
    ensures Tops(nodes) == cs
    decreases |ParentLinks(store)| - Depth(ParentLinks(store), key), 1, |cs|
  {
    if cs == [] then []
    else
      ChildOfKey(ParentLinks(store), cs[0], key);
      [NodeFor(store, catalog, docs, cs[0], level, stored)] + Nodes(store, catalog, docs, key, cs[1..], level, stored)
  }

  /** The node of the stored role `c`, shown at `level`. */
  function NodeFor(store: Store, catalog: Catalog, docs: seq<RoleId>, c: RoleId, level: int, stored: bool): (node: RoleNode)
    requires forall d :: d in docs ==> d in store
    requires c in store && Grounded(ParentLinks(store), Some(c))
    ensures node.id == c
    decreases |ParentLinks(store)| - Depth(ParentLinks(store), Some(c)) + 1, 0, 0
  {
    var role := store[c];
    RoleNode(c, role.name, role.description, Populated(role.perms, catalog), if stored then role.level else level,
             Forest(store, catalog, docs, Some(c), level + 1, stored))
  }

  /** Every role anywhere in a forest. */
  ghost function Ids(nodes: seq<RoleNode>): set<RoleId>
    decreases nodes
  {
    if nodes == [] then {} else {nodes[0].id} + Ids(nodes[0].children) + Ids(nodes[1..])
  }

  /** `x` is one of the roles `cs` or lies in a tree hanging from one of them. */
  ghost predicate InSubtrees(links: Links, cs: seq<RoleId>, x: RoleId)
  {
    exists c :: c in cs && (x == c || Under(links, x, Some(c)))
  }

  lemma InSubtreesCons(links: Links, cs: seq<RoleId>, x: RoleId)
    requires cs != []
    ensures InSubtrees(links, cs, x) <==> x == cs[0] || Under(links, x, Some(cs[0])) || InSubtrees(links, cs[1..], x)
  {
    if InSubtrees(links, cs, x) {
      var d :| d in cs && (x == d || Under(links, x, Some(d)));
      if d != cs[0] {
        assert d in cs[1..];
      }
    }
    if InSubtrees(links, cs[1..], x) {
      var d :| d in cs[1..] && (x == d || Under(links, x, Some(d)));
      assert d in cs;
    }
    if x == cs[0] || Under(links, x, Some(cs[0])) {
      assert cs[0] in cs;
    }
  }

  lemma {:induction false} ForestIds(store: Store, catalog: Catalog, docs: seq<RoleId>, key: Option<RoleId>, level: int, stored: bool)
    requires forall d :: d in docs <==> d in store
    requires key.None? || (key.value in store && Grounded(ParentLinks(store), key))
    ensures forall x :: x in Ids(Forest(store, catalog, docs, key, level, stored)) <==> Under(ParentLinks(store), x, key)
    decreases |ParentLinks(store)| - Depth(ParentLinks(store), key), 2, 0
  {
    var links := ParentLinks(store);
    var cs := Children(store, docs, key);
    NodesIds(store, catalog, docs, key, cs, level, stored);
    forall x
      ensures Under(links, x, key) <==> InSubtrees(links, cs, x)
    {
      UnderStep(links, x, key);
    }
  }

  lemma {:induction false} NodesIds(store: Store, catalog: Catalog, docs: seq<RoleId>, key: Option<RoleId>, cs: seq<RoleId>, level: int, stored: bool)
    requires forall d :: d in docs <==> d in store
    requires key.None? || (key.value in store && Grounded(ParentLinks(store), key))
    requires forall c :: c in cs ==> c in store && Resolved(ParentLinks(store), c) == key
    ensures forall x :: x in Ids(Nodes(store, catalog, docs, key, cs, level, stored)) <==> InSubtrees(ParentLinks(store), cs, x)
    decreases |ParentLinks(store)| - Depth(ParentLinks(store), key), 1, |cs|
  {
    if cs != [] {
      var links := ParentLinks(store);
      var c := cs[0];
      ChildOfKey(links, c, key);
      ForestIds(store, catalog, docs, Some(c), level + 1, stored);
      NodesIds(store, catalog, docs, key, cs[1..], level, stored);
      var nodes := Nodes(store, catalog, docs, key, cs, level, stored);
      assert nodes[0] == NodeFor(store, catalog, docs, c, level, stored);
      assert nodes[1..] == Nodes(store, catalog, docs, key, cs[1..], level, stored);
      assert Ids(nodes) == {c} + Ids(nodes[0].children) + Ids(nodes[1..]);
      forall x
        ensures x in Ids(nodes) <==> InSubtrees(links, cs, x)
      {
        InSubtreesCons(links, cs, x);
      }
    }
  }

  /** Each node shows a stored role with its populated permissions, and under
      it exactly the listed roles whose populated parent it is, in listing
      order. */
  ghost predicate WellNested(store: Store, catalog: Catalog, docs: seq<RoleId>, nodes: seq<RoleNode>)
    requires forall d :: d in docs ==> d in store
    decreases nodes
  {
    nodes == [] ||
      (nodes[0].id in store
       && nodes[0].name == store[nodes[0].id].name
       && nodes[0].description == store[nodes[0].id].description
       && nodes[0].perms == Populated(store[nodes[0].id].perms, catalog)
       && Tops(nodes[0].children) == Children(store, docs, Some(nodes[0].id))
       && WellNested(store, catalog, docs, nodes[0].children)
       && WellNested(store, catalog, docs, nodes[1..]))
  }

  /** Every node's level is the number of roles above it in the tree. */
  ghost predicate LevelsAreDepths(links: Links, nodes: seq<RoleNode>)
    decreases nodes
  {
    nodes == [] ||
      (nodes[0].level + 1 == Depth(links, Some(nodes[0].id))
       && LevelsAreDepths(links, nodes[0].children)
       && LevelsAreDepths(links, nodes[1..]))
  }

  /** Every node's level is the role's stored level. */
  ghost predicate LevelsAreStored(store: Store, nodes: seq<RoleNode>)
    decreases nodes
  {
    nodes == [] ||
      (nodes[0].id in store && nodes[0].level == store[nodes[0].id].level
       && LevelsAreStored(store, nodes[0].children)
       && LevelsAreStored(store, nodes[1..]))
  }

  lemma {:induction false} ForestShape(store: Store, catalog: Catalog, docs: seq<RoleId>, key: Option<RoleId>, level: int, stored: bool)
    requires forall d :: d in docs ==> d in store
    requires key.None? || (key.value in store && Grounded(ParentLinks(store), key))
    ensures WellNested(store, catalog, docs, Forest(store, catalog, docs, key, level, stored))
    decreases |ParentLinks(store)| - Depth(ParentLinks(store), key), 2, 0
  {
    NodesShape(store, catalog, docs, key, Children(store, docs, key), level, stored);
  }

  lemma {:induction false} NodesShape(store: Store, catalog: Catalog, docs: seq<RoleId>, key: Option<RoleId>, cs: seq<RoleId>, level: int, stored: bool)
    requires forall d :: d in docs ==> d in store
    requires key.None? || (key.value in store && Grounded(ParentLinks(store), key))
    requires forall c :: c in cs ==> c in store && Resolved(ParentLinks(store), c) == key
    ensures WellNested(store, catalog, docs, Nodes(store, catalog, docs, key, cs, level, stored))
    decreases |ParentLinks(store)| - Depth(ParentLinks(store), key), 1, |cs|
  {
    if cs != [] {
      var c := cs[0];
      ChildOfKey(ParentLinks(store), c, key);
      ForestShape(store, catalog, docs, Some(c), level + 1, stored);
      NodesShape(store, catalog, docs, key, cs[1..], level, stored);
      var nodes := Nodes(store, catalog, docs, key, cs, level, stored);
      assert nodes[0] == NodeFor(store, catalog, docs, c, level, stored);
      assert nodes[1..] == Nodes(store, catalog, docs, key, cs[1..], level, stored);
    }
  }

  lemma {:induction false} ForestLevels(store: Store, catalog: Catalog, docs: seq<RoleId>, key: Option<RoleId>, level: int, stored: bool)
    requires forall d :: d in docs ==> d in store
    requires key.None? || (key.value in store && Grounded(ParentLinks(store), key))
    requires stored || level == Depth(ParentLinks(store), key)
    ensures stored ==> LevelsAreStored(store, Forest(store, catalog, docs, key, level, stored))
    ensures !stored ==> LevelsAreDepths(ParentLinks(store), Forest(store, catalog, docs, key, level, stored))
    decreases |ParentLinks(store)| - Depth(ParentLinks(store), key), 2, 0
  {
    NodesLevels(store, catalog, docs, key, Children(store, docs, key), level, stored);
  }

  lemma {:induction false} NodesLevels(store: Store, catalog: Catalog, docs: seq<RoleId>, key: Option<RoleId>, cs: seq<RoleId>, level: int, stored: bool)
    requires forall d :: d in docs ==> d in store
    requires key.None? || (key.value in store && Grounded(ParentLinks(store), key))
    requires forall c :: c in cs ==> c in store && Resolved(ParentLinks(store), c) == key
    requires stored || level == Depth(ParentLinks(store), key)
    ensures stored ==> LevelsAreStored(store, Nodes(store, catalog, docs, key, cs, level, stored))
    ensures !stored ==> LevelsAreDepths(ParentLinks(store), Nodes(store, catalog, docs, key, cs, level, stored))
    decreases |ParentLinks(store)| - Depth(ParentLinks(store), key), 1, |cs|
  {
    if cs != [] {
      var c := cs[0];
      ChildOfKey(ParentLinks(store), c, key);
      ForestLevels(store, catalog, docs, Some(c), level + 1, stored);
      NodesLevels(store, catalog, docs, key, cs[1..], level, stored);
      var node := NodeFor(store, catalog, docs, c, level, stored);
      var nodes := Nodes(store, catalog, docs, key, cs, level, stored);
      assert nodes[0] == node;
      assert nodes[1..] == Nodes(store, catalog, docs, key, cs[1..], level, stored);
      assert node.children == Forest(store, catalog, docs, Some(c), level + 1, stored);
    }
  }

  /** Stored levels agree with the hierarchy: one more than the stored
      parent's, and 0 for a role without a stored parent. */
  ghost predicate LevelsConsistent(store: Store)
  {
    forall x :: x in store ==>
      store[x].level == (if Resolved(ParentLinks(store), x).Some? then store[Resolved(ParentLinks(store), x).value].level + 1 else 0)
  }

  /** Where stored levels are consistent, a stored level is the number of
      roles above the role. */
  lemma {:induction false} StoredLevelIsDepth(store: Store, x: RoleId)
    requires LevelsConsistent(store) && x in store && Grounded(ParentLinks(store), Some(x))
    ensures store[x].level + 1 == Depth(ParentLinks(store), Some(x))
    decreases Depth(ParentLinks(store), Some(x))
  {
    var links := ParentLinks(store);
    DepthOfChild(links, x);
    if Resolved(links, x).Some? {
      StoredLevelIsDepth(store, links[x].value);
    }
  }

  /** Where stored levels are consistent, the forest with stored levels is the
      forest with nesting-depth levels. */
  lemma {:induction false} StoredForestIsDepthForest(store: Store, catalog: Catalog, docs: seq<RoleId>, key: Option<RoleId>, level: int)
    requires LevelsConsistent(store)
    requires forall d :: d in docs ==> d in store
    requires key.None? || (key.value in store && Grounded(ParentLinks(store), key))
    ensures Forest(store, catalog, docs, key, level, true) == Forest(store, catalog, docs, key, Depth(ParentLinks(store), key), false)
    decreases |ParentLinks(store)| - Depth(ParentLinks(store), key), 2, 0
  {
    StoredNodesAreDepthNodes(store, catalog, docs, key, Children(store, docs, key), level);
  }

  lemma {:induction false} StoredNodesAreDepthNodes(store: Store, catalog: Catalog, docs: seq<RoleId>, key: Option<RoleId>, cs: seq<RoleId>, level: int)
    requires LevelsConsistent(store)
    requires forall d :: d in docs ==> d in store
    requires key.None? || (key.value in store && Grounded(ParentLinks(store), key))
    requires forall c :: c in cs ==> c in store && Resolved(ParentLinks(store), c) == key
    ensures Nodes(store, catalog, docs, key, cs, level, true) == Nodes(store, catalog, docs, key, cs, Depth(ParentLinks(store), key), false)
    decreases |ParentLinks(store)| - Depth(ParentLinks(store), key), 1, |cs|
  {
    if cs != [] {
      var links := ParentLinks(store);
      var c := cs[0];
      ChildOfKey(links, c, key);
      StoredLevelIsDepth(store, c);
      StoredForestIsDepthForest(store, catalog, docs, Some(c), level + 1);
      StoredNodesAreDepthNodes(store, catalog, docs, key, cs[1..], level);
      assert NodeFor(store, catalog, docs, c, level, true) == NodeFor(store, catalog, docs, c, Depth(links, key), false);
    }
  }

  /** `Role.getHierarchy()`: the forest hanging from the roles without a
      stored parent, with levels counted by nesting from 0. `docs` is the
      order in which the query lists the stored roles. */
  function GetHierarchy(store: Store, catalog: Catalog, docs: seq<RoleId>): (forest: seq<RoleNode>)
    requires forall d :: d in docs <==> d in store
    ensures Tops(forest) == Children(store, docs, None)
    ensures WellNested(store, catalog, docs, forest)
    ensures LevelsAreDepths(ParentLinks(store), forest)
    ensures forall x :: x in Ids(forest) <==> x in store && Grounded(ParentLinks(store), Some(x))
    ensures Acyclic(ParentLinks(store)) ==> Ids(forest) == store.Keys
  {
    ForestIds(store, catalog, docs, None, 0, false);
    ForestShape(store, catalog, docs, None, 0, false);
    ForestLevels(store, catalog, docs, None, 0, false);
    Forest(store, catalog, docs, None, 0, false)
  }

  // ---------------------------------------------------------------------
  // The collection

  /** What an update request sets. An omitted field keeps its stored value;
      `parentRole: null` clears the parent. */
  datatype ParentChange = KeepParent | ClearParent | SetParent(id: RoleId)
  datatype RoleUpdate = RoleUpdate(name: Option<string>, description: Option<string>, perms: Option<seq<PermId>>, level: Option<int>, parent: ParentChange)

  function Apply(r: Role, u: RoleUpdate): Role
  {
    Role(if u.name.Some? then u.name.value else r.name,
         if u.description.Some? then u.description.value else r.description,
         if u.perms.Some? then u.perms.value else r.perms,
         match u.parent
           case KeepParent => r.parent
           case ClearParent => None
           case SetParent(p) => Some(p),
         if u.level.Some? then u.level.value else r.level)
  }

  /** The role collection, updated in place by document saves and by the
      controller's direct writes. */
  class RoleCollection {
    var roles: Store

    constructor (initial: Store)
      ensures roles == initial
    {
      roles := initial;
    }

    /** `doc.save()`: the pre-save hook sets the level to the stored parent's
        plus one when the parent reference names a stored role, then the
        document is written under `id`. */
    method Save(id: RoleId, doc: Role)
      modifies this
      ensures id in roles && roles == old(roles)[id := doc.(level := roles[id].level)]
      ensures Present(ParentLinks(old(roles)), doc.parent) ==> roles[id].level == old(roles)[doc.parent.value].level + 1
      ensures !Present(ParentLinks(old(roles)), doc.parent) ==> roles[id].level == doc.level
    {
      var level := doc.level;
      if doc.parent.Some? {
        if doc.parent.value in roles {
          level := roles[doc.parent.value].level + 1;
        }
      }
      roles := roles[id := doc.(level := level)];
    }

    /** `findByIdAndUpdate(id, update, {new: true})`: writes the update
        without running the pre-save hook and yields the updated document,
        or nothing when no role has that id. */
    method FindByIdAndUpdate(id: RoleId, u: RoleUpdate) returns (updated: Option<Role>)
      modifies this
      ensures id in old(roles) ==> updated == Some(Apply(old(roles)[id], u)) && roles == old(roles)[id := updated.value]
      ensures id !in old(roles) ==> updated == None && roles == old(roles)
    {
      if id in roles {
        var r := Apply(roles[id], u);
        roles := roles[id := r];
        updated := Some(r);
      } else {
        updated := None;
      }
    }

    /** `findByIdAndDelete(id)`. */
    method FindByIdAndDelete(id: RoleId)
      modifies this
      ensures roles == old(roles) - {id}
    {
      roles := roles - {id};
    }
  }
}
