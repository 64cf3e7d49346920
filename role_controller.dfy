/** The role handlers (`controllers/role.controller.js`): re-parenting with
    its existence and cycle checks, level propagation down the edited role's
    subtree, guarded deletion, cloning, creation, the effective-permission
    handler and the controller's own hierarchy builder. */
module RoleController {
  import opened Common
  import opened Hierarchy
  import opened RoleModel
  import opened UserModel

  /** The error answers of the role handlers. */
  datatype RoleError = RoleNotFound | SourceNotFound | ParentNotFound | CircularDependency | AssignedToUsers | HasChildRoles | DuplicateKey

  /** The HTTP status each error is answered with. `DuplicateKey` is the
      database's duplicate-key error, which the error handler answers with
      400. */
  function Status(e: RoleError): int
  {
    match e
    case RoleNotFound => 404
    case SourceNotFound => 404
    case _ => 400
  }

  // ---------------------------------------------------------------------
  // updateRole

  /** The cycle check of `updateRole`: starting at the stored role `from`,
      follow parent references while they name stored roles and report
      whether the role `id` is met. */
  method ParentChainReaches(store: Store, from: RoleId, id: RoleId) returns (hit: bool)
    requires from in store && Grounded(ParentLinks(store), Some(from))
    ensures hit <==> OnChain(ParentLinks(store), from, id)
  {
    var links := ParentLinks(store);
    var current := Some(from);
    ghost var steps: nat := 0;
    while Present(links, current)
      invariant current == Up(links, Some(from), steps)
      invariant Grounded(links, current)
      invariant forall i: nat :: i < steps ==> Up(links, Some(from), i) != Some(id)
      decreases Depth(links, current)
    {
      if current.value == id {
        return true;
      }
      DepthOfChild(links, current.value);
      UpAdd(links, Some(from), steps, 1);
      current := store[current.value].parent;
      steps := steps + 1;
    }
    forall k: nat | Up(links, Some(from), k) == Some(id) && id in links
      ensures false
    {
      if k >= steps {
        StoppedStays(links, Some(from), steps, k - steps);
      }
    }
    hit := false;
  }

  /** The parent change of an update passes the checks made before the
      write: a new parent must be stored and must not have `id` on its chain.
      Clearing or keeping the parent is not checked. */
  ghost predicate ParentAccepted(store: Store, id: RoleId, u: RoleUpdate)
  {
    u.parent.SetParent? ==> u.parent.id in store && !OnChain(ParentLinks(store), u.parent.id, id)
  }

  /** Writing a role changes the parent references only at its id. */
  lemma LinksAfterWrite(store: Store, id: RoleId, r: Role)
    ensures ParentLinks(store[id := r]) == ParentLinks(store)[id := r.parent]
  {
    var a, b := ParentLinks(store[id := r]), ParentLinks(store)[id := r.parent];
    assert a.Keys == b.Keys;
    forall x | x in a
      ensures a[x] == b[x]
    {
    }
  }

  /** Deleting a role removes only its own parent reference. */
  lemma LinksAfterRemoval(store: Store, id: RoleId)
    ensures ParentLinks(store - {id}) == ParentLinks(store) - {id}
  {
    var a, b := ParentLinks(store - {id}), ParentLinks(store) - {id};
    assert a.Keys == b.Keys;
    forall x | x in a
      ensures a[x] == b[x]
    {
    }
  }

  /** The store right after the update document is written to `id`. */
  function Written(store: Store, id: RoleId, u: RoleUpdate): Store
    requires id in store
  {
    store[id := Apply(store[id], u)]
  }

  /** `after` holds the same roles as `before`, differing at most in levels. */
  ghost predicate OnlyLevels(before: Store, after: Store)
  {
    after.Keys == before.Keys
    && forall x :: x in after ==> after[x] == before[x].(level := after[x].level)
  }

  /** Changing levels only leaves every parent reference as it was. */
  lemma OnlyLevelsKeepLinks(before: Store, after: Store)
    requires OnlyLevels(before, after)
    ensures ParentLinks(after) == ParentLinks(before)
  {
  }

  /** Every role that is not strictly below `r` is as in `before`. */
  ghost predicate UnchangedOutside(links: Links, before: Store, after: Store, r: RoleId)
  {
    forall x :: x in after && !Below(links, x, r) ==> x in before && after[x] == before[x]
  }

  /** Every role `k` steps below `r` has level `base + k`. */
  ghost predicate DistanceLevels(links: Links, after: Store, r: RoleId, base: int)
  {
    forall x, k: nat :: x in after && 0 < k && Up(links, Some(x), k) == Some(r) ==> after[x].level == base + k
  }

  /** The stored roles whose parent reference is `r`: what
      `Role.find({ parentRole: r })` returns. */
  function Kids(links: Links, r: RoleId): (kids: set<RoleId>)
    ensures forall c :: c in kids <==> c in links && links[c] == Some(r)
  {
    set c | c in links && links[c] == Some(r)
  }

  /** Loop state of `updateRoleLevels`: a role `k` steps below `r` whose
      walk passes through a finished child of `r` has level `base + k`; any
      other role below `r` is still as in `before`. */
  ghost predicate LevelledThrough(links: Links, before: Store, after: Store, r: RoleId, base: int, done: set<RoleId>)
  {
    forall x, k: nat :: x in after && 0 < k && Up(links, Some(x), k) == Some(r) ==>
      if Up(links, Some(x), k - 1) in OptionSet(done) then after[x].level == base + k
      else x in before && after[x] == before[x]
  }

  /** The references `Some(d)` for `d` in `ds`. */
  function OptionSet(ds: set<RoleId>): (os: set<Option<RoleId>>)
    ensures forall o :: o in os <==> o.Some? && o.value in ds
  {
    set d | d in ds :: Some(d)
  }

  /** A role is never strictly below itself in an acyclic store. */
  lemma NotBelowItself(links: Links, r: RoleId)
    requires Acyclic(links) && r in links
    ensures !Below(links, r, r)
  {
    forall k: nat | 0 < k
      ensures Up(links, Some(r), k) != Some(r)
    {
      NotOwnAncestor(links, r, k);
    }
  }

  /** After the child `c` of `r` and its subtree are processed, the roles
      outside `r`'s subtree are still untouched. */
  lemma ChildStepOutside(links: Links, before: Store, mid: Store, s2: Store, r: RoleId, c: RoleId, level: int)
    requires c in links && links[c] == Some(r)
    requires OnlyLevels(mid, s2)
    requires UnchangedOutside(links, before, mid, r)
    requires forall x :: x in s2 && x != c && !Below(links, x, c) ==> s2[x] == mid[x]
    ensures UnchangedOutside(links, before, s2, r)
  {
    forall x | x in s2 && !Below(links, x, r)
      ensures x in before && s2[x] == before[x]
    {
      if x == c {
        assert Up(links, Some(x), 1) == Some(r);
      }
      forall j: nat | 0 < j && Up(links, Some(x), j) == Some(c)
        ensures false
      {
        UpAdd(links, Some(x), j, 1);
      }
    }
  }

  /** After the child `c` of `r` and its subtree are processed, the roles
      whose walk passes through `c` have their distance level and the others
      keep what they had. */
  lemma ChildStepLevels(links: Links, before: Store, mid: Store, s2: Store, r: RoleId, c: RoleId, level: int, done: set<RoleId>)
    requires Acyclic(links) && r in links && c in links && links[c] == Some(r)
    requires forall d :: d in done ==> d in links && links[d] == Some(r)
    requires mid.Keys == links.Keys && OnlyLevels(mid, s2)
    requires LevelledThrough(links, before, mid, r, level, done)
    requires s2[c].level == level + 1
    requires forall x :: x in s2 && x != c && !Below(links, x, c) ==> s2[x] == mid[x]
    requires DistanceLevels(links, s2, c, level + 1)
    ensures LevelledThrough(links, before, s2, r, level, done + {c})
  {
    forall x, k: nat | x in s2 && 0 < k && Up(links, Some(x), k) == Some(r)
      ensures if Up(links, Some(x), k - 1) in OptionSet(done + {c}) then s2[x].level == level + k
              else x in before && s2[x] == before[x]
    {
      StepBefore(links, Some(x), k);
      var d := Up(links, Some(x), k - 1).value;
      AcyclicGrounded(links, Some(x));
      if d == c {
        if k == 1 {
          assert x == c;
        }
      } else {
        forall j: nat | 0 < j && Up(links, Some(x), j) == Some(c)
          ensures false
        {
          SiblingsOnOneWalk(links, x, c, d, r, j, k - 1);
        }
        if x == c {
          SiblingsOnOneWalk(links, x, c, d, r, 0, k - 1);
        }
        assert s2[x] == mid[x];
      }
    }
  }

  /** Once every child of `r` is finished, every role below `r` has its
      distance level. */
  lemma AllKidsDone(links: Links, before: Store, after: Store, r: RoleId, level: int)
    requires r in links && LevelledThrough(links, before, after, r, level, Kids(links, r))
    ensures DistanceLevels(links, after, r, level)
  {
    forall x, k: nat | x in after && 0 < k && Up(links, Some(x), k) == Some(r)
      ensures after[x].level == level + k
    {
      StepBefore(links, Some(x), k);
      assert Up(links, Some(x), k - 1) in OptionSet(Kids(links, r));
    }
  }

  /** What the loop of `updateRoleLevels` knows before handling the child `c`. */
  lemma LoopEntry(links: Links, before: Store, mid: Store, r: RoleId, c: RoleId)
    requires ParentLinks(before) == links && Acyclic(links) && r in links
    requires c in Kids(links, r)
    requires OnlyLevels(before, mid) && UnchangedOutside(links, before, mid, r)
    ensures ParentLinks(mid) == links
    ensures r in mid && c in mid && mid[c].parent == Some(r) && mid[r] == before[r]
  {
    OnlyLevelsKeepLinks(before, mid);
    NotBelowItself(links, r);
  }

  /** The loop invariant of `updateRoleLevels` survives handling the child `c`. */
  lemma LoopStep(links: Links, before: Store, mid: Store, s2: Store, r: RoleId, c: RoleId, level: int, pending: set<RoleId>)
    requires ParentLinks(before) == links && Acyclic(links) && r in links && before[r].level == level
    requires c in pending && pending <= Kids(links, r)
    requires r in mid && mid[r] == before[r]
    requires OnlyLevels(before, mid) && UnchangedOutside(links, before, mid, r)
    requires LevelledThrough(links, before, mid, r, level, Kids(links, r) - pending)
    requires OnlyLevels(mid, s2)
    requires s2[c].level == mid[r].level + 1
    requires forall x :: x in s2 && x != c && !Below(ParentLinks(mid), x, c) ==> s2[x] == mid[x]
    requires DistanceLevels(ParentLinks(mid), s2, c, mid[r].level + 1)
    ensures OnlyLevels(before, s2) && UnchangedOutside(links, before, s2, r)
    ensures LevelledThrough(links, before, s2, r, level, Kids(links, r) - (pending - {c}))
  {
    OnlyLevelsKeepLinks(before, mid);
    ChildStepOutside(links, before, mid, s2, r, c, level);
    ChildStepLevels(links, before, mid, s2, r, c, level, Kids(links, r) - pending);
    assert Kids(links, r) - (pending - {c}) == (Kids(links, r) - pending) + {c};
  }

  /** `updateRoleLevels(role)`: every stored role whose parent is `r` is
      given `r`'s level plus one and saved, and its own children are
      processed the same way. In an acyclic store every role `k` steps below
      `r` ends at `r`'s level plus `k`, and nothing else changes. */
  method UpdateRoleLevels(coll: RoleCollection, r: RoleId)
    requires r in coll.roles && Acyclic(ParentLinks(coll.roles))
    modifies coll
    ensures OnlyLevels(old(coll.roles), coll.roles)
    ensures UnchangedOutside(ParentLinks(old(coll.roles)), old(coll.roles), coll.roles, r)
    ensures DistanceLevels(ParentLinks(old(coll.roles)), coll.roles, r, old(coll.roles)[r].level)
    decreases |coll.roles| - Depth(ParentLinks(coll.roles), Some(r)), 1
  {
    var links := ParentLinks(coll.roles);
    ghost var before := coll.roles;
    var level := coll.roles[r].level;
    var pending := Kids(links, r);
    NotBelowItself(links, r);
    while pending != {}
      invariant pending <= Kids(links, r)
      invariant OnlyLevels(before, coll.roles)
      invariant UnchangedOutside(links, before, coll.roles, r)
      invariant LevelledThrough(links, before, coll.roles, r, level, Kids(links, r) - pending)
      decreases |pending|
    {
      var c :| c in pending;
      ghost var mid := coll.roles;
      LoopEntry(links, before, mid, r, c);
      RelevelChild(coll, r, c);
      LoopStep(links, before, mid, coll.roles, r, c, level, pending);
      pending := pending - {c};
    }
    assert Kids(links, r) - pending == Kids(links, r);
    AllKidsDone(links, before, coll.roles, r, level);
  }

  /** One pass of the loop in `updateRoleLevels`: the child `c` of `r` is
      saved one level below `r` and its own subtree is re-levelled. */
  method RelevelChild(coll: RoleCollection, r: RoleId, c: RoleId)
    requires r in coll.roles && c in coll.roles && coll.roles[c].parent == Some(r)
    requires Acyclic(ParentLinks(coll.roles))
    modifies coll
    ensures OnlyLevels(old(coll.roles), coll.roles)
    ensures coll.roles[c].level == old(coll.roles)[r].level + 1
    ensures forall x :: x in coll.roles && x != c && !Below(ParentLinks(old(coll.roles)), x, c) ==>
      coll.roles[x] == old(coll.roles)[x]
    ensures DistanceLevels(ParentLinks(old(coll.roles)), coll.roles, c, old(coll.roles)[r].level + 1)
    decreases |coll.roles| - Depth(ParentLinks(coll.roles), Some(r)), 0
  {
    ghost var before := coll.roles;
    var links := ParentLinks(coll.roles);
    var child := coll.roles[c];
    coll.Save(c, child.(level := coll.roles[r].level + 1));
    assert OnlyLevels(before, coll.roles);
    OnlyLevelsKeepLinks(before, coll.roles);
    DepthOfChild(links, c);
    ghost var saved := coll.roles;
    UpdateRoleLevels(coll, c);
    NotBelowItself(links, c);
    assert coll.roles[c] == saved[c];
  }

  /** A role met `k` steps below `r` whose level is `r`'s plus `k` is one
      level below its parent. */
  lemma LevelsFromDistance(store: Store, r: RoleId)
    requires r in store && Acyclic(ParentLinks(store))
    requires DistanceLevels(ParentLinks(store), store, r, store[r].level)
    ensures forall x :: x in store && Below(ParentLinks(store), x, r) ==>
      store[x].parent.Some? && store[x].parent.value in store
      && store[x].level == store[store[x].parent.value].level + 1
  {
    var links := ParentLinks(store);
    forall x | x in store && Below(links, x, r)
      ensures store[x].parent.Some? && store[x].parent.value in store
      ensures store[x].level == store[store[x].parent.value].level + 1
    {
      var k: nat :| 0 < k && Up(links, Some(x), k) == Some(r);
      UpAdd(links, Some(x), 1, k - 1);
      if !Present(links, Up(links, Some(x), 1)) {
        StoppedStays(links, Some(x), 1, k - 1);
      }
      if k > 1 {
        var p := store[x].parent.value;
        assert Up(links, Some(p), k - 1) == Some(r);
      }
    }
  }

  /** `after` differs from `before` only in the levels of the roles strictly
      below `r`, each of which is one more than its parent's. */
  ghost predicate Relevelled(before: Store, after: Store, r: RoleId)
  {
    OnlyLevels(before, after)
    && UnchangedOutside(ParentLinks(after), before, after, r)
    && (forall x :: x in after && Below(ParentLinks(after), x, r) ==>
          after[x].parent.Some? && after[x].parent.value in after
          && after[x].level == after[after[x].parent.value].level + 1)
  }

  /** `updateRole`: checks a new parent for existence and for a cycle, then
      writes the update without recomputing the role's own level, then
      propagates levels down the role's subtree. */
  method UpdateRole(coll: RoleCollection, id: RoleId, u: RoleUpdate) returns (result: Result<Role, RoleError>)
    requires Acyclic(ParentLinks(coll.roles))
    modifies coll
    ensures result == Err(ParentNotFound) <==> u.parent.SetParent? && u.parent.id !in old(coll.roles)
    ensures result == Err(CircularDependency) <==>
      u.parent.SetParent? && u.parent.id in old(coll.roles) && OnChain(ParentLinks(old(coll.roles)), u.parent.id, id)
    ensures result == Err(RoleNotFound) <==> ParentAccepted(old(coll.roles), id, u) && id !in old(coll.roles)
    ensures result.Err? ==> coll.roles == old(coll.roles)
    ensures result.Ok? <==> ParentAccepted(old(coll.roles), id, u) && id in old(coll.roles)
    ensures result.Ok? ==>
      result.value == Apply(old(coll.roles)[id], u)
      && id in coll.roles && coll.roles[id] == result.value
      && Relevelled(Written(old(coll.roles), id, u), coll.roles, id)
    ensures Acyclic(ParentLinks(coll.roles))
  {
    var links := ParentLinks(coll.roles);
    if u.parent.SetParent? {
      var p := u.parent.id;
      if p !in coll.roles {
        return Err(ParentNotFound);
      }
      AcyclicGrounded(links, Some(p));
      var cycle := ParentChainReaches(coll.roles, p, id);
      if cycle {
        return Err(CircularDependency);
      }
    }
    var updated := coll.FindByIdAndUpdate(id, u);
    if updated.None? {
      return Err(RoleNotFound);
    }
    var role := updated.value;
    match u.parent {
      case KeepParent => AvoidsOwnParent(links, id);
      case ClearParent =>
        forall k: nat
          ensures Up(links, None, k) != Some(id)
        {
          StoppedUp(links, None, k);
        }
      case SetParent(p) => NotOnChainAvoids(links, p, id);
    }
    RelinkKeepsAcyclic(links, id, role.parent);
    ghost var written := coll.roles;
    LinksAfterWrite(old(coll.roles), id, role);
    UpdateRoleLevels(coll, id);
    OnlyLevelsKeepLinks(written, coll.roles);
    NotBelowItself(ParentLinks(written), id);
    LevelsFromDistance(coll.roles, id);
    result := Ok(role);
  }

  // ---------------------------------------------------------------------
  // deleteRole

  /** Some user document refers to the role. */
  predicate AssignedToSomeUser(users: map<UserId, User>, id: RoleId)
  {
    exists u :: u in users && users[u].role == id
  }

  /** Some stored role names `id` as its parent. */
  predicate HasChildRole(store: Store, id: RoleId)
  {
    exists c :: c in store && store[c].parent == Some(id)
  }

  /** Every parent reference names a stored role. */
  ghost predicate NoDangling(store: Store)
  {
    forall x :: x in store && store[x].parent.Some? ==> store[x].parent.value in store
  }

  /** `deleteRole`: a missing role, then a role still assigned to users, then
      a role with child roles is refused; otherwise only that role is
      removed. Removal keeps the store acyclic and creates no dangling
      reference. */
  method DeleteRole(coll: RoleCollection, users: map<UserId, User>, id: RoleId) returns (result: Result<(), RoleError>)
    modifies coll
    ensures id !in old(coll.roles) ==> result == Err(RoleNotFound)
    ensures id in old(coll.roles) && AssignedToSomeUser(users, id) ==> result == Err(AssignedToUsers)
    ensures id in old(coll.roles) && !AssignedToSomeUser(users, id) && HasChildRole(old(coll.roles), id) ==>
      result == Err(HasChildRoles)
    ensures result.Ok? <==> id in old(coll.roles) && !AssignedToSomeUser(users, id) && !HasChildRole(old(coll.roles), id)
    ensures result.Err? ==> coll.roles == old(coll.roles)
    ensures result.Ok? ==> coll.roles == old(coll.roles) - {id}
    ensures Acyclic(ParentLinks(old(coll.roles))) ==> Acyclic(ParentLinks(coll.roles))
    ensures NoDangling(old(coll.roles)) ==> NoDangling(coll.roles)
  {
    if id !in coll.roles {
      return Err(RoleNotFound);
    }
    if AssignedToSomeUser(users, id) {
      return Err(AssignedToUsers);
    }
    if HasChildRole(coll.roles, id) {
      return Err(HasChildRoles);
    }
    ghost var links := ParentLinks(coll.roles);
    coll.FindByIdAndDelete(id);
    LinksAfterRemoval(old(coll.roles), id);
    if Acyclic(links) {
      RemoveKeepsAcyclic(links, id);
    }
    result := Ok(());
  }

  // ---------------------------------------------------------------------
  // createRole and cloneRole

  /** `id` is a newly generated document id: no role has it and no stored
      reference names it. */
  predicate FreshId(store: Store, id: RoleId)
  {
    id !in store && forall x :: x in store ==> store[x].parent != Some(id)
  }

  /** Adding a role under a fresh id, with a parent reference other than
      that id, keeps an acyclic store acyclic. */
  lemma AddKeepsAcyclic(store: Store, id: RoleId, r: Role)
    requires FreshId(store, id) && r.parent != Some(id) && Acyclic(ParentLinks(store))
    ensures Acyclic(ParentLinks(store[id := r]))
  {
    var links := ParentLinks(store);
    forall k: nat
      ensures Up(links, r.parent, k) != Some(id)
    {
      FreshAvoided(links, r.parent, id, k);
    }
    RelinkKeepsAcyclic(links, id, r.parent);
    LinksAfterWrite(store, id, r);
  }

  /** The fields of a creation request. `id` is an `_id` the client may
      send along; spreading the body into the new document keeps it. */
  datatype RoleBody = RoleBody(id: Option<RoleId>, name: string, description: string, perms: seq<PermId>, parent: Option<RoleId>, level: Option<int>)

  /** The document a creation request stores once the pre-save hook has run
      against `store`. */
  function NewRole(store: Store, body: RoleBody): Role
  {
    Role(body.name, body.description, body.perms, body.parent,
         if Present(ParentLinks(store), body.parent) then store[body.parent.value].level + 1
         else if body.level.Some? then body.level.value else 0)
  }

  /** `createRole` as written: the request body is spread into the new
      document, so a client-supplied `_id` is kept, and only a body without
      one gets the generated id. An `_id` already stored is refused with the
      duplicate-key error. Nothing checks the parent reference against the
      new id. */
  method CreateRoleAsWritten(coll: RoleCollection, generated: RoleId, body: RoleBody) returns (result: Result<Role, RoleError>)
    requires body.id.None? ==> FreshId(coll.roles, generated) && body.parent != Some(generated)
    modifies coll
    ensures result.Err? <==> body.id.Some? && body.id.value in old(coll.roles)
    ensures result.Err? ==> result.error == DuplicateKey && coll.roles == old(coll.roles)
    ensures result.Ok? ==> result.value == NewRole(old(coll.roles), body)
    ensures result.Ok? ==> coll.roles == old(coll.roles)[(if body.id.Some? then body.id.value else generated) := result.value]
    ensures body.id.None? && Acyclic(ParentLinks(old(coll.roles))) ==> Acyclic(ParentLinks(coll.roles))
  {
    if body.id.None? {
      var role := CreateRole(coll, generated, body);
      return Ok(role);
    }
    var id := body.id.value;
    if id in coll.roles {
      return Err(DuplicateKey);
    }
    coll.Save(id, Role(body.name, body.description, body.perms, body.parent, if body.level.Some? then body.level.value else 0));
    result := Ok(coll.roles[id]);
  }

  /** As written, a request whose `_id` names no stored role and whose
      `parentRole` is that same id stores a role that is its own parent: the
      store is no longer acyclic, and the walk from that role never stops. */
  lemma SelfParentedCreateCycles(store: Store, x: RoleId, body: RoleBody)
    requires x !in store && body.id == Some(x) && body.parent == Some(x)
    ensures !Acyclic(ParentLinks(store[x := NewRole(store, body)]))
  {
    var links := ParentLinks(store[x := NewRole(store, body)]);
    assert Up(links, Some(x), 1) == Some(x);
    CycleForever(links, x, 1, |links|);
  }

  /** `createRole` as intended: the new document always gets a generated id,
      whatever `_id` the body carries, so creation keeps the hierarchy
      acyclic. The hook sets the level from a stored parent; otherwise it is
      the body's level or the default 0. */
  method CreateRole(coll: RoleCollection, newId: RoleId, body: RoleBody) returns (role: Role)
    requires FreshId(coll.roles, newId) && body.parent != Some(newId)
    modifies coll
    ensures coll.roles == old(coll.roles)[newId := role]
    ensures role == NewRole(old(coll.roles), body)
    ensures role.name == body.name && role.description == body.description
    ensures role.perms == body.perms && role.parent == body.parent
    ensures Present(ParentLinks(old(coll.roles)), body.parent) ==> role.level == old(coll.roles)[body.parent.value].level + 1
    ensures !Present(ParentLinks(old(coll.roles)), body.parent) ==> role.level == (if body.level.Some? then body.level.value else 0)
    ensures Acyclic(ParentLinks(old(coll.roles))) ==> Acyclic(ParentLinks(coll.roles))
  {
    ghost var before := coll.roles;
    var doc := Role(body.name, body.description, body.perms, body.parent, if body.level.Some? then body.level.value else 0);
    coll.Save(newId, doc);
    role := coll.roles[newId];
    if Acyclic(ParentLinks(before)) {
      AddKeepsAcyclic(before, newId, role);
    }
  }

  /** `cloneRole`: a new role under a fresh id with the requested name and
      description, the source's permissions as populated, and the source's
      parent reference; its level comes from the pre-save hook. */
  method CloneRole(coll: RoleCollection, catalog: Catalog, id: RoleId, newId: RoleId, name: string, description: string)
    returns (result: Result<Role, RoleError>)
    requires FreshId(coll.roles, newId)
    modifies coll
    ensures id !in old(coll.roles) <==> result == Err(SourceNotFound)
    ensures result.Err? ==> coll.roles == old(coll.roles)
    ensures result.Ok? ==>
      var source := old(coll.roles)[id];
      var clone := result.value;
      coll.roles == old(coll.roles)[newId := clone]
      && clone.name == name && clone.description == description
      && clone.perms == Populated(source.perms, catalog) && clone.parent == source.parent
      && clone.level == (if Present(ParentLinks(old(coll.roles)), source.parent)
                         then old(coll.roles)[source.parent.value].level + 1 else 0)
    ensures Acyclic(ParentLinks(old(coll.roles))) ==> Acyclic(ParentLinks(coll.roles))
  {
    if id !in coll.roles {
      return Err(SourceNotFound);
    }
    var source := coll.roles[id];
    var clone := CreateRole(coll, newId, RoleBody(None, name, description, Populated(source.perms, catalog), source.parent, None));
    result := Ok(clone);
  }

  // ---------------------------------------------------------------------
  // getEffectivePermissions and getRoleHierarchy

  /** The `getEffectivePermissions` handler: 404 for a missing role,
      otherwise the role's effective permissions. */
  method GetEffectivePermissionsHandler(store: Store, catalog: Catalog, id: RoleId) returns (result: Result<seq<PermId>, RoleError>)
    requires id in store ==> Grounded(ParentLinks(store), Some(id))
    ensures id !in store <==> result == Err(RoleNotFound)
    ensures result.Ok? ==> Distinct(result.value)
    ensures result.Ok? ==> forall p :: p in result.value <==>
      p in store[id].perms || Inherits(store, catalog, store[id].parent, p)
  {
    if id !in store {
      return Err(RoleNotFound);
    }
    DepthOfChild(ParentLinks(store), id);
    var perms := GetEffectivePermissions(store, catalog, store[id]);
    result := Ok(perms);
  }

  /** `getRoleHierarchy`: the forest hanging from the roles without a stored
      parent, each node showing the role's stored level. Where stored levels
      are consistent, and both are built from the same listing, its nodes
      match those of `Role.getHierarchy` in every field modelled. */
  function GetRoleHierarchy(store: Store, catalog: Catalog, docs: seq<RoleId>): (forest: seq<RoleNode>)
    requires forall d :: d in docs <==> d in store
    ensures Tops(forest) == Children(store, docs, None)
    ensures WellNested(store, catalog, docs, forest)
    ensures LevelsAreStored(store, forest)
    ensures forall x :: x in Ids(forest) <==> x in store && Grounded(ParentLinks(store), Some(x))
    ensures LevelsConsistent(store) ==> forest == GetHierarchy(store, catalog, docs)
  {
    ForestIds(store, catalog, docs, None, 0, true);
    ForestShape(store, catalog, docs, None, 0, true);
    ForestLevels(store, catalog, docs, None, 0, true);
    ConsistentLevelsAgree(store, catalog, docs);
    Forest(store, catalog, docs, None, 0, true)
  }

  /** With consistent stored levels, and built from the same listing, the
      two hierarchy builders agree on ids, names, descriptions, permission
      ids, levels and nesting. */
  lemma ConsistentLevelsAgree(store: Store, catalog: Catalog, docs: seq<RoleId>)
    requires forall d :: d in docs <==> d in store
    ensures LevelsConsistent(store) ==> Forest(store, catalog, docs, None, 0, true) == GetHierarchy(store, catalog, docs)
  {
    if LevelsConsistent(store) {
      StoredForestIsDepthForest(store, catalog, docs, None, 0);
    }
  }
}
