/** The parent-reference walks shared by the role model and the role
    controller. A walk starts at an optional role reference and repeatedly
    replaces it by the `parentRole` of the document it names; it stops at a
    null reference or at one that names no stored role, since `findById` then
    yields null. */
module Hierarchy {
  import opened Common

  /** The `parentRole` reference of every stored role, keyed by role id. */
  type Links = map<RoleId, Option<RoleId>>

  /** The reference names a stored role (a truthy `currentRole`). */
  predicate Present(links: Links, cur: Option<RoleId>)
  {
    cur.Some? && cur.value in links
  }

  /** One step of a walk: the parent reference of the role named by `cur`. */
  function Next(links: Links, cur: Option<RoleId>): Option<RoleId>
  {
    if Present(links, cur) then links[cur.value] else None
  }

  /** The reference reached after `k` steps. */
  function Up(links: Links, cur: Option<RoleId>, k: nat): Option<RoleId>
    decreases k
  {
    if k == 0 then cur else Up(links, Next(links, cur), k - 1)
  }

  /** No role is its own ancestor: every walk from a stored role has stopped
      after as many steps as there are roles. */
  ghost predicate Acyclic(links: Links)
  {
    forall x :: x in links ==> Grounded(links, Some(x))
  }

  /** The walk from `cur` has stopped after as many steps as there are roles,
      so a loop that follows it ends. */
  ghost predicate Grounded(links: Links, cur: Option<RoleId>)
  {
    !Present(links, Up(links, cur, |links|))
  }

  /** The stored role `a` is met by the walk that starts at `from` (possibly
      at its first step, `a == from`). */
  ghost predicate OnChain(links: Links, from: RoleId, a: RoleId)
  {
    exists k: nat :: Up(links, Some(from), k) == Some(a) && a in links
  }

  /** `x` lies strictly below `r`: `r` is a proper ancestor of `x`. */
  ghost predicate Below(links: Links, x: RoleId, r: RoleId)
  {
    exists k: nat :: 0 < k && Up(links, Some(x), k) == Some(r)
  }

  /** The walk from `cur` never produces the reference `id`. */
  ghost predicate Avoids(links: Links, cur: Option<RoleId>, id: RoleId)
  {
    forall k: nat :: Up(links, cur, k) != Some(id)
  }

  /** The number of stored roles met by a walk of at most `fuel` steps. */
  function Height(links: Links, cur: Option<RoleId>, fuel: nat): (h: nat)
    ensures h <= fuel
    ensures h == 0 <==> fuel == 0 || !Present(links, cur)
    decreases fuel
  {
    if fuel == 0 || !Present(links, cur) then 0
    else 1 + Height(links, Next(links, cur), fuel - 1)
  }

  /** The number of stored roles on the walk from `cur`, itself included;
      for a stored role of an acyclic store this is its depth plus one. */
  function Depth(links: Links, cur: Option<RoleId>): nat
  {
    Height(links, cur, |links|)
  }

  // ---------------------------------------------------------------------
  // Walk arithmetic

  lemma {:induction false} UpAdd(links: Links, cur: Option<RoleId>, a: nat, b: nat)
    ensures Up(links, cur, a + b) == Up(links, Up(links, cur, a), b)
    decreases a
  {
    if a > 0 {
      UpAdd(links, Next(links, cur), a - 1, b);
    }
  }

  /** A walk that has stopped yields nothing stored any more. */
  lemma {:induction false} StoppedUp(links: Links, cur: Option<RoleId>, b: nat)
    requires !Present(links, cur)
    ensures !Present(links, Up(links, cur, b))
    ensures b > 0 ==> Up(links, cur, b) == None
    decreases b
  {
    if b > 0 {
      StoppedUp(links, None, b - 1);
    }
  }

  lemma StoppedStays(links: Links, cur: Option<RoleId>, a: nat, b: nat)
    requires !Present(links, Up(links, cur, a))
    ensures !Present(links, Up(links, cur, a + b))
  {
    UpAdd(links, cur, a, b);
    StoppedUp(links, Up(links, cur, a), b);
  }

  /** The role met at step `k > 0` is the parent of the role met at `k - 1`. */
  lemma StepBefore(links: Links, x: Option<RoleId>, k: nat)
    requires 0 < k && Present(links, Up(links, x, k))
    ensures Present(links, Up(links, x, k - 1))
    ensures links[Up(links, x, k - 1).value] == Up(links, x, k)
  {
    UpAdd(links, x, k - 1, 1);
  }

  /** A walk that comes back to a stored role never stops. */
  lemma {:induction false} CycleForever(links: Links, x: RoleId, p: nat, m: nat)
    requires x in links && 0 < p && Up(links, Some(x), p) == Some(x)
    ensures Present(links, Up(links, Some(x), m))
    decreases m
  {
    if m < p {
      if !Present(links, Up(links, Some(x), m)) {
        StoppedStays(links, Some(x), m, p - m);
        assert false;
      }
    } else {
      UpAdd(links, Some(x), p, m - p);
      CycleForever(links, x, p, m - p);
    }
  }

  /** In an acyclic store no role is its own proper ancestor. */
  lemma NotOwnAncestor(links: Links, x: RoleId, k: nat)
    requires Acyclic(links) && x in links && 0 < k
    ensures Up(links, Some(x), k) != Some(x)
  {
    if Up(links, Some(x), k) == Some(x) {
      CycleForever(links, x, k, |links|);
      assert false;
    }
  }

  /** A walk that stops meets every stored role at most once. */
  lemma PositionsUnique(links: Links, cur: Option<RoleId>, n: nat, i: nat, j: nat)
    requires !Present(links, Up(links, cur, n))
    requires Present(links, Up(links, cur, i)) && Up(links, cur, i) == Up(links, cur, j)
    ensures i == j
  {
    if i != j {
      var lo, hi := if i < j then i else j, if i < j then j else i;
      var y := Up(links, cur, lo).value;
      UpAdd(links, cur, lo, hi - lo);
      CycleForever(links, y, hi - lo, n);
      UpAdd(links, cur, lo, n);
      StoppedStays(links, cur, n, lo);
      assert false;
    }
  }

  // ---------------------------------------------------------------------
  // Pigeonhole: a walk that stops at all stops within |links| steps

  /** The stored roles met during the first `m` steps. */
  ghost function Visited(links: Links, cur: Option<RoleId>, m: nat): (vs: set<RoleId>)
    ensures vs <= links.Keys
    decreases m
  {
    if m == 0 then {}
    else Visited(links, cur, m - 1)
         + (if Present(links, Up(links, cur, m - 1)) then {Up(links, cur, m - 1).value} else {})
  }

  /** Every role in `Visited` was met at some step before `m`. */
  lemma {:induction false} VisitedWitness(links: Links, cur: Option<RoleId>, m: nat, v: RoleId) returns (i: nat)
    requires v in Visited(links, cur, m)
    ensures i < m && Up(links, cur, i) == Some(v)
    decreases m
  {
    if v in Visited(links, cur, m - 1) {
      i := VisitedWitness(links, cur, m - 1, v);
    } else {
      i := m - 1;
    }
  }

  /** Before a stopping walk stops, each step meets a new role. */
  lemma {:induction false} VisitedCount(links: Links, cur: Option<RoleId>, n: nat, m: nat)
    requires !Present(links, Up(links, cur, n))
    requires forall i: nat :: i < m ==> Present(links, Up(links, cur, i))
    ensures |Visited(links, cur, m)| == m
    decreases m
  {
    if m > 0 {
      VisitedCount(links, cur, n, m - 1);
      var y := Up(links, cur, m - 1).value;
      if y in Visited(links, cur, m - 1) {
        var i := VisitedWitness(links, cur, m - 1, y);
        PositionsUnique(links, cur, n, i, m - 1);
        assert false;
      }
      assert Visited(links, cur, m) == Visited(links, cur, m - 1) + {y};
    }
  }

  /** A walk that stops after some number of steps stops after `|links|`
      steps: a stopping walk visits distinct roles only. */
  lemma StopsWithinBound(links: Links, cur: Option<RoleId>, n: nat)
    requires !Present(links, Up(links, cur, n))
    ensures !Present(links, Up(links, cur, |links|))
  {
    var bound := |links|;
    if Present(links, Up(links, cur, bound)) {
      forall i: nat | i < bound + 1
        ensures Present(links, Up(links, cur, i))
      {
        if !Present(links, Up(links, cur, i)) {
          StoppedStays(links, cur, i, bound - i);
        }
      }
      VisitedCount(links, cur, n, bound + 1);
      SubsetCard(Visited(links, cur, bound + 1), links.Keys);
      assert false;
    }
  }

  // ---------------------------------------------------------------------
  // Depth

  lemma {:induction false} HeightStable(links: Links, cur: Option<RoleId>, f: nat)
    requires !Present(links, Up(links, cur, f))
    ensures Height(links, cur, f) == Height(links, cur, f + 1)
    decreases f
  {
    if f > 0 && Present(links, cur) {
      HeightStable(links, Next(links, cur), f - 1);
    }
  }

  /** In an acyclic store every walk stops. */
  lemma AcyclicGrounded(links: Links, cur: Option<RoleId>)
    requires Acyclic(links)
    ensures Grounded(links, cur)
  {
    if !Present(links, cur) {
      StoppedUp(links, cur, |links|);
    }
  }

  /** A stored role's walk stops exactly when its parent's walk stops, and
      the role is then one deeper than the reference it names as parent. */
  lemma DepthOfChild(links: Links, c: RoleId)
    requires c in links && (Grounded(links, Some(c)) || Grounded(links, links[c]))
    ensures Grounded(links, Some(c)) && Grounded(links, links[c])
    ensures Depth(links, Some(c)) == Depth(links, links[c]) + 1
  {
    var n := |links|;
    assert n > 0 by { assert c in links.Keys; }
    UpAdd(links, Some(c), 1, n);
    UpAdd(links, Some(c), 1, n - 1);
    if Grounded(links, links[c]) {
      StopsWithinBound(links, Some(c), n + 1);
    } else {
      StoppedStays(links, Some(c), n, 1);
    }
    HeightStable(links, links[c], n - 1);
  }

  // ---------------------------------------------------------------------
  // Trees hanging from a role, as `populate` presents them

  /** The parent reference after `populate('parentRole')`: null when it names
      no stored role. */
  function Resolved(links: Links, x: RoleId): (p: Option<RoleId>)
    requires x in links
    ensures p.Some? ==> p == links[x] && p.value in links
    ensures p.None? ==> !Present(links, links[x])
  {
    if Present(links, links[x]) then links[x] else None
  }

  /** `x` belongs to the tree hanging from `key`: strictly below the stored
      role `key`, or, for the null key, anywhere in the forest of roots. */
  ghost predicate Under(links: Links, x: RoleId, key: Option<RoleId>)
  {
    x in links && if key.None? then Grounded(links, Some(x)) else Below(links, x, key.value)
  }

  /** The first step at which a stopping walk stops. */
  lemma {:induction false} FirstStop(links: Links, cur: Option<RoleId>, n: nat) returns (m: nat)
    requires !Present(links, Up(links, cur, n))
    ensures m <= n && !Present(links, Up(links, cur, m))
    ensures forall i: nat :: i < m ==> Present(links, Up(links, cur, i))
    decreases n
  {
    if !Present(links, cur) {
      m := 0;
    } else {
      var m' := FirstStop(links, Next(links, cur), n - 1);
      m := m' + 1;
      forall i: nat | i < m
        ensures Present(links, Up(links, cur, i))
      {
        if i > 0 {
          assert Up(links, cur, i) == Up(links, Next(links, cur), i - 1);
        }
      }
    }
  }

  /** A tree is its root's children together with the trees hanging from them. */
  lemma UnderStep(links: Links, x: RoleId, key: Option<RoleId>)
    requires key.None? || key.value in links
    ensures Under(links, x, key) <==>
      exists c :: c in links && Resolved(links, c) == key && (x == c || Under(links, x, Some(c)))
  {
    if Under(links, x, key) {
      var k: nat;
      if key.None? {
        var m := FirstStop(links, Some(x), |links|);
        k := m - 1;
        UpAdd(links, Some(x), k, 1);
      } else {
        k :| 0 < k && Up(links, Some(x), k) == key;
        StepBefore(links, Some(x), k);
        k := k - 1;
        UpAdd(links, Some(x), k, 1);
      }
      var c := Up(links, Some(x), k).value;
      assert c in links && Resolved(links, c) == key;
      if k > 0 {
        assert Under(links, x, Some(c));
      }
    }
    if exists c :: c in links && Resolved(links, c) == key && (x == c || Under(links, x, Some(c))) {
      var c :| c in links && Resolved(links, c) == key && (x == c || Under(links, x, Some(c)));
      var j: nat := 0;
      if x != c {
        j :| 0 < j && Up(links, Some(x), j) == Some(c);
      }
      UpAdd(links, Some(x), j, 1);
      if key.None? {
        StopsWithinBound(links, Some(x), j + 1);
      } else {
        assert Up(links, Some(x), j + 1) == key;
      }
    }
  }

  /** A role hanging directly from `key` has a stopping walk and lies one
      level deeper than `key`. */
  lemma ChildOfKey(links: Links, c: RoleId, key: Option<RoleId>)
    requires c in links && Resolved(links, c) == key
    requires key.None? || (key.value in links && Grounded(links, key))
    ensures Grounded(links, Some(c)) && Depth(links, Some(c)) == Depth(links, key) + 1
  {
    if key.None? {
      StoppedUp(links, links[c], |links|);
    }
    DepthOfChild(links, c);
  }

  // ---------------------------------------------------------------------
  // Changing one parent reference

  /** Walks that never produce `id` are the same after `id`'s parent changes. */
  lemma {:induction false} AgreeWhileAvoiding(links: Links, id: RoleId, target: Option<RoleId>, cur: Option<RoleId>, k: nat)
    requires Avoids(links, cur, id)
    ensures Up(links[id := target], cur, k) == Up(links, cur, k)
    decreases k
  {
    if k > 0 {
      assert Up(links, cur, 0) != Some(id);
      assert Next(links[id := target], cur) == Next(links, cur);
      forall j: nat
        ensures Up(links, Next(links, cur), j) != Some(id)
      {
        assert Up(links, cur, j + 1) != Some(id);
      }
      AgreeWhileAvoiding(links, id, target, Next(links, cur), k - 1);
    }
  }

  /** After re-pointing `id` at a reference whose own walk stops without
      producing `id`, every walk that stopped before still stops. */
  lemma {:induction false} StopsAfterRelink(links: Links, id: RoleId, target: Option<RoleId>, t: nat, cur: Option<RoleId>, n: nat) returns (m: nat)
    requires Avoids(links, target, id) && !Present(links, Up(links, target, t))
    requires !Present(links, Up(links, cur, n))
    ensures !Present(links[id := target], Up(links[id := target], cur, m))
    decreases n
  {
    var relinked := links[id := target];
    if cur == Some(id) {
      forall k: nat
        ensures Up(relinked, target, k) == Up(links, target, k)
      {
        AgreeWhileAvoiding(links, id, target, target, k);
      }
      assert Up(links, target, t) != Some(id);
      m := t + 1;
    } else if !Present(links, cur) {
      m := 0;
    } else {
      var next := Next(links, cur);
      assert Next(relinked, cur) == next;
      var m' := StopsAfterRelink(links, id, target, t, next, n - 1);
      m := m' + 1;
    }
  }

  /** Giving `id` a parent whose walk never reaches `id` keeps the store
      acyclic; this covers clearing the parent (`target == None`). */
  lemma RelinkKeepsAcyclic(links: Links, id: RoleId, target: Option<RoleId>)
    requires Acyclic(links) && Avoids(links, target, id)
    ensures Acyclic(links[id := target])
  {
    var relinked := links[id := target];
    var n := |links|;
    assert !Present(links, Up(links, target, n)) by {
      if Present(links, target) {
        assert target.value in links;
      } else {
        StoppedUp(links, target, n);
      }
    }
    forall x | x in relinked
      ensures !Present(relinked, Up(relinked, Some(x), |relinked|))
    {
      if x in links {
        assert !Present(links, Up(links, Some(x), n));
      } else {
        StoppedUp(links, Some(x), n);
      }
      var m := StopsAfterRelink(links, id, target, n, Some(x), n);
      StopsWithinBound(relinked, Some(x), m);
    }
  }

  /** A role whose parent walk (from `from`) does not meet `id` leaves every
      reference on that walk different from `id`, when `id` is stored. */
  lemma NotOnChainAvoids(links: Links, from: RoleId, id: RoleId)
    requires id in links && !OnChain(links, from, id)
    ensures Avoids(links, Some(from), id)
  {
  }

  /** Removing a role keeps an acyclic store acyclic. */
  lemma {:induction false} StopsAfterRemoval(links: Links, id: RoleId, cur: Option<RoleId>, n: nat) returns (m: nat)
    requires !Present(links, Up(links, cur, n))
    ensures !Present(links - {id}, Up(links - {id}, cur, m))
    decreases n
  {
    var smaller := links - {id};
    if !Present(smaller, cur) {
      m := 0;
    } else {
      assert Next(smaller, cur) == Next(links, cur);
      var m' := StopsAfterRemoval(links, id, Next(links, cur), n - 1);
      m := m' + 1;
    }
  }

  lemma RemoveKeepsAcyclic(links: Links, id: RoleId)
    requires Acyclic(links)
    ensures Acyclic(links - {id})
  {
    var smaller := links - {id};
    forall x | x in smaller
      ensures !Present(smaller, Up(smaller, Some(x), |smaller|))
    {
      assert !Present(links, Up(links, Some(x), |links|));
      var m := StopsAfterRemoval(links, id, Some(x), |links|);
      StopsWithinBound(smaller, Some(x), m);
    }
  }

  /** In an acyclic store a role's own parent walk never comes back to it. */
  lemma AvoidsOwnParent(links: Links, id: RoleId)
    requires Acyclic(links) && id in links
    ensures Avoids(links, links[id], id)
  {
    forall k: nat
      ensures Up(links, links[id], k) != Some(id)
    {
      UpAdd(links, Some(id), 1, k);
      NotOwnAncestor(links, id, k + 1);
    }
  }

  /** A reference no stored role holds is never produced by a walk that does
      not start at it. */
  lemma {:induction false} FreshAvoided(links: Links, cur: Option<RoleId>, id: RoleId, k: nat)
    requires cur != Some(id)
    requires forall x :: x in links ==> links[x] != Some(id)
    ensures Up(links, cur, k) != Some(id)
    decreases k
  {
    if k > 0 {
      FreshAvoided(links, Next(links, cur), id, k - 1);
    }
  }

  /** Two roles with the same parent met by one stopping walk are the same
      role, met at the same step. */
  lemma SiblingsOnOneWalk(links: Links, x: RoleId, c: RoleId, d: RoleId, r: RoleId, i: nat, j: nat)
    requires Grounded(links, Some(x)) && r in links
    requires c in links && links[c] == Some(r) && Up(links, Some(x), i) == Some(c)
    requires d in links && links[d] == Some(r) && Up(links, Some(x), j) == Some(d)
    ensures i == j && c == d
  {
    UpAdd(links, Some(x), i, 1);
    UpAdd(links, Some(x), j, 1);
    PositionsUnique(links, Some(x), |links|, i + 1, j + 1);
  }
}
