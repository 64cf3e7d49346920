# RBAC role hierarchy, access guards and sessions — a Dafny model

This project models the backend core of a role-based access control
application written for Node.js with Express and Mongoose. It covers:

- **Roles and their hierarchy** (`models/Role.js`, `controllers/role.controller.js`).
  Each role names an optional parent role. The model covers:
  - the pre-save hook that derives a role's `level` from its parent;
  - the walk up the parent chain that gathers effective permissions, and `hasPermission`;
  - the two nested-hierarchy builders;
  - the update handler, with its parent-existence and cycle checks and its level propagation to descendants;
  - guarded deletion, cloning, creation, and the effective-permission handler.
- **The authentication and authorization middleware** (`middleware/auth.js`):
  - bearer-token extraction;
  - the guard chain of `protect`;
  - the role-name allow list of `authorize`;
  - the direct-permission check of `checkPermission`.
- **User password bookkeeping** (`models/User.js`): `changedPasswordAfter`
  and the pre-save hook that hashes a new password and stamps
  `passwordChangedAt`.
- **Sessions** (`models/Session.js`, `controllers/session.controller.js`):
  - expiry and refresh predicates;
  - activity stamping and clean-up;
  - per-user live counts;
  - listing, terminating one or all sessions, refreshing, and the session statistics.

Database collections are modelled as maps from document id to document.
Collections that the source updates in place are fields of classes:
`RoleModel.RoleCollection` and `SessionModel.SessionStore`. Their methods
change those fields and state the whole new state. Pure decisions are
functions.

The model makes these conventions explicit:

- Every clock reading (`new Date()`, `Date.now()`) is a `now` parameter in milliseconds.
- Hashing is a parameter.
- Token verification is a map from the tokens that verify to their claims.
- The order in which a query lists documents is a parameter (`docs`, `scan`).

Module layout, one file per source file:

| file | module | models |
|---|---|---|
| `common.dfy` | `Common` | `Option`, `Result`, document ids, `startsWith` |
| `hierarchy.dfy` | `Hierarchy` | parent-reference walks: stopping, depth, acyclicity, re-linking and removal |
| `role.dfy` | `RoleModel` | `models/Role.js` |
| `role_controller.dfy` | `RoleController` | `controllers/role.controller.js` |
| `user.dfy` | `UserModel` | `models/User.js` |
| `auth.dfy` | `Auth` | `middleware/auth.js` |
| `session.dfy` | `SessionModel` | `models/Session.js` |
| `session_controller.dfy` | `SessionController` | `controllers/session.controller.js` |

Walks over parent references follow `findById`, which yields `null` for an
absent id. So a walk stops at a null reference and also at one that names
no stored role. `Acyclic` says that every walk from a stored role stops.
Neither walk in the source is bounded, so the operations that loop over the
chain require the walk they take to stop. `UpdateRole` requires the whole
store to be acyclic. The model proves that `UpdateRole`, `DeleteRole`,
`CreateRole` and `CloneRole` keep it so, with two exceptions:

- A creation request that carries its own `_id` can store a cycle (Finding 4).
- The cycle check compares ids as values, while the source compares strings (see "Left out").

Behaviour the model keeps as the code has it:

- **The edited role's level.** `updateRole` writes with `findByIdAndUpdate`, which does not run the pre-save hook. So the edited role's own level is not recomputed when its parent changes; only its descendants are re-levelled, each to its parent's level plus one. After a level-1 role is moved to the root, that role keeps level 1 and its child gets level 2 (`RoleController.UpdateRole`).
- **Levels with a missing parent.** The pre-save hook leaves `level` as it is when the parent reference is null or names no stored role, so the stored levels need not equal depths. `Role.getHierarchy` shows depths and `getRoleHierarchy` shows stored levels. When the stored levels are consistent and both are built from the same listing, the two agree on ids, names, descriptions, permission ids, levels and nesting (`RoleController.ConsistentLevelsAgree`).
- **Duplicate permissions.** The effective-permission list can name one permission twice (Finding 1).
- **Token age.** `changedPasswordAfter` truncates `passwordChangedAt / 1000` toward zero with `parseInt`. For negative timestamps this differs from rounding down, and `UserModel.ChangedPasswordAfter` states both cases.
- **Cyclic hierarchies.** The code does not detect a cyclic hierarchy; its walks would not end. The model excludes that case through the acyclicity preconditions above.

## Model

| member | source | states |
|---|---|---|
| Hierarchy.Resolved | backend/src/models/Role.js:78-87 | the populated parent is the stored reference when it names a stored role, and null otherwise |
| Hierarchy.StopsWithinBound | backend/src/models/Role.js:56-64 | a parent walk that stops at all stops within as many steps as there are roles, so the walks' measure is well defined |
| Hierarchy.NotOwnAncestor | backend/src/controllers/role.controller.js:81-90 | in an acyclic store, no role is met again on its own parent walk |
| Hierarchy.DepthOfChild | backend/src/models/Role.js:56-64 | a role's walk stops exactly when its parent's does, and the role is one deeper |
| Hierarchy.UnderStep | backend/src/models/Role.js:82-96 | a role belongs to the tree under a key iff it hangs directly from the key or lies in the tree of such a child |
| Hierarchy.ChildOfKey | backend/src/models/Role.js:93-94 | a role hanging directly from a node lies one level deeper than that node |
| Hierarchy.RelinkKeepsAcyclic | backend/src/controllers/role.controller.js:72-103 | giving a role a parent whose walk never reaches it keeps every walk stopping; this includes clearing the parent |
| Hierarchy.RemoveKeepsAcyclic | backend/src/controllers/role.controller.js:163 | deleting a role keeps every walk stopping |
| Hierarchy.AvoidsOwnParent | backend/src/controllers/role.controller.js:63-68 | keeping a role's parent never creates a cycle: the parent's walk never returns to the role |
| Hierarchy.SiblingsOnOneWalk | backend/src/controllers/role.controller.js:127-133 | two children of one role never lie on the same upward walk, so the recursive calls of level propagation touch disjoint subtrees |
| Hierarchy.FreshAvoided | backend/src/controllers/role.controller.js:6-9 | a newly generated id that no role references is never reached by a walk |
| Common.StartsWith | backend/src/middleware/auth.js:9 | definition: `startsWith`, the header begins with the prefix; `Auth.BearerRoundTrip` shows every `Bearer`-prefixed scheme passes |
| RoleModel.ParentLinks | backend/src/models/Role.js:18-22 | definition: the parent reference of every stored role, with the same keys as the store |
| RoleModel.Populated | backend/src/models/Role.js:57-60 | `populate` keeps exactly the permission references that name a stored permission, and never more references than it was given |
| RoleModel.PopulatedAppend | backend/src/models/Role.js:57-58 | `populate` keeps the stored order: populating a concatenation is populating each part in turn |
| RoleModel.AddAll | backend/src/models/Role.js:53-60 | adding to a set: the members are the union of both inputs, no value is added twice, and earlier members keep their place |
| RoleModel.AddAllAppend | backend/src/models/Role.js:56-64 | adding two lists one after the other is adding their concatenation |
| RoleModel.AddEach | backend/src/models/Role.js:60 | the `forEach` loop that adds each permission to the set computes `AddAll` |
| RoleModel.AncestorPermsMembers | backend/src/models/Role.js:56-64 | the chain walk collects exactly the populated permissions of the roles met before the walk stops |
| RoleModel.EffectiveListAsWritten | backend/src/models/Role.js:52-67 | as written: the own permission references, then every inherited id; membership is own or inherited |
| RoleModel.DuplicateGrantAsWritten | backend/src/models/Role.js:53-60 | as written, a permission held by a role and by its parent is returned twice |
| RoleModel.GetEffectivePermissions | backend/src/models/Role.js:52-67 | with the set keyed by id value, the result has no duplicates, contains exactly the own and inherited permissions, and deduplicates the as-written list in first-seen order |
| RoleModel.HasPermission | backend/src/models/Role.js:70-73 | true iff the permission is owned directly or inherited up the chain |
| RoleModel.InheritsOnlyBeforeStop | backend/src/models/Role.js:56-63 | nothing above the first null or dangling parent contributes a permission |
| RoleModel.AncestorPerms | backend/src/models/Role.js:56-64 | definition: the walk from the parent reference, each stored role met adding its populated permissions, ending at a null or dangling reference; `AncestorPermsMembers` states what it collects |
| RoleModel.Tops | backend/src/models/Role.js:88-95 | definition: the ids of a forest's top nodes, one per node, in order |
| RoleModel.Children | backend/src/models/Role.js:83-87 | the filter keeps exactly the listed roles whose populated parent is the key, and roles with no stored parent for the null key |
| RoleModel.ChildrenAppend | backend/src/models/Role.js:83-87 | the filter keeps the listing order: the children of a concatenated listing are the children of each part in turn |
| RoleModel.Forest | backend/src/models/Role.js:82-96 | the top nodes of the forest built under a key are exactly that key's children |
| RoleModel.Nodes | backend/src/models/Role.js:88-95 | mapping the children to nodes keeps their ids in order |
| RoleModel.NodeFor | backend/src/models/Role.js:88-95 | a node carries its role's id; the body builds the rest of the node, and `ForestShape` states its other fields |
| RoleModel.InSubtreesCons | backend/src/models/Role.js:82-96 | membership in the subtrees of a list of children splits into the head's subtree and the tail's |
| RoleModel.ForestIds | backend/src/models/Role.js:82-96 | a role appears in the forest under a key iff it lies below that key; under the null key, iff its walk stops |
| RoleModel.NodesIds | backend/src/models/Role.js:88-95 | the ids in the nodes built for a list of children are those children and everything below them |
| RoleModel.ForestShape | backend/src/models/Role.js:82-96 | every node's children are exactly the roles whose populated parent is that node, and each node copies its role's fields |
| RoleModel.NodesShape | backend/src/models/Role.js:88-95 | every node built for a list of children is well nested |
| RoleModel.ForestLevels | backend/src/models/Role.js:93-94 | every node's level is the depth of its role, counted from 0 at the roots |
| RoleModel.NodesLevels | backend/src/models/Role.js:93-94 | nodes built one level below a key carry their depth as level |
| RoleModel.StoredLevelIsDepth | backend/src/models/Role.js:41-49 | where every stored level is its parent's plus one, and 0 at roots, the stored level is the depth |
| RoleModel.StoredForestIsDepthForest | backend/src/controllers/role.controller.js:200-217 | with consistent stored levels, the forest showing stored levels equals the forest showing depths |
| RoleModel.StoredNodesAreDepthNodes | backend/src/controllers/role.controller.js:208-217 | the same equality for the nodes built for a list of children |
| RoleModel.GetHierarchy | backend/src/models/Role.js:76-99 | roots are the roles with no stored parent; children are exactly the roles whose parent is the node; levels are depths; exactly the roles with a stopping walk appear, and in an acyclic store every role appears |
| RoleModel.RoleCollection.Save | backend/src/models/Role.js:41-49 | saving writes the document; its level becomes the stored parent's level plus one when the parent is stored, and is kept otherwise |
| RoleModel.RoleCollection.FindByIdAndUpdate | backend/src/controllers/role.controller.js:93-110 | the update is written without the hook and the updated role is returned; a missing id changes nothing and returns nothing |
| RoleModel.RoleCollection.FindByIdAndDelete | backend/src/controllers/role.controller.js:163 | only that role is removed |
| RoleModel.Apply | backend/src/controllers/role.controller.js:63-103 | definition: the fields an update request sets replace the stored ones, an omitted field keeps its value, and `parentRole: null` clears the parent; `RoleController.UpdateRole` states the write |
| RoleController.ParentChainReaches | backend/src/controllers/role.controller.js:81-90 | the loop reports a cycle iff the edited role is met on the walk that starts at the proposed parent |
| RoleController.LinksAfterWrite | backend/src/controllers/role.controller.js:93-103 | writing a role changes the parent references only at its id |
| RoleController.LinksAfterRemoval | backend/src/controllers/role.controller.js:163 | deleting a role removes only its own parent reference |
| RoleController.OnlyLevelsKeepLinks | backend/src/controllers/role.controller.js:126-134 | re-levelling changes no parent reference |
| RoleController.Kids | backend/src/controllers/role.controller.js:127 | definition: the query for child roles returns exactly the stored roles whose parent is the given role |
| RoleController.NotBelowItself | backend/src/controllers/role.controller.js:126-134 | in an acyclic store, a role is never strictly below itself |
| RoleController.ChildStepOutside | backend/src/controllers/role.controller.js:129-133 | handling one child leaves every role outside the parent's subtree untouched |
| RoleController.ChildStepLevels | backend/src/controllers/role.controller.js:129-133 | after one child is handled, every role whose walk passes through that child sits at its distance below the parent |
| RoleController.AllKidsDone | backend/src/controllers/role.controller.js:129-134 | once every child is handled, every role below the parent sits at its distance |
| RoleController.LoopEntry | backend/src/controllers/role.controller.js:129-130 | before each child is handled, the parent is unchanged and the child is still stored under it |
| RoleController.LoopStep | backend/src/controllers/role.controller.js:129-133 | the loop invariant of level propagation survives handling one child |
| RoleController.UpdateRoleLevels | backend/src/controllers/role.controller.js:126-134 | in an acyclic store, every role k steps below the given role ends at that role's level plus k; only levels change; roles outside the subtree are untouched |
| RoleController.RelevelChild | backend/src/controllers/role.controller.js:129-132 | one pass: the child gets the parent's level plus one through the save hook, and its subtree is re-levelled |
| RoleController.LevelsFromDistance | backend/src/controllers/role.controller.js:126-134 | distance levels mean that every descendant has a stored parent and sits one level below it |
| RoleController.UpdateRole | backend/src/controllers/role.controller.js:60-124 | errors in source order (missing parent, cycle, missing role); a refusal changes nothing; success writes the update without touching the role's own level, re-levels every descendant to its parent's level plus one, and keeps the store acyclic |
| RoleController.DeleteRole | backend/src/controllers/role.controller.js:136-172 | refuses a missing role with 404, then a role assigned to users, then one with child roles; otherwise removes only that role, keeping the store acyclic and free of dangling references |
| RoleController.AssignedToSomeUser | backend/src/controllers/role.controller.js:147-153 | definition: some user document refers to the role; `DeleteRole` refuses it with 400 |
| RoleController.HasChildRole | backend/src/controllers/role.controller.js:155-161 | definition: some stored role names the role as its parent; `DeleteRole` refuses it with 400 |
| RoleController.AddKeepsAcyclic | backend/src/controllers/role.controller.js:4-9 | adding a role under a fresh id keeps the store acyclic |
| RoleController.NewRole | backend/src/models/Role.js:41-49 | definition: the document a creation request stores, with the level the hook gives it |
| RoleController.CreateRoleAsWritten | backend/src/controllers/role.controller.js:4-18 | as written: a client-supplied `_id` is kept, and a stored one is refused as a duplicate key, changing nothing; otherwise the new role is the body with the hook's level; only a generated id is shown to keep the store acyclic |
| RoleController.SelfParentedCreateCycles | backend/src/controllers/role.controller.js:6-9 | as written, a body whose `_id` is unstored and is also its `parentRole` makes the store cyclic |
| RoleController.CreateRole | backend/src/controllers/role.controller.js:4-18 | as intended: the body becomes a new role under a generated id whatever `_id` it carries; its level comes from the hook, from the body or from the default 0, and the store stays acyclic |
| RoleController.CloneRole | backend/src/controllers/role.controller.js:233-260 | 404 for a missing source; otherwise a new role with the requested name and description, the source's populated permissions and its parent, and a level from the hook |
| RoleController.GetEffectivePermissionsHandler | backend/src/controllers/role.controller.js:262-282 | 404 for a missing role; otherwise the duplicate-free own and inherited permissions |
| RoleController.GetRoleHierarchy | backend/src/controllers/role.controller.js:174-231 | roots have no stored parent; children are exactly the roles whose parent is the node; nodes show stored levels; exactly the roles with a stopping walk appear |
| RoleController.ConsistentLevelsAgree | backend/src/controllers/role.controller.js:208-218 | with consistent stored levels, the two builders agree when they are built from the same listing: same ids, names, descriptions, permission ids, levels and nesting |
| UserModel.Seconds | backend/src/models/User.js:82 | `parseInt(ms / 1000)` is the whole number of seconds truncated toward zero, bounded on both sides |
| UserModel.ChangedPasswordAfter | backend/src/models/User.js:80-86 | false when no change is recorded; otherwise true iff the token's second ends before the change, with the negative-timestamp case separate |
| UserModel.IssuedAt | backend/src/models/User.js:80 | the issue time in whole seconds, rounded down, as the token records it |
| UserModel.UserDocument.PreSave | backend/src/models/User.js:52-67 | an unmodified password or an existing bcrypt hash is left alone; otherwise the password becomes its hash, and an existing document is stamped one second before `now` |
| UserModel.PasswordChangeRevokesOlderTokens | backend/src/models/User.js:63-65 | after a change saved at `now`, tokens signed two or more seconds earlier count as older, and tokens signed from `now - 1000` on do not |
| Auth.Split | backend/src/middleware/auth.js:10 | splitting on spaces always yields at least one field |
| Auth.SplitSpaceFree | backend/src/middleware/auth.js:10 | split fields hold no space |
| Auth.JoinSplit | backend/src/middleware/auth.js:10 | joining the fields of a string gives the string back |
| Auth.SplitJoin | backend/src/middleware/auth.js:10 | splitting joined space-free fields gives the fields back |
| Auth.BearerToken | backend/src/middleware/auth.js:9-13 | a token is taken iff the header starts with `Bearer` and its second field exists and is non-empty; the token is that field |
| Auth.BearerRoundTrip | backend/src/middleware/auth.js:9-11 | the token in `Bearer <token>` is taken back out whatever follows it; any scheme that merely starts with `Bearer` is accepted |
| Auth.Protect | backend/src/middleware/auth.js:5-58 | refuses, in order: no token, a token that does not verify, an unknown user, and a password changed after the token was issued; otherwise authenticates the claimed user |
| Auth.PasswordChangeLocksOutOldTokens | backend/src/middleware/auth.js:39-44 | after a password change, tokens signed two or more seconds earlier are refused, while tokens signed from the stamp on still pass |
| Auth.Authorize | backend/src/middleware/auth.js:60-84 | fails when the user or its role is not stored; otherwise passes iff the role name is in the allowed list |
| Auth.CheckPermission | backend/src/middleware/auth.js:86-113 | fails when the user or its role is not stored; otherwise passes iff a permission listed directly on the role, and stored, has the required name |
| Auth.InheritedPermissionRefused | backend/src/middleware/auth.js:97-106 | a permission the role only inherits from its parent is refused |
| SessionModel.ExpiredNeedsRefresh | backend/src/models/Session.js:57-64 | an expired session needs a refresh for any non-negative threshold, including the default five minutes |
| SessionModel.ExpiryInstant | backend/src/models/Session.js:57-59 | at the expiry instant, a session is neither expired nor live, and clean-up removes it only if it is inactive |
| SessionModel.LiveNotRemovable | backend/src/models/Session.js:67-84 | a live session is never removed by clean-up at the same instant |
| SessionModel.Removed | backend/src/models/Session.js:68-73 | definition: the deleted ids are exactly those expired strictly before `now` or inactive |
| SessionModel.Survivors | backend/src/models/Session.js:68-73 | definition: exactly the other sessions are kept, unchanged |
| SessionModel.CleanupPartition | backend/src/models/Session.js:67-75 | deleted plus kept sessions make up the whole collection |
| SessionModel.CleanupIdempotent | backend/src/models/Session.js:67-75 | a second clean-up at the same instant deletes nothing |
| SessionModel.ActiveSessions | backend/src/models/Session.js:78-84 | definition: exactly the user's active sessions whose expiry is after `now` |
| SessionModel.ActiveSessionsCount | backend/src/models/Session.js:78-84 | the count never exceeds the collection size |
| SessionModel.CleanupKeepsActiveCount | backend/src/models/Session.js:67-84 | clean-up never changes a user's live-session count |
| SessionModel.SessionStore.UpdateActivity | backend/src/models/Session.js:51-54 | only the session's `lastActivity` changes, to `now` |
| SessionModel.SessionStore.CleanupExpired | backend/src/models/Session.js:67-75 | the collection becomes its survivors, and the answer is the number deleted |
| SessionModel.IsExpired | backend/src/models/Session.js:57-59 | definition: the clock has passed the expiry instant; `ExpiryInstant` and `ExpiredNeedsRefresh` relate it to the other predicates |
| SessionModel.NeedsRefresh | backend/src/models/Session.js:61-64 | definition: at most the threshold remains before expiry, five minutes by default; `RefreshedIsLive` bounds it for a refreshed session |
| SessionModel.Removable | backend/src/models/Session.js:68-73 | definition: the clean-up filter, expired strictly before `now` or inactive; `LiveNotRemovable` shows it spares live sessions |
| SessionModel.CountsAsActive | backend/src/models/Session.js:79-83 | definition: the live-count filter, active and expiring after `now` |
| SessionController.Matching | backend/src/controllers/session.controller.js:6-9 | exactly the user's active sessions are selected, with no repeats |
| SessionController.Insert | backend/src/controllers/session.controller.js:9 | inserting adds exactly that id to the listing |
| SessionController.InsertSorted | backend/src/controllers/session.controller.js:9 | inserting into a listing sorted most-recent-first keeps it sorted |
| SessionController.SortByActivity | backend/src/controllers/session.controller.js:9 | the listing is a permutation of its input, sorted most recent activity first |
| SessionController.CountAtMostOne | backend/src/controllers/session.controller.js:6-9 | a listing without repeats holds every id at most once |
| SessionController.SameMultisetDistinct | backend/src/controllers/session.controller.js:9 | sorting introduces no repeats |
| SessionController.GetUserSessions | backend/src/controllers/session.controller.js:4-18 | exactly the user's active sessions, each once, most recent activity first |
| SessionController.PopulatedRole | backend/src/middleware/auth.js:23-30 | `req.user.role` is the role document when the role is stored and null otherwise; never a string |
| SessionController.StrictEqualsString | backend/src/controllers/session.controller.js:55 | definition: a document or null is never strictly equal to a string |
| SessionController.MayTerminateAsWritten | backend/src/controllers/session.controller.js:55 | definition: the check as written, owner or a role field strictly equal to `'admin'`; `OnlyOwnersAsWritten` shows it admits owners only |
| SessionController.MayTerminate | backend/src/controllers/session.controller.js:54-55 | definition: the caller may terminate a session iff it owns the session or its role is named `admin` |
| SessionController.AdminRefusedAsWritten | backend/src/controllers/session.controller.js:55-60 | as written, an administrator is refused on another user's session; the intended check admits them |
| SessionController.OnlyOwnersAsWritten | backend/src/controllers/session.controller.js:55 | as written, only the owner passes, whatever the caller's role |
| SessionController.TerminateSession | backend/src/controllers/session.controller.js:43-80 | 404 for a missing session; 403 unless the caller is the owner or an administrator; otherwise only that session becomes inactive |
| SessionController.TerminatedIds | backend/src/controllers/session.controller.js:87-94 | definition: the bulk update matches exactly the user's active sessions other than the excluded one |
| SessionController.DeactivateAll | backend/src/controllers/session.controller.js:96-98 | definition: matched sessions become inactive; every other session is unchanged |
| SessionController.TerminateAllSessions | backend/src/controllers/session.controller.js:82-117 | the collection becomes the bulk-updated one; the answer is the number of matched sessions |
| SessionController.DeactivateAllEffect | backend/src/controllers/session.controller.js:87-98 | afterwards the user has no live session except possibly the excluded one, and every other user keeps theirs |
| SessionController.RefreshSession | backend/src/controllers/session.controller.js:119-155 | 401 when no active session presents the token or the one found has expired, changing nothing; otherwise that session expires a day after `now` and was last active at `now`; success is certain when every presenting session is unexpired |
| SessionController.RefreshedIsLive | backend/src/controllers/session.controller.js:134-137 | a refreshed session is live for the whole next day and needs no refresh until five minutes before its end |
| SessionController.Presents | backend/src/controllers/session.controller.js:121-124 | definition: the `findOne` filter, an active session carrying the refresh token |
| SessionController.LiveIds | backend/src/controllers/session.controller.js:160-163 | definition: exactly the active sessions expiring after `now` |
| SessionController.ExpiredIds | backend/src/controllers/session.controller.js:164-169 | definition: exactly the inactive sessions and those expiring at or before `now` |
| SessionController.CountsAsExpired | backend/src/controllers/session.controller.js:164-169 | definition: the expired-count filter, inactive or expiring at or before `now` |
| SessionController.SessionStatsAsWritten | backend/src/controllers/session.controller.js:159-176 | definition: the statistics as written, each count with its own clock reading and the total their sum; `StatsDoubleCountAsWritten` and `StatsAsWrittenOvercount` state its defect |
| SessionController.StatsDoubleCountAsWritten | backend/src/controllers/session.controller.js:159-176 | with two clock readings, a session that expires between them is counted twice, and the total exceeds the collection size |
| SessionController.StatsAsWrittenOvercount | backend/src/controllers/session.controller.js:159-176 | with the readings in clock order, the written total is never below the collection size |
| SessionController.GetSessionStats | backend/src/controllers/session.controller.js:157-185 | with one reading, the active and expired counts partition the collection, and the total is its size |
| SessionController.ExpiredAfterCleanup | backend/src/controllers/session.controller.js:164-169 | right after a clean-up, the statistics count as expired only active sessions expiring exactly at `now` |

## Findings

| source | as written | input that shows it | evidently intended | confidence | as-written member | corrected member |
|---|---|---|---|---|---|---|
| backend/src/models/Role.js:53-66 | The `Set` holds permission id objects, and a `Set` compares objects by identity. The role's own ids and the ids read from each ancestor are distinct objects, so equal ids are never merged. | A role with permission 7 whose parent also has permission 7 gets `[7, 7]` (`RoleModel.DuplicateGrantAsWritten`). | Each permission listed once: a set keyed by id value. | not executed | RoleModel.EffectiveListAsWritten | RoleModel.GetEffectivePermissions |
| backend/src/controllers/session.controller.js:55 | `req.user.role !== 'admin'` compares the role that `protect` populated, a document or `null`, with a string, so the comparison is always unequal. | Any caller whose role is named `admin` is refused on another user's session (`SessionController.AdminRefusedAsWritten`). | Administrators may terminate any session: compare the role's name. | not executed | SessionController.OnlyOwnersAsWritten | SessionController.MayTerminate |
| backend/src/controllers/session.controller.js:159-176 | The two counts each read the clock. A session that expires between the readings is counted as active by the first and as expired by the second. | One active session expiring at 5, with readings at 4 and 5, gives a total of 2 (`SessionController.StatsDoubleCountAsWritten`). | One reading of the clock, so that the counts partition the collection. | not executed; needs the expiry to fall between two readings in one request | SessionController.StatsDoubleCountAsWritten | SessionController.GetSessionStats |
| backend/src/controllers/role.controller.js:6-9 | The request body is spread into the new document, so a client-supplied `_id` is kept, and nothing compares the body's `parentRole` with that id. | A POST with `_id` X and `parentRole` X, X not stored, stores X as its own parent. `getEffectivePermissions` on X and `updateRoleLevels` from X then never end (`RoleController.SelfParentedCreateCycles`). An `_id` equal to another role's dangling parent reference closes a longer cycle the same way. | The id is generated, so creation cannot close a cycle. | not executed; relies on Mongoose keeping a supplied `_id` | RoleController.CreateRoleAsWritten | RoleController.CreateRole |

`SessionController.TerminateSession` uses the corrected check.
`RoleController.GetEffectivePermissionsHandler` uses the corrected effective
permissions, and `RoleController.CloneRole` creates through the corrected
`RoleController.CreateRole`. The functions `SessionController.MayTerminateAsWritten` and
`SessionController.SessionStatsAsWritten` model the checks as written.

## Left out

- Hashing, and JWT signing and verification, are foreign cryptographic libraries. The hash is a parameter of `UserModel.UserDocument.PreSave`, and verification is the `verified` map of `Auth.Protect`.
- The database, HTTP responses, logging and activity records are left out. A store read is a map lookup; the model keeps each handler's status code and the data it decides on. `logActivity` calls and `console` output are not modelled.
- Asynchronous interleaving and concurrent hierarchy edits are left out. Every handler runs as one atomic step over the maps.
- The order in which a query lists documents is left to the database. `Role.getHierarchy` sorts its query by level, and the controller's builder takes the unsorted list. That order is the parameter `docs` of the hierarchy builders, and the builders are stated for any order. The listing order of `SessionController.GetUserSessions` is the parameter `scan`. The database's order among sessions with equal `lastActivity` is not modelled; only sortedness is stated.
- `SessionController.RefreshSession`: the three clock readings in `refreshSession` are one `now`, and `setHours(+24)` is modelled as 24 hours of milliseconds, so daylight-saving shifts are not modelled.
- `SessionController.RefreshSession`: `findOne` may return any matching session, so the method picks one nondeterministically. A missing `refreshToken` in the body is not modelled separately.
- `SessionModel.SessionStore.CleanupExpired`: the TTL index on `expiresAt`, which makes the database delete expired sessions on its own schedule, is not modelled.
- `RoleController.UpdateRole`, `RoleController.UpdateRoleLevels`: they require an acyclic store. On a cyclic store the source's walks may not terminate, and the model does not describe that behaviour.
- `RoleController.CreateRole`, `RoleController.CloneRole`, `RoleController.CreateRoleAsWritten`: a generated document id is a parameter that must be fresh and must differ from the body's parent reference. This stands for id generation. A client-supplied `_id` is modelled only in `CreateRoleAsWritten`.
- `RoleController.ParentChainReaches`, `RoleController.UpdateRole`: ids are compared as values. The source compares the lowercase hex string of each walked id with the raw URL parameter (role.controller.js:83), while `findByIdAndUpdate` casts that parameter and accepts upper-case hex. So a request whose URL writes the id in upper case passes the cycle check and can store a cycle, and `UpdateRole`'s promise to keep the store acyclic does not cover it. The model does not capture that.
- `RoleController.GetRoleHierarchy`, `RoleController.ConsistentLevelsAgree`: the controller's nodes also carry `parentRole`, `createdBy`, `createdAt` and `updatedAt`, and show each permission's name and description, while `Role.getHierarchy` returns whole permission documents. Nodes here hold permission ids only. The two handlers list from different queries, so sibling order agrees only when both are given the same `docs`.
- Schema validation is not modelled: required fields, the unique role name, `trim`, the user-status enum, and the cast errors of malformed ids. The `createdBy` and timestamp fields are carried by the source but decide nothing.
- The routes that merely list or fetch (`getAllRoles`, `getRoleById`, `getCurrentSession`) are not modelled. `cleanupExpiredSessions` only wraps `cleanupExpired` and logs.
- `UserModel.UserDocument.PreSave` models the hook's effect on the document; `isModified` and `isNew` are fields of the document.
- `Auth.Authorize`, `Auth.CheckPermission`: a thrown error is the `Failure` decision. The error handler that turns it into a response is not part of this model.
