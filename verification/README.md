# spec2policy in Dafny

A model of the policy compiler of `spec2policy.py`, the script that turns a
room-membership specification (a YAML list of entries naming a community,
rooms, LDAP users and groups, restricted rooms and room-creation flags) into
the JSON access policy of a Matrix server. The LDAP directory, the active-user
list and the Matrix room listing become plain inputs, and the script's main
body becomes pure functions of them.

- `Compiler.Compile(spec, listing, active, directory)` is the script with
  the two defects under "Findings" repaired: the flag map of line 293 is
  bound, and the broad path of line 311 appends only room ids the user does
  not hold yet. Its result is the policy or the crash that stops the
  repaired script.
- `Compiler.CompileAsWritten` is the script as written where it uses the
  flag map, at lines 293 and 334. Once the directory knows every group, it
  stops with a NameError in two cases. One is when somebody gets a record:
  line 293 then runs. The other is when `Compile` would stop on a flag user
  without a record: with nobody to loop over, line 334 is the first to read
  `flag`. On every other input it gives what `Compile` gives. It still uses
  the repaired room step; the room-step defect of line 311 is shown on its
  own.

Modules follow the script's stages:

- `Common`: `Option`, `Result`, the `Crash` reasons, `NoDup`.
- `Text`: Python's string order and `sorted(set(...))`.
- `Rooms`: the named-room map, the lookups `matrix_room_id` and
  `matrix_room_name`, the controlled rooms and `managedRoomIds`, and how the
  lookup and the ids follow the order of the room listing.
- `SpecModel`: specification entries, the reference lists
  `LDAPGROUPS`/`LDAPUSERS`, and `Communities`, the plain definition of
  `spec_groups` (one `matrixgroup` per entry).
- `Directory`: distinguished names, `USERSINGROUP` and `USERS`.
- `Membership`: the fold that fills `USER_DATA`.
- `Flags`: the per-user `forbidroomcreation` flag.
- `Compiler`: the policy document, `PolicyFlags` (the plain definition of
  `policy_update_flags`), `Compile`, `CompileAsWritten` and their
  properties.
- `Findings`: the concrete input behind the second finding below.

The room fold and the flag fold run in one loop in the script. The model runs
them one after the other. The room part never fails. So the first crash and
the final values are the same as the interleaved loop's.

The crashes of the repaired script are values, not preconditions:

- A group the directory does not know makes `ldap_group_members` return
  `False`, and iterating over it at line 276 raises `GroupNotFound`.
- A flag group that no room names raises a KeyError at line 332
  (`UnresolvedFlagGroup`).
- A flag user who gets no policy record raises a KeyError at line 334
  (`UnlistedFlagUser`).

`CompileSucceeds` states exactly when none of these happens. The script as
written has one more crash, `FlagMapUndefined`, the NameError of lines 293
and 334.

Details of the code that the model keeps:

- Of the room-creation settings, each user record carries only the
  `forbidroomcreation` key. It is written
  with the string `'true'`, and only when the flag is set. The encrypted and
  unencrypted room-creation flags are not written per user. The model holds
  the key as a boolean field.
- The entry keys are `rooms`, `matrixgroup`, `ldapusers`, `ldapgroups`,
  `restricted`, `ldapgroups-forbidroomcreation` and
  `ldapusers-forbidroomcreation`, and the items of `restricted` are read
  through `room`, `users` and `groups`. No other key is read.
- The policy carries `managedCommunityIds`, one item per entry, written as
  `[]` for an entry without `matrixgroup`.

## Model

| member | source | states |
|---|---|---|
| Rooms.NamedRooms | spec2policy.py:80-90 | the room map holds exactly the listed rooms that have a name, and never more rooms than the listing |
| Rooms.NamedRoomsAppend | spec2policy.py:86-88 | the room map of a listing split in two is the maps of the parts one after the other, so the map keeps listing order |
| Rooms.NamedRoomsSingle | spec2policy.py:87-88 | one record gives one room when it has a name, and nothing otherwise |
| Rooms.RoomId | spec2policy.py:92-99 | `matrix_room_id` gives the id of the first room with that name, and `None` exactly when no room has the name |
| Rooms.RoomName | spec2policy.py:104-111 | `matrix_room_name` gives the name of the first room with that id, and `None` exactly when no room has the id |
| Rooms.RoomNameOfRoomId | spec2policy.py:92-114 | when ids are unique, looking up the name of a looked-up id gives back the original name |
| Rooms.ControlledRooms | spec2policy.py:211 | a room is controlled exactly when it is in the map and its name is not in `IGNORED_ROOMS` |
| Rooms.ControlledRoomsAppend | spec2policy.py:211 | the controlled rooms of a split list are those of the parts one after the other, so the filter keeps the map's order |
| Rooms.ControlledRoomsSingle | spec2policy.py:211 | one room is controlled exactly when its name is not ignored |
| Rooms.LookupInListing | spec2policy.py:92-99 | looking a name up among the controlled rooms gives `x` exactly when the name is not ignored and the first listing record with that name has id `x` |
| Rooms.ManagedIdsInOrder | spec2policy.py:211-220 | `managedRoomIds` equals the ids of the named, non-ignored listing records taken in listing order in one pass |
| Rooms.ManagedIdsOfListing | spec2policy.py:211-220 | an id is in `managedRoomIds` exactly when the listing has a room with that id whose name exists and is not ignored |
| Rooms.LookupIsManaged | spec2policy.py:92-99 | a name found among the controlled rooms leads to a managed id of a listed room whose name is not ignored |
| SpecModel.RestrictedUsers | spec2policy.py:225-233 | `RESTRICTEDUSERS` is sorted, has no repeats, and holds exactly the users of the restricted rooms |
| SpecModel.RestrictedGroups | spec2policy.py:225-234 | `RESTRICTEDGROUPS` is sorted, has no repeats, and holds exactly the groups of the restricted rooms |
| SpecModel.LdapGroups | spec2policy.py:238-241 | `LDAPGROUPS` is sorted, has no repeats, and holds exactly the groups that the entries or their restricted rooms name |
| SpecModel.LdapUsers | spec2policy.py:250-253 | `LDAPUSERS` is sorted, has no repeats, and holds exactly the users that the entries or their restricted rooms name |
| Text.SortedSet | spec2policy.py:282 | `sorted(set(xs))` is strictly ascending in code-point order and holds exactly the elements of `xs` |
| Text.SortedSetCanonical | spec2policy.py:282 | the sorted set depends only on which elements occur, not on their order or repetition |
| Directory.UserDnInverse | spec2policy.py:124-125 | a user DN names exactly one user, and every user has one |
| Directory.GroupDn | spec2policy.py:127-131 | a group DN starts with `cn=<group>` and ends with the groups container; it is under `ou=packages` exactly when the name holds a dash |
| Directory.GroupDnInverse | spec2policy.py:127-131 | a group DN names exactly one group, and every group has one |
| Directory.GroupDnInjective | spec2policy.py:127-131 | two groups never share a DN |
| Directory.ActiveMembers | spec2policy.py:276 | a group's kept members are exactly its directory members that are active, and never more of them |
| Directory.ResolveGroups | spec2policy.py:274-276 | resolution succeeds exactly when the directory knows every group; otherwise it names the first unknown group in list order; on success it maps exactly the given groups to their active members |
| Directory.GroupMembers | spec2policy.py:304-305 | the `+= USERSINGROUP[group]` loops (also lines 278 and 318-319) collect exactly the resolved members of the listed groups |
| Directory.ResolvedMembers | spec2policy.py:276 | a user is a resolved member of a group exactly when the directory lists them in it and they are active |
| Directory.Users | spec2policy.py:273-282 | `USERS` is sorted, has no repeats, and holds exactly the direct users and the resolved members; direct users are not checked against the active list |
| Membership.AppendNew | spec2policy.py:322-326 | the check-then-append idiom keeps the old list as a prefix, adds exactly the new elements, and never adds a repeat |
| Membership.RoomIds | spec2policy.py:310-311 | a room id comes from the broad path exactly when one of the entry's room names looks up to it; unmatched names add nothing |
| Membership.BroadUsers | spec2policy.py:304-305 | the broad path reaches exactly the entry's users and the resolved members of its groups |
| Membership.Audience | spec2policy.py:315-319 | a restricted room reaches exactly its users and the resolved members of its groups |
| Membership.ReachesKnown | spec2policy.py:288-292 | everyone a path reaches has an entry in `USER_DATA`, so the lookups of the fold cannot fail |
| Membership.GrantAll | spec2policy.py:307-311 | granting to a list of users adds exactly the given ids to those users, changes nobody else, keeps old rooms, and never creates repeats |
| Membership.GrantAllAsWritten | spec2policy.py:307-311 | line 311's unchecked append grants the same set of rooms to the same users and changes nobody else |
| Membership.GrantRestricted | spec2policy.py:313-326 | the restricted rooms keep every user, keep old rooms in front, and never create a repeat |
| Membership.GrantRestrictedRooms | spec2policy.py:313-326 | the restricted rooms give a user exactly the existing rooms whose audience takes them in |
| Membership.RestrictedStepRooms | spec2policy.py:320-326 | one restricted room gives a user its room exactly when its audience takes them in and the room exists |
| Membership.EntryStep | spec2policy.py:296-326 | one entry keeps every user, keeps old rooms in front, and never creates a repeat |
| Membership.EntryStepRooms | spec2policy.py:296-326 | one entry gives a user exactly the rooms it grants them, on top of their earlier rooms |
| Membership.EntryStepAsWritten | spec2policy.py:296-326 | the entry step with line 311's append keeps every user |
| Membership.GrantEntries | spec2policy.py:295-326 | the fold over all entries keeps every user, keeps old rooms in front, and never creates a repeat |
| Membership.GrantEntriesRooms | spec2policy.py:295-326 | after the fold a user holds exactly the rooms some entry grants them |
| Flags.CheckedMembers | spec2policy.py:331-332 | collecting flag-group members fails exactly when a flag group is unresolved, and names such a group |
| Flags.FlagUsers | spec2policy.py:328-332 | an entry flags exactly its flag users and the resolved members of its flag groups |
| Flags.SetFlags | spec2policy.py:333-334 | setting flags fails exactly when a user has no record; otherwise it keeps the keys, sets exactly the given users, and never clears a flag |
| Flags.FlagEntry | spec2policy.py:327-334 | one entry's flags succeed exactly when its flag lists resolve; a failure blames one of them; success sets exactly the users the entry flags |
| Flags.FlagEntries | spec2policy.py:295-334 | the flag fold succeeds exactly when every entry's flag lists resolve; a flag ends set exactly when some entry flags the user |
| Compiler.MatrixUserIdInverse | spec2policy.py:339 | a Matrix id `@user:domain.com` names exactly one user, and every user has one |
| Compiler.EmitFollowsUsers | spec2policy.py:336-348 | there is one record per user, in `USERS` order, with the fixed login settings, and a record exists for exactly the users of `USERS` |
| Compiler.Resolution | spec2policy.py:272-282 | when every named group is known, the resolved groups are exactly the named groups with their active members, and `USERS` holds exactly the reachable users |
| Compiler.AssembleSucceeds | spec2policy.py:282-348 | once the groups are resolved, the rest of the script gets through exactly when every entry's flag lists name only room-path groups and users with a record |
| Compiler.AssembleFails | spec2policy.py:327-334 | once the groups are resolved, a crash names a flag group or flag user of some entry that does not resolve |
| Compiler.CompileSucceeds | spec2policy.py:274-334 | compilation gets through exactly when every named group is known, every flag group is named by some room path, and every flag user gets a record |
| Compiler.CompileFailsOnGroup | spec2policy.py:274-276 | an unknown group stops compilation, and the crash names the first unknown group in sorted order |
| Compiler.CompileFailsOnFlag | spec2policy.py:327-334 | with every group known, a crash names a flag group no room path names or a flag user without a record |
| Compiler.CompiledUsers | spec2policy.py:282-348 | when compilation gets through, the policy has a record for exactly the reachable users, ordered strictly by user name, with the fixed login settings |
| Compiler.FoldJoins | spec2policy.py:295-326 | the fold gives a user exactly the rooms the entries grant them when read off the directory |
| Compiler.GrantedManaged | spec2policy.py:310-326 | every room an entry grants, by either path, is a managed room |
| Compiler.FoldManaged | spec2policy.py:310-326 | the fold only ever grants managed rooms |
| Compiler.CompiledRooms | spec2policy.py:295-348 | in a policy that compilation produces, a record's `joinedRoomIds` are exactly the rooms the specification gives the user by the directory, each once, and all managed |
| Compiler.CompiledFlags | spec2policy.py:327-346 | in a policy that compilation produces, a record forbids room creation exactly when some entry's flag lists take in the user |
| Compiler.CompiledHeader | spec2policy.py:156-220 | when compilation gets through, the policy has schema version 1; the flags `policy_update_flags` sets by default (display names and avatars allowed, room creation allowed, pass-through passwords and both encryption bans off); the `matrixgroup` of each entry in entry order, as `spec_groups` collects them; and as `managedRoomIds` the ids of the named, non-ignored listing records in listing order |
| Compiler.AssembleAsWrittenCrashes | spec2policy.py:282-334 | once groups are resolved, the code as written stops with the NameError exactly when somebody gets a record (line 293) or the repaired code would stop on a flag user without a record (line 334), and otherwise assembles what the repaired code does |
| Compiler.CompileAsWrittenCrashes | spec2policy.py:272-334 | the script as written stops with the NameError exactly when every named group is known and either somebody gets a record (line 293) or the repaired script would stop on a flag user without a record (line 334); on every other input it gives what the repaired script gives |
| Findings.FlagUserWithoutUsers | spec2policy.py:289-334 | on an entry that only flags `bob`, the repaired script stops on `bob` missing from the flag map, and the script as written stops at line 334 on the flag map itself |
| Findings.BroadPathDuplicates | spec2policy.py:311 | a user listed directly and through a group gets the entry's room id twice from the code as written |
| Findings.BroadPathOnce | spec2policy.py:307-311 | on the same input the corrected step grants the room once |

## Left out

- Argument parsing, the configuration file and credentials (lines 30-64) are environment and I/O.
- The Matrix HTTP calls (lines 76-90) are replaced by the room listing they return. The listing is an input, and the rule that unnamed rooms are dropped is kept.
- The LDAP connection and searches (lines 116-151) are replaced by two inputs: a map from group name to member uids, and the set of active uids. `ldap_get_usernames` lowercases the uids it returns; the model takes the set as given. `ldap_user_in_group` is unused by the script.
- A group entry whose `memberUid` is absent yields the list `[None]`, which the active-user filter removes; the model treats such a group as having no members, with the same result.
- YAML loading and the JSON writer's key order and indentation (lines 68-71 and 350-356) belong to the libraries. All printing is left out too.
- The global `POLICY` dictionary (lines 153-180) becomes the immutable `Policy` record.
- In-place `+=` on lists that other names share (lines 238, 250, 305, 319, 332) is modelled by the values it produces. A YAML file that aliases one list from several entries would see the extension in later entries; the model does not follow such aliasing.
- `matrix-groups` is computed by the fold but never written to the policy (line 343 is commented out). The model keeps it in `UserData`, and no property states anything about it.
- Compiler.Compile: states what the script does with both defects under "Findings" repaired, not what it does as written. `Compiler.CompileAsWritten` restores the NameError of lines 293 and 334. The duplicated room ids of line 311 are shown on one entry step by `Findings.BroadPathDuplicates`, not for the whole script.
- Membership.EntryStepAsWritten: only states that every user is kept; which rooms it grants is stated by `Membership.GrantAllAsWritten` for the broad path and `Membership.GrantRestrictedRooms` for the restricted path.

## Findings

| source | as written | input that shows it | evidently intended | confidence | as-written member | corrected member |
|---|---|---|---|---|---|---|
| spec2policy.py:293 | `flag[user] = {}` assigns into a name that is never bound, so the loop raises a NameError; with no users the loop never runs and line 334 raises it instead | any run where every named group is known and `USERS` has at least one user (line 293); also any run where `USERS` is empty and an entry lists a `ldapusers-forbidroomcreation` user, such as one entry whose only list is `ldapusers-forbidroomcreation: [bob]` (line 334) | a flag map holding every user of `USERS`, unflagged | high, not executed | Compiler.CompileAsWrittenCrashes | Compiler.CompileSucceeds |
| spec2policy.py:311 | the broad path appends every looked-up room id without checking, so a user reached twice, or a room named twice, gets repeated ids | `alice` listed in `ldapusers` and a member of group `staff` in `ldapgroups`, with room `general` whose id is `!g`: once line 293 is repaired, her `joinedRoomIds` become `["!g", "!g"]` (as written, the run stops at line 293 first) | append only ids not yet present, as the restricted path does at lines 324-326 | high, not executed | Findings.BroadPathDuplicates | Membership.EntryStep |
