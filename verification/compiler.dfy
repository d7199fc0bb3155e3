/** The policy document and the whole script recast as one function,
    `Compile`, from the specification, the room listing, the active users and
    the directory's group members to the policy, with the properties the
    policy has as lemmas about it. */
module Compiler {
  import opened Common
  import opened Text
  import opened Rooms
  import opened SpecModel
  import opened Directory
  import opened Membership
  import opened Flags

  const DOMAIN: string := "domain.com"
  const SCHEMA_VERSION: int := 1
  const AUTH_CREDENTIAL: string := "http://matrix-ma1sd:8090/_matrix-internal/identity/v1/check_credentials"
  const AUTH_TYPE: string := "rest"

  /** The policy's top-level `flags`. */
  datatype GlobalFlags = GlobalFlags(
    allowCustomUserDisplayNames: bool,
    allowCustomUserAvatars: bool,
    forbidRoomCreation: bool,
    allowCustomPassthroughUserPasswords: bool,
    forbidEncryptedRoomCreation: bool,
    forbidUnencryptedRoomCreation: bool)

  /** One record of the policy's `users`. The record holds the key
      `forbidroomcreation` with the value `'true'` exactly when
      `forbidRoomCreation` holds, and no such key otherwise. */
  datatype UserPolicy = UserPolicy(
    id: string,
    active: bool,
    authCredential: string,
    authType: string,
    joinedRoomIds: seq<string>,
    forbidRoomCreation: bool)

  /** The policy document. A community of `None` is written as `[]`. */
  datatype Policy = Policy(
    schemaVersion: int,
    flags: GlobalFlags,
    managedCommunityIds: seq<Option<string>>,
    managedRoomIds: seq<string>,
    users: seq<UserPolicy>)

  /** `policy_update_flags`: only display names, avatars and room creation are
      configurable; pass-through passwords are never allowed and neither kind
      of room creation is forbidden by encryption. */
  function PolicyFlags(changeName: bool, changeAvatar: bool, forbidCreateRoom: bool): (f: GlobalFlags)
    ensures f.allowCustomUserDisplayNames == changeName
    ensures f.allowCustomUserAvatars == changeAvatar
    ensures f.forbidRoomCreation == forbidCreateRoom
    ensures !f.allowCustomPassthroughUserPasswords
    ensures !f.forbidEncryptedRoomCreation && !f.forbidUnencryptedRoomCreation
  {
    GlobalFlags(changeName, changeAvatar, forbidCreateRoom, false, false, false)
  }

  /** The Matrix id of a directory user (line 339). */
  function MatrixUserId(user: string): string {
    "@" + user + ":" + DOMAIN
  }

  /** Reads the directory user back out of a Matrix id of this domain. */
  function UserOfMatrixId(id: string): Option<string> {
    StripAffixes(id, "@", ":" + DOMAIN)
  }

  /** A Matrix id names exactly one user, and every user has one. */
  lemma MatrixUserIdInverse(id: string, user: string)
    ensures UserOfMatrixId(id) == Some(user) <==> MatrixUserId(user) == id
  {
    StripAffixesInverse(id, "@", ":" + DOMAIN, user);
    assert "@" + user + ":" + DOMAIN == "@" + user + (":" + DOMAIN);
  }

  /** Lines 336-348: one record per user, in the given order. */
  function Emit(users: seq<string>, data: map<string, UserData>, flags: map<string, bool>): (r: seq<UserPolicy>)
    requires forall u :: u in users ==> u in data && u in flags
    ensures |r| == |users|
    ensures forall i :: 0 <= i < |users| ==>
              r[i] == UserPolicy(MatrixUserId(users[i]), true, AUTH_CREDENTIAL, AUTH_TYPE,
                                 data[users[i]].matrixRooms, flags[users[i]])
  {
    seq(|users|, i requires 0 <= i < |users| =>
      UserPolicy(MatrixUserId(users[i]), true, AUTH_CREDENTIAL, AUTH_TYPE, data[users[i]].matrixRooms, flags[users[i]]))
  }

  /** The lists the room paths name are all resolved or known. */
  lemma FoldKnown(spec: seq<SpecEntry>, resolved: map<string, seq<string>>, keys: set<string>)
    requires forall g :: ReferencedGroup(spec, g) ==> g in resolved
    requires forall u :: ReferencedUser(spec, u) ==> u in keys
    ensures forall e :: e in spec ==> EntryKnown(e, resolved, keys)
  {
    forall e | e in spec
      ensures EntryKnown(e, resolved, keys)
    {
      forall rr | rr in e.restricted
        ensures RestrictedKnown(rr, resolved, keys)
      {
      }
    }
  }

  /** The whole script from its inputs to the policy it writes. */
  function Compile(spec: seq<SpecEntry>, listing: seq<RoomRecord>, active: set<string>, directory: map<string, seq<string>>)
    : Result<Policy, Crash>
  {
    var resolution := ResolveGroups(LdapGroups(spec), directory, active);
    if resolution.Failure? then Failure(resolution.error)
    else Assemble(spec, ControlledRooms(NamedRooms(listing)), resolution.value)
  }

  /** Lines 282-348: everything after the groups are resolved. */
  function Assemble(spec: seq<SpecEntry>, rooms: seq<Room>, resolved: map<string, seq<string>>): Result<Policy, Crash>
    requires forall g :: g in resolved <==> ReferencedGroup(spec, g)
  {
    var users := Users(LdapGroups(spec), resolved, LdapUsers(spec));
    var data := EmptyUserData(users);
    FoldKnown(spec, resolved, data.Keys);
    var flagged := FlagEntries(InitFlags(users), spec, resolved);
    if flagged.Failure? then Failure(flagged.error)
    else
      Success(Policy(SCHEMA_VERSION, PolicyFlags(true, true, false), Communities(spec), ManagedRoomIds(rooms),
                     Emit(users, GrantEntries(data, spec, Context(rooms, resolved)), flagged.value)))
  }

  /** Lines 282-348 as written: filling `USER_DATA` stops at the first user,
      whose flag entry is stored into the unbound `flag` (line 293). With no
      users that loop binds nothing, and the run goes on as `Assemble` does
      from the same empty flag map until line 334 first reads `flag` for a
      listed flag user: where `Assemble` finds that user missing from the map,
      the script finds the map itself missing. */
  function AssembleAsWritten(spec: seq<SpecEntry>, rooms: seq<Room>, resolved: map<string, seq<string>>): Result<Policy, Crash>
    requires forall g :: g in resolved <==> ReferencedGroup(spec, g)
  {
    var init := InitFlagsAsWritten(Users(LdapGroups(spec), resolved, LdapUsers(spec)));
    if init.Failure? then Failure(init.error)
    else
      var assembled := Assemble(spec, rooms, resolved);
      if assembled.Failure? && assembled.error.UnlistedFlagUser? then Failure(FlagMapUndefined) else assembled
  }

  /** The whole script as written, line 293 included. */
  function CompileAsWritten(spec: seq<SpecEntry>, listing: seq<RoomRecord>, active: set<string>, directory: map<string, seq<string>>)
    : Result<Policy, Crash>
  {
    var resolution := ResolveGroups(LdapGroups(spec), directory, active);
    if resolution.Failure? then Failure(resolution.error)
    else AssembleAsWritten(spec, ControlledRooms(NamedRooms(listing)), resolution.value)
  }

  /** `u` is one of `users` or, by the directory, an active member of one of
      `groups`. */
  ghost predicate Member(directory: map<string, seq<string>>, active: set<string>,
                         users: seq<string>, groups: seq<string>, u: string) {
    u in users || exists g :: g in groups && g in directory && u in directory[g] && u in active
  }

  /** `u` gets a record in the policy: named directly somewhere in the
      specification, or an active member of a group named there. */
  ghost predicate Reachable(spec: seq<SpecEntry>, directory: map<string, seq<string>>, active: set<string>, u: string) {
    ReferencedUser(spec, u) || exists g :: ReferencedGroup(spec, g) && g in directory && u in directory[g] && u in active
  }

  /** The flag lists of `e` name only groups that some room path names and
      only users who get a record. */
  ghost predicate FlagListsResolve(spec: seq<SpecEntry>, directory: map<string, seq<string>>, active: set<string>, e: SpecEntry) {
    && (forall g :: g in e.forbidGroups ==> ReferencedGroup(spec, g))
    && (forall u :: u in e.forbidUsers ==> Reachable(spec, directory, active, u))
  }

  /** Every entry's flag lists resolve. */
  ghost predicate FlagsCompilable(spec: seq<SpecEntry>, directory: map<string, seq<string>>, active: set<string>) {
    forall e :: e in spec ==> FlagListsResolve(spec, directory, active, e)
  }

  /** The inputs the script gets through: the directory knows every group the
      room paths name, and the flag lists are compilable. */
  ghost predicate Compilable(spec: seq<SpecEntry>, directory: map<string, seq<string>>, active: set<string>) {
    (forall g :: ReferencedGroup(spec, g) ==> g in directory) && FlagsCompilable(spec, directory, active)
  }

  /** `error` names a flag group of `e` that no room names, or a flag user of
      `e` who gets no record. */
  ghost predicate FlagBlame(spec: seq<SpecEntry>, directory: map<string, seq<string>>, active: set<string>,
                            e: SpecEntry, error: Crash) {
    || (exists g :: g in e.forbidGroups && !ReferencedGroup(spec, g) && error == UnresolvedFlagGroup(g))
    || (exists u :: u in e.forbidUsers && !Reachable(spec, directory, active, u) && error == UnlistedFlagUser(u))
  }

  /** What entry `e` gives `u`, read straight off the directory: the rooms of
      the entry when `u` is among its users, and each restricted room whose
      audience takes in `u`. */
  ghost predicate EntryJoins(e: SpecEntry, rooms: seq<Room>, directory: map<string, seq<string>>, active: set<string>,
                             u: string, x: string) {
    || (Member(directory, active, e.ldapUsers, e.ldapGroups, u) && exists n :: n in e.rooms && RoomId(rooms, n) == Some(x))
    || exists rr :: rr in e.restricted && Member(directory, active, rr.users, rr.groups, u) && RestrictedRoomId(rooms, rr) == Some(x)
  }

  /** Every resolved group holds the active members the directory lists. */
  ghost predicate Faithful(resolved: map<string, seq<string>>, directory: map<string, seq<string>>, active: set<string>) {
    forall g :: g in resolved ==> g in directory && resolved[g] == ActiveMembers(directory[g], active)
  }

  /** Resolving through a faithful map reaches the same users as the
      directory. */
  lemma ReachesMember(users: seq<string>, groups: seq<string>, resolved: map<string, seq<string>>,
                      directory: map<string, seq<string>>, active: set<string>, u: string)
    requires Faithful(resolved, directory, active)
    requires forall g :: g in groups ==> g in resolved
    ensures Reaches(users, groups, resolved, u) <==> Member(directory, active, users, groups, u)
  {
  }

  /** An entry grants through a faithful map what it grants by the directory. */
  lemma GrantedByJoins(e: SpecEntry, rooms: seq<Room>, resolved: map<string, seq<string>>,
                       directory: map<string, seq<string>>, active: set<string>, u: string, x: string)
    requires Faithful(resolved, directory, active)
    requires forall g :: g in e.ldapGroups ==> g in resolved
    requires forall rr :: rr in e.restricted ==> forall g :: g in rr.groups ==> g in resolved
    ensures GrantedBy(e, Context(rooms, resolved), u, x) <==> EntryJoins(e, rooms, directory, active, u, x)
  {
    ReachesMember(e.ldapUsers, e.ldapGroups, resolved, directory, active, u);
    forall rr | rr in e.restricted
      ensures Reaches(rr.users, rr.groups, resolved, u) <==> Member(directory, active, rr.users, rr.groups, u)
    {
      ReachesMember(rr.users, rr.groups, resolved, directory, active, u);
    }
  }

  /** `resolved` is what resolution gives on these inputs: exactly the named
      groups, each with its active members, so that `USERS` holds exactly
      the reachable users. */
  ghost predicate Resolves(spec: seq<SpecEntry>, directory: map<string, seq<string>>, active: set<string>,
                           resolved: map<string, seq<string>>) {
    && (forall g :: g in resolved <==> ReferencedGroup(spec, g))
    && Faithful(resolved, directory, active)
    && (forall u :: u in Users(LdapGroups(spec), resolved, LdapUsers(spec)) <==> Reachable(spec, directory, active, u))
  }

  /** When the directory knows every named group, resolution succeeds, keeps
      exactly the named groups with their active members, and the user list
      holds exactly the reachable users. */
  lemma Resolution(spec: seq<SpecEntry>, directory: map<string, seq<string>>, active: set<string>)
    requires forall g :: ReferencedGroup(spec, g) ==> g in directory
    ensures ResolveGroups(LdapGroups(spec), directory, active).Success?
    ensures Resolves(spec, directory, active, ResolveGroups(LdapGroups(spec), directory, active).value)
  {
    var groups := LdapGroups(spec);
    var resolved := ResolveGroups(groups, directory, active).value;
    var users := Users(groups, resolved, LdapUsers(spec));
    forall u
      ensures u in users <==> Reachable(spec, directory, active, u)
    {
      if u in users && !ReferencedUser(spec, u) {
        var g :| g in groups && u in resolved[g];
        ResolvedMembers(groups, directory, active, g, u);
      }
      if Reachable(spec, directory, active, u) && !ReferencedUser(spec, u) {
        var g :| ReferencedGroup(spec, g) && g in directory && u in directory[g] && u in active;
        ResolvedMembers(groups, directory, active, g, u);
      }
    }
  }

  /** With every named group known, compilation is assembly from the resolved
      groups. */
  lemma Resolved(spec: seq<SpecEntry>, listing: seq<RoomRecord>, active: set<string>, directory: map<string, seq<string>>)
      returns (resolved: map<string, seq<string>>)
    requires forall g :: ReferencedGroup(spec, g) ==> g in directory
    ensures Resolves(spec, directory, active, resolved)
    ensures ResolveGroups(LdapGroups(spec), directory, active) == Success(resolved)
    ensures Compile(spec, listing, active, directory) == Assemble(spec, ControlledRooms(NamedRooms(listing)), resolved)
  {
    Resolution(spec, directory, active);
    resolved := ResolveGroups(LdapGroups(spec), directory, active).value;
  }

  /** A compilation that gets through found every named group. */
  lemma CompiledKnown(spec: seq<SpecEntry>, listing: seq<RoomRecord>, active: set<string>, directory: map<string, seq<string>>)
    ensures Compile(spec, listing, active, directory).Success? ==> forall g :: ReferencedGroup(spec, g) ==> g in directory
  {
    if Compile(spec, listing, active, directory).Success? {
      assert ResolveGroups(LdapGroups(spec), directory, active).Success?;
    }
  }

  /** Every resolved member is on the user list, which is the key set of both
      maps the fold starts from. */
  lemma UsersKnown(spec: seq<SpecEntry>, resolved: map<string, seq<string>>)
    requires forall g :: g in resolved <==> ReferencedGroup(spec, g)
    ensures var users := Users(LdapGroups(spec), resolved, LdapUsers(spec));
      && MembersKnown(resolved, InitFlags(users).Keys)
      && MembersKnown(resolved, EmptyUserData(users).Keys)
  {
  }

  /** Assembly gets through exactly when the flag lists are compilable. */
  lemma AssembleSucceeds(spec: seq<SpecEntry>, rooms: seq<Room>, resolved: map<string, seq<string>>,
                         directory: map<string, seq<string>>, active: set<string>)
    requires Resolves(spec, directory, active, resolved)
    ensures Assemble(spec, rooms, resolved).Success? <==> FlagsCompilable(spec, directory, active)
  {
    UsersKnown(spec, resolved);
    var users := Users(LdapGroups(spec), resolved, LdapUsers(spec));
    var flags := InitFlags(users);
    assert forall u :: u in flags.Keys <==> Reachable(spec, directory, active, u);
    var flagged := FlagEntries(flags, spec, resolved);
    assert Assemble(spec, rooms, resolved).Success? <==> flagged.Success?;
    assert flagged.Success? <==> forall e :: e in spec ==> FlagsResolve(e, resolved, flags.Keys);
    forall e | e in spec
      ensures FlagsResolve(e, resolved, flags.Keys) <==> FlagListsResolve(spec, directory, active, e)
    {
      FlagsResolveCompilable(spec, directory, active, resolved, flags.Keys, e);
    }
  }

  /** `FlagsResolve` over the resolved groups and the user list is an entry's
      part of `FlagsCompilable`. */
  lemma FlagsResolveCompilable(spec: seq<SpecEntry>, directory: map<string, seq<string>>, active: set<string>,
                               resolved: map<string, seq<string>>, keys: set<string>, e: SpecEntry)
    requires forall g :: g in resolved <==> ReferencedGroup(spec, g)
    requires forall u :: u in keys <==> Reachable(spec, directory, active, u)
    ensures FlagsResolve(e, resolved, keys) <==> FlagListsResolve(spec, directory, active, e)
  {
  }

  /** A failed assembly is blamed on a flag list. */
  lemma AssembleFails(spec: seq<SpecEntry>, rooms: seq<Room>, resolved: map<string, seq<string>>,
                      directory: map<string, seq<string>>, active: set<string>)
    requires Resolves(spec, directory, active, resolved)
    requires Assemble(spec, rooms, resolved).Failure?
    ensures exists e :: e in spec && FlagBlame(spec, directory, active, e, Assemble(spec, rooms, resolved).error)
  {
    var users := Users(LdapGroups(spec), resolved, LdapUsers(spec));
    var flags := InitFlags(users);
    assert forall u :: u in flags.Keys <==> Reachable(spec, directory, active, u);
    var flagged := FlagEntries(flags, spec, resolved);
    assert Assemble(spec, rooms, resolved) == Failure(flagged.error);
    var e :| e in spec && Blames(e, resolved, flags.Keys, flagged.error);
    BlamesFlagBlame(spec, directory, active, resolved, flags.Keys, e, flagged.error);
  }

  /** `Blames` over the resolved groups and the user list is `FlagBlame`. */
  lemma BlamesFlagBlame(spec: seq<SpecEntry>, directory: map<string, seq<string>>, active: set<string>,
                        resolved: map<string, seq<string>>, keys: set<string>, e: SpecEntry, error: Crash)
    requires forall g :: g in resolved <==> ReferencedGroup(spec, g)
    requires forall u :: u in keys <==> Reachable(spec, directory, active, u)
    requires Blames(e, resolved, keys, error)
    ensures FlagBlame(spec, directory, active, e, error)
  {
  }

  /** The script gets through exactly on compilable inputs. */
  lemma CompileSucceeds(spec: seq<SpecEntry>, listing: seq<RoomRecord>, active: set<string>, directory: map<string, seq<string>>)
    ensures Compile(spec, listing, active, directory).Success? <==> Compilable(spec, directory, active)
  {
    if forall g :: ReferencedGroup(spec, g) ==> g in directory {
      var resolved := Resolved(spec, listing, active, directory);
      AssembleSucceeds(spec, ControlledRooms(NamedRooms(listing)), resolved, directory, active);
    }
  }

  /** A group the directory does not know stops the script, and the group it
      stops at is the first such group in Python's string order. */
  lemma CompileFailsOnGroup(spec: seq<SpecEntry>, listing: seq<RoomRecord>, active: set<string>, directory: map<string, seq<string>>)
    requires !forall g :: ReferencedGroup(spec, g) ==> g in directory
    ensures Compile(spec, listing, active, directory).Failure?
    ensures exists g :: Compile(spec, listing, active, directory).error == GroupNotFound(g)
                        && ReferencedGroup(spec, g) && g !in directory
                        && forall h :: ReferencedGroup(spec, h) && Below(h, g) ==> h in directory
  {
    var groups := LdapGroups(spec);
    var r := ResolveGroups(groups, directory, active);
    var i :| 0 <= i < |groups| && r.error == GroupNotFound(groups[i]) && groups[i] !in directory
             && forall j :: 0 <= j < i ==> groups[j] in directory;
    forall h | ReferencedGroup(spec, h) && Below(h, groups[i])
      ensures h in directory
    {
      var j :| 0 <= j < |groups| && groups[j] == h;
      SortedIndexBelow(groups, i, j);
    }
    assert groups[i] in groups;
  }

  /** When every group is known, a failure comes from a flag list: a flag
      group no room path names, or a flag user who gets no record. */
  lemma CompileFailsOnFlag(spec: seq<SpecEntry>, listing: seq<RoomRecord>, active: set<string>, directory: map<string, seq<string>>)
    requires forall g :: ReferencedGroup(spec, g) ==> g in directory
    requires Compile(spec, listing, active, directory).Failure?
    ensures exists e :: e in spec && FlagBlame(spec, directory, active, e, Compile(spec, listing, active, directory).error)
  {
    var resolved := Resolved(spec, listing, active, directory);
    AssembleFails(spec, ControlledRooms(NamedRooms(listing)), resolved, directory, active);
  }

  /** The intermediate values of an assembly that gets through. */
  lemma Stages(spec: seq<SpecEntry>, rooms: seq<Room>, resolved: map<string, seq<string>>,
               directory: map<string, seq<string>>, active: set<string>)
      returns (users: seq<string>, joined: map<string, UserData>, flags: map<string, bool>)
    requires Resolves(spec, directory, active, resolved)
    requires Assemble(spec, rooms, resolved).Success?
    ensures StrictlySorted(users)
    ensures forall u :: u in users <==> Reachable(spec, directory, active, u)
    ensures MembersKnown(resolved, EmptyUserData(users).Keys)
    ensures forall e :: e in spec ==> EntryKnown(e, resolved, EmptyUserData(users).Keys)
    ensures joined == GrantEntries(EmptyUserData(users), spec, Context(rooms, resolved))
    ensures forall u :: u in flags <==> u in users
    ensures forall u :: u in flags ==> (flags[u] <==> exists e :: e in spec && Reaches(e.forbidUsers, e.forbidGroups, resolved, u))
    ensures forall e :: e in spec ==> forall g :: g in e.forbidGroups ==> g in resolved
    ensures Assemble(spec, rooms, resolved).value.users == Emit(users, joined, flags)
  {
    users := Users(LdapGroups(spec), resolved, LdapUsers(spec));
    var data := EmptyUserData(users);
    FoldKnown(spec, resolved, data.Keys);
    joined := GrantEntries(data, spec, Context(rooms, resolved));
    var flagged := FlagEntries(InitFlags(users), spec, resolved);
    flags := flagged.value;
  }

  /** The records `Emit` writes follow the user list: one per user, in its
      order, each with the fixed login settings. */
  lemma EmitFollowsUsers(users: seq<string>, joined: map<string, UserData>, flags: map<string, bool>)
    requires forall u :: u in users ==> u in joined && u in flags
    ensures var ps := Emit(users, joined, flags);
      && (forall u :: u in users <==> exists i :: 0 <= i < |ps| && ps[i].id == MatrixUserId(u))
      && (forall i :: 0 <= i < |ps| ==> UserOfMatrixId(ps[i].id) == Some(users[i]))
      && (forall i :: 0 <= i < |ps| ==>
            ps[i].active && ps[i].authCredential == AUTH_CREDENTIAL && ps[i].authType == AUTH_TYPE)
  {
    var ps := Emit(users, joined, flags);
    forall i | 0 <= i < |ps|
      ensures UserOfMatrixId(ps[i].id) == Some(users[i])
    {
      MatrixUserIdInverse(ps[i].id, users[i]);
    }
    forall u
      ensures u in users <==> exists i :: 0 <= i < |ps| && ps[i].id == MatrixUserId(u)
    {
      if u in users {
        var i :| 0 <= i < |users| && users[i] == u;
        assert ps[i].id == MatrixUserId(u);
      }
      if i :| 0 <= i < |ps| && ps[i].id == MatrixUserId(u) {
        MatrixUserIdInverse(ps[i].id, u);
        assert users[i] in users;
      }
    }
  }

  /** The policy holds one record per reachable user, in Python's string order
      of the user names, each with the fixed login settings. */
  lemma CompiledUsers(spec: seq<SpecEntry>, listing: seq<RoomRecord>, active: set<string>, directory: map<string, seq<string>>)
    ensures var r := Compile(spec, listing, active, directory);
      r.Success? ==> var p := r.value;
      && (forall u :: Reachable(spec, directory, active, u)
                      <==> exists i :: 0 <= i < |p.users| && p.users[i].id == MatrixUserId(u))
      && (forall i :: 0 <= i < |p.users| ==> UserOfMatrixId(p.users[i].id).Some?)
      && (forall i, j :: 0 <= i < j < |p.users| ==>
            Below(UserOfMatrixId(p.users[i].id).value, UserOfMatrixId(p.users[j].id).value))
      && (forall i :: 0 <= i < |p.users| ==>
            p.users[i].active && p.users[i].authCredential == AUTH_CREDENTIAL && p.users[i].authType == AUTH_TYPE)
  {
    if Compile(spec, listing, active, directory).Success? {
      CompiledKnown(spec, listing, active, directory);
      var resolved := Resolved(spec, listing, active, directory);
      var users, joined, flags := Stages(spec, ControlledRooms(NamedRooms(listing)), resolved, directory, active);
      EmitFollowsUsers(users, joined, flags);
    }
  }

  /** After the fold over a faithful map, a user holds exactly the rooms the
      specification gives them by the directory. */
  lemma FoldJoins(spec: seq<SpecEntry>, rooms: seq<Room>, resolved: map<string, seq<string>>,
                  directory: map<string, seq<string>>, active: set<string>, users: seq<string>, u: string, x: string)
    requires Faithful(resolved, directory, active)
    requires MembersKnown(resolved, EmptyUserData(users).Keys)
    requires forall e :: e in spec ==> EntryKnown(e, resolved, EmptyUserData(users).Keys)
    requires u in users
    ensures x in GrantEntries(EmptyUserData(users), spec, Context(rooms, resolved))[u].matrixRooms
        <==> exists e :: e in spec && EntryJoins(e, rooms, directory, active, u, x)
    ensures NoDup(GrantEntries(EmptyUserData(users), spec, Context(rooms, resolved))[u].matrixRooms)
  {
    var data := EmptyUserData(users);
    var ctx := Context(rooms, resolved);
    assert WellFormed(data[u]);
    GrantEntriesRooms(data, spec, ctx, u, x);
    forall e | e in spec
      ensures GrantedBy(e, ctx, u, x) <==> EntryJoins(e, rooms, directory, active, u, x)
    {
      assert EntryKnown(e, resolved, data.Keys);
      forall rr | rr in e.restricted
        ensures forall g :: g in rr.groups ==> g in resolved
      {
        assert RestrictedKnown(rr, resolved, data.Keys);
      }
      GrantedByJoins(e, rooms, resolved, directory, active, u, x);
    }
  }

  /** A room an entry grants is a managed room. */
  lemma GrantedManaged(e: SpecEntry, listing: seq<RoomRecord>, resolved: map<string, seq<string>>, u: string, x: string)
    requires GrantedBy(e, Context(ControlledRooms(NamedRooms(listing)), resolved), u, x)
    ensures x in ManagedRoomIds(ControlledRooms(NamedRooms(listing)))
  {
    var rooms := ControlledRooms(NamedRooms(listing));
    if n :| n in e.rooms && RoomId(rooms, n) == Some(x) {
      LookupIsManaged(NamedRooms(listing), n);
    } else {
      var rr :| rr in e.restricted && RestrictedGrant(rr, Context(rooms, resolved), u, x);
      assert RoomId(rooms, rr.room.value) == Some(x);
      LookupIsManaged(NamedRooms(listing), rr.room.value);
    }
  }

  /** The fold grants only managed rooms. */
  lemma FoldManaged(spec: seq<SpecEntry>, listing: seq<RoomRecord>, resolved: map<string, seq<string>>,
                    users: seq<string>, u: string, x: string)
    requires MembersKnown(resolved, EmptyUserData(users).Keys)
    requires forall e :: e in spec ==> EntryKnown(e, resolved, EmptyUserData(users).Keys)
    requires u in users
    requires x in GrantEntries(EmptyUserData(users), spec, Context(ControlledRooms(NamedRooms(listing)), resolved))[u].matrixRooms
    ensures x in ManagedRoomIds(ControlledRooms(NamedRooms(listing)))
  {
    var ctx := Context(ControlledRooms(NamedRooms(listing)), resolved);
    GrantEntriesRooms(EmptyUserData(users), spec, ctx, u, x);
    assert x !in EmptyUserData(users)[u].matrixRooms;
    var e :| e in spec && GrantedBy(e, ctx, u, x);
    GrantedManaged(e, listing, resolved, u, x);
  }

  /** A user's record lists exactly the rooms the specification gives them by
      the directory, each once, and only managed rooms. */
  lemma CompiledRooms(spec: seq<SpecEntry>, listing: seq<RoomRecord>, active: set<string>, directory: map<string, seq<string>>,
                      i: int, u: string, x: string)
    ensures var r := Compile(spec, listing, active, directory);
      r.Success? && 0 <= i < |r.value.users| && r.value.users[i].id == MatrixUserId(u) ==> var p := r.value;
      && (x in p.users[i].joinedRoomIds
          <==> exists e :: e in spec && EntryJoins(e, ControlledRooms(NamedRooms(listing)), directory, active, u, x))
      && NoDup(p.users[i].joinedRoomIds)
      && (x in p.users[i].joinedRoomIds ==> x in p.managedRoomIds)
  {
    var r := Compile(spec, listing, active, directory);
    if r.Success? && 0 <= i < |r.value.users| && r.value.users[i].id == MatrixUserId(u) {
      CompiledKnown(spec, listing, active, directory);
      var resolved := Resolved(spec, listing, active, directory);
      var users, joined, flags := Stages(spec, ControlledRooms(NamedRooms(listing)), resolved, directory, active);
      var p := r.value;
      MatrixUserIdInverse(p.users[i].id, users[i]);
      MatrixUserIdInverse(p.users[i].id, u);
      assert users[i] == u;
      assert u in joined && p.users[i].joinedRoomIds == joined[u].matrixRooms;
      FoldJoins(spec, ControlledRooms(NamedRooms(listing)), resolved, directory, active, users, u, x);
      if x in joined[u].matrixRooms {
        FoldManaged(spec, listing, resolved, users, u, x);
      }
    }
  }

  /** A user's record forbids room creation exactly when some entry's flag
      lists take in that user by the directory. */
  lemma CompiledFlags(spec: seq<SpecEntry>, listing: seq<RoomRecord>, active: set<string>, directory: map<string, seq<string>>,
                      i: int, u: string)
    ensures var r := Compile(spec, listing, active, directory);
      r.Success? && 0 <= i < |r.value.users| && r.value.users[i].id == MatrixUserId(u) ==>
        (r.value.users[i].forbidRoomCreation <==> exists e :: e in spec && Member(directory, active, e.forbidUsers, e.forbidGroups, u))
  {
    var r := Compile(spec, listing, active, directory);
    if r.Success? && 0 <= i < |r.value.users| && r.value.users[i].id == MatrixUserId(u) {
      CompiledKnown(spec, listing, active, directory);
      var resolved := Resolved(spec, listing, active, directory);
      var users, joined, flags := Stages(spec, ControlledRooms(NamedRooms(listing)), resolved, directory, active);
      var p := r.value;
      MatrixUserIdInverse(p.users[i].id, users[i]);
      MatrixUserIdInverse(p.users[i].id, u);
      assert users[i] == u;
      assert u in flags && p.users[i].forbidRoomCreation == flags[u];
      forall e | e in spec
        ensures Reaches(e.forbidUsers, e.forbidGroups, resolved, u) <==> Member(directory, active, e.forbidUsers, e.forbidGroups, u)
      {
        ReachesMember(e.forbidUsers, e.forbidGroups, resolved, directory, active, u);
      }
    }
  }

  /** The document's fixed parts: the schema version, the global flags, one
      community per entry, and one managed id per named, non-ignored room of
      the listing. */
  lemma CompiledHeader(spec: seq<SpecEntry>, listing: seq<RoomRecord>, active: set<string>, directory: map<string, seq<string>>)
    ensures var r := Compile(spec, listing, active, directory);
      r.Success? ==> var p := r.value;
      && p.schemaVersion == 1
      && p.flags.allowCustomUserDisplayNames && p.flags.allowCustomUserAvatars && !p.flags.forbidRoomCreation
      && !p.flags.allowCustomPassthroughUserPasswords
      && !p.flags.forbidEncryptedRoomCreation && !p.flags.forbidUnencryptedRoomCreation
      && |p.managedCommunityIds| == |spec|
      && (forall k :: 0 <= k < |spec| ==> p.managedCommunityIds[k] == spec[k].matrixGroup)
      && (forall id :: id in p.managedRoomIds <==> exists n :: n !in IGNORED_ROOMS && RoomRecord(Some(n), id) in listing)
      && p.managedRoomIds == ListedIds(listing)
  {
    if Compile(spec, listing, active, directory).Success? {
      ManagedIdsInOrder(listing);
      CompiledKnown(spec, listing, active, directory);
      var resolved := Resolved(spec, listing, active, directory);
      forall id
        ensures id in ManagedRoomIds(ControlledRooms(NamedRooms(listing)))
            <==> exists n :: n !in IGNORED_ROOMS && RoomRecord(Some(n), id) in listing
      {
        ManagedIdsOfListing(listing, id);
      }
    }
  }

  /** Once the groups are resolved, the script as written stops with the
      NameError exactly when somebody gets a record (line 293) or the
      corrected script would stop on a flag user (line 334), and otherwise
      assembles what the corrected script does. */
  lemma AssembleAsWrittenCrashes(spec: seq<SpecEntry>, rooms: seq<Room>, resolved: map<string, seq<string>>,
                                 directory: map<string, seq<string>>, active: set<string>)
    requires Resolves(spec, directory, active, resolved)
    ensures AssembleAsWritten(spec, rooms, resolved) == Failure(FlagMapUndefined)
        <==> || (exists u :: Reachable(spec, directory, active, u))
             || (Assemble(spec, rooms, resolved).Failure? && Assemble(spec, rooms, resolved).error.UnlistedFlagUser?)
    ensures AssembleAsWritten(spec, rooms, resolved) == Assemble(spec, rooms, resolved)
         || AssembleAsWritten(spec, rooms, resolved) == Failure(FlagMapUndefined)
  {
    var users := Users(LdapGroups(spec), resolved, LdapUsers(spec));
    if exists u :: Reachable(spec, directory, active, u) {
      var u :| Reachable(spec, directory, active, u);
      assert u in users;
    } else {
      SameEmptiness(users, []);
      if Assemble(spec, rooms, resolved).Failure? {
        AssembleFails(spec, rooms, resolved, directory, active);
      }
    }
  }

  /** As written, the script stops with the NameError exactly when the
      directory knows every group and either somebody gets a record (line 293)
      or the corrected script stops on a flag user (line 334); on every other
      input it does what the corrected script does. */
  lemma CompileAsWrittenCrashes(spec: seq<SpecEntry>, listing: seq<RoomRecord>, active: set<string>, directory: map<string, seq<string>>)
    ensures CompileAsWritten(spec, listing, active, directory) == Failure(FlagMapUndefined)
        <==> && (forall g :: ReferencedGroup(spec, g) ==> g in directory)
             && (|| (exists u :: Reachable(spec, directory, active, u))
                 || (Compile(spec, listing, active, directory).Failure?
                     && Compile(spec, listing, active, directory).error.UnlistedFlagUser?))
    ensures CompileAsWritten(spec, listing, active, directory) == Compile(spec, listing, active, directory)
         || CompileAsWritten(spec, listing, active, directory) == Failure(FlagMapUndefined)
  {
    if forall g :: ReferencedGroup(spec, g) ==> g in directory {
      var resolved := Resolved(spec, listing, active, directory);
      var rooms := ControlledRooms(NamedRooms(listing));
      assert CompileAsWritten(spec, listing, active, directory) == AssembleAsWritten(spec, rooms, resolved);
      AssembleAsWrittenCrashes(spec, rooms, resolved, directory, active);
    } else {
      var resolution := ResolveGroups(LdapGroups(spec), directory, active);
      CompileFailsOnGroup(spec, listing, active, directory);
      assert resolution.Failure?;
      assert CompileAsWritten(spec, listing, active, directory) == Failure(resolution.error);
      assert Compile(spec, listing, active, directory) == Failure(resolution.error);
    }
  }
}
