/** The fold over the specification that fills `USER_DATA` (the communities
    and rooms of every user) and the per-user room-creation flag. */
module Membership {
  import opened Common
  import opened Rooms
  import opened SpecModel
  import opened Directory

  /** `USER_DATA[user]`: the communities (`matrix-groups`) and the room ids
      (`matrix-rooms`) granted so far. */
  datatype UserData = UserData(matrixGroups: seq<Option<string>>, matrixRooms: seq<string>)

  /** What the fold reads besides the specification: the controlled rooms
      (`ROOMS`) and the resolved groups (`USERSINGROUP`). */
  datatype Context = Context(rooms: seq<Room>, resolved: map<string, seq<string>>)

  /** Neither list of a user repeats an element. */
  predicate WellFormed(d: UserData) {
    NoDup(d.matrixGroups) && NoDup(d.matrixRooms)
  }

  /** `USER_DATA` before the fold: an empty record for every user. */
  function EmptyUserData(users: seq<string>): (data: map<string, UserData>)
    ensures forall u :: u in data <==> u in users
    ensures forall u :: u in data ==> data[u] == UserData([], []) && WellFormed(data[u])
  {
    map u | u in users :: UserData([], [])
  }

  /** The flag map as lines 289-294 intend it: every user present, none flagged. */
  function InitFlags(users: seq<string>): (flags: map<string, bool>)
    ensures forall u :: u in flags <==> u in users
    ensures forall u :: u in flags ==> !flags[u]
  {
    map u | u in users :: false
  }

  /** The flag map as lines 289-294 build it: `flag` is never bound, so storing
      the first user's entry raises a NameError. */
  function InitFlagsAsWritten(users: seq<string>): (r: Result<map<string, bool>, Crash>)
    ensures |users| > 0 ==> r == Failure(FlagMapUndefined)
    ensures r.Success? ==> r.value == InitFlags(users)
  {
    if |users| == 0 then Success(map[]) else Failure(FlagMapUndefined)
  }

  /** Appends each element of `xs` that `acc` does not hold yet, in order: the
      `if ... not in ...: append` idiom of lines 308-309, 322-323 and 325-326. */
  function AppendNew<T(==,!new)>(acc: seq<T>, xs: seq<T>): (r: seq<T>)
    ensures acc <= r
    ensures forall x :: x in r <==> x in acc || x in xs
    ensures NoDup(acc) ==> NoDup(r)
    decreases |xs|
  {
    if |xs| == 0 then acc
    else
      assert xs == [xs[0]] + xs[1..];
      var next := if xs[0] in acc then acc else acc + [xs[0]];
      assert NoDup(acc) ==> NoDup(next);
      AppendNew(next, xs[1..])
  }

  /** The ids of the named rooms that exist, dropping names with no match
      (line 310-311's `rooms_names` without its `None`s). */
  function RoomIds(rooms: seq<Room>, names: seq<string>): (r: seq<string>)
    ensures forall x :: x in r <==> exists n :: n in names && RoomId(rooms, n) == Some(x)
  {
    if |names| == 0 then []
    else
      assert names == [names[0]] + names[1..];
      var rest := RoomIds(rooms, names[1..]);
      assert forall n :: n in names <==> n == names[0] || n in names[1..];
      match RoomId(rooms, names[0])
      case None => rest
      case Some(id) => [id] + rest
  }

  /** The id of a restricted room's `room`; a missing `room` matches nothing,
      since every controlled room has a name. */
  function RestrictedRoomId(rooms: seq<Room>, rr: RestrictedRoom): Option<string> {
    if rr.room.None? then None else RoomId(rooms, rr.room.value)
  }

  function OptionIds(id: Option<string>): (r: seq<string>)
    ensures forall x :: x in r <==> id == Some(x)
  {
    if id.None? then [] else [id.value]
  }

  /** `u` is one of `users` or an active member of one of `groups`. */
  ghost predicate Reaches(users: seq<string>, groups: seq<string>, resolved: map<string, seq<string>>, u: string) {
    u in users || exists g :: g in groups && g in resolved && u in resolved[g]
  }

  /** Every resolved member is one of `keys`. */
  ghost predicate MembersKnown(resolved: map<string, seq<string>>, keys: set<string>) {
    forall g, u :: g in resolved && u in resolved[g] ==> u in keys
  }

  /** Whoever a list of users and groups reaches is known, when the users are
      and the group members are. */
  lemma ReachesKnown(users: seq<string>, groups: seq<string>, resolved: map<string, seq<string>>, keys: set<string>)
    requires forall u :: u in users ==> u in keys
    requires MembersKnown(resolved, keys)
    ensures forall v :: Reaches(users, groups, resolved, v) ==> v in keys
  {
  }

  ghost predicate RestrictedKnown(rr: RestrictedRoom, resolved: map<string, seq<string>>, keys: set<string>) {
    (forall u :: u in rr.users ==> u in keys) && (forall g :: g in rr.groups ==> g in resolved)
  }

  /** Every user and group an entry's room paths name is known, so that no
      lookup of lines 305, 308, 319 or 322 can fail. */
  ghost predicate EntryKnown(e: SpecEntry, resolved: map<string, seq<string>>, keys: set<string>) {
    && (forall u :: u in e.ldapUsers ==> u in keys)
    && (forall g :: g in e.ldapGroups ==> g in resolved)
    && (forall rr :: rr in e.restricted ==> RestrictedKnown(rr, resolved, keys))
  }

  /** The users of an entry's broad path: its `ldapusers`, then the members
      of its `ldapgroups` (line 305). */
  function BroadUsers(e: SpecEntry, resolved: map<string, seq<string>>): (r: seq<string>)
    requires forall g :: g in e.ldapGroups ==> g in resolved
    ensures forall u :: u in r <==> Reaches(e.ldapUsers, e.ldapGroups, resolved, u)
  {
    e.ldapUsers + GroupMembers(e.ldapGroups, resolved)
  }

  /** The users of a restricted room: its `users`, then the members of its
      `groups` (line 319). */
  function Audience(rr: RestrictedRoom, resolved: map<string, seq<string>>): (r: seq<string>)
    requires forall g :: g in rr.groups ==> g in resolved
    ensures forall u :: u in r <==> Reaches(rr.users, rr.groups, resolved, u)
  {
    rr.users + GroupMembers(rr.groups, resolved)
  }

  /** One user reached by an entry: the entry's community once, then every id
      of `ids` the user does not hold yet. */
  function Grant(d: UserData, community: Option<string>, ids: seq<string>): UserData {
    UserData(AppendNew(d.matrixGroups, [community]), AppendNew(d.matrixRooms, ids))
  }

  /** The same step as line 311 writes it: the ids are appended unchecked. */
  function GrantAsWritten(d: UserData, community: Option<string>, ids: seq<string>): UserData {
    UserData(AppendNew(d.matrixGroups, [community]), d.matrixRooms + ids)
  }

  /** Grants `ids` and `community` to each of `users` in turn; everyone else
      keeps their record. */
  function GrantAll(data: map<string, UserData>, users: seq<string>, community: Option<string>, ids: seq<string>)
    : (r: map<string, UserData>)
    requires forall u :: u in users ==> u in data
    ensures r.Keys == data.Keys
    ensures forall u :: u in data && u !in users ==> r[u] == data[u]
    ensures forall u :: u in data ==> data[u].matrixRooms <= r[u].matrixRooms
    ensures forall u, x :: u in data ==>
              (x in r[u].matrixRooms <==> x in data[u].matrixRooms || (u in users && x in ids))
    ensures forall u :: u in data && WellFormed(data[u]) ==> WellFormed(r[u])
    decreases |users|
  {
    if |users| == 0 then data
    else
      assert users == [users[0]] + users[1..];
      var u0 := users[0];
      GrantAll(data[u0 := Grant(data[u0], community, ids)], users[1..], community, ids)
  }

  /** `GrantAll` with line 311's unchecked append: the same rooms, but a user
      reached twice gets every id twice. */
  function GrantAllAsWritten(data: map<string, UserData>, users: seq<string>, community: Option<string>, ids: seq<string>)
    : (r: map<string, UserData>)
    requires forall u :: u in users ==> u in data
    ensures r.Keys == data.Keys
    ensures forall u :: u in data && u !in users ==> r[u] == data[u]
    ensures forall u, x :: u in data ==>
              (x in r[u].matrixRooms <==> x in data[u].matrixRooms || (u in users && x in ids))
    decreases |users|
  {
    if |users| == 0 then data
    else
      assert users == [users[0]] + users[1..];
      var u0 := users[0];
      GrantAllAsWritten(data[u0 := GrantAsWritten(data[u0], community, ids)], users[1..], community, ids)
  }

  /** A restricted room gives its own room, when it exists, to its audience. */
  ghost predicate RestrictedGrant(rr: RestrictedRoom, ctx: Context, u: string, x: string) {
    Reaches(rr.users, rr.groups, ctx.resolved, u) && RestrictedRoomId(ctx.rooms, rr) == Some(x)
  }

  /** Lines 313-326: each restricted room in turn. */
  function GrantRestricted(data: map<string, UserData>, rrs: seq<RestrictedRoom>, ctx: Context, community: Option<string>)
    : (r: map<string, UserData>)
    requires MembersKnown(ctx.resolved, data.Keys)
    requires forall rr :: rr in rrs ==> RestrictedKnown(rr, ctx.resolved, data.Keys)
    ensures r.Keys == data.Keys
    ensures forall u :: u in data ==> data[u].matrixRooms <= r[u].matrixRooms
    ensures forall u :: u in data && WellFormed(data[u]) ==> WellFormed(r[u])
    decreases |rrs|
  {
    if |rrs| == 0 then data
    else
      assert rrs[0] in rrs;
      assert RestrictedKnown(rrs[0], ctx.resolved, data.Keys);
      ReachesKnown(rrs[0].users, rrs[0].groups, ctx.resolved, data.Keys);
      var next := GrantAll(data, Audience(rrs[0], ctx.resolved), community, OptionIds(RestrictedRoomId(ctx.rooms, rrs[0])));
      assert forall rr :: rr in rrs[1..] ==> rr in rrs;
      GrantRestricted(next, rrs[1..], ctx, community)
  }

  /** The restricted rooms give `u` exactly the rooms of those whose audience
      includes `u`, on top of what `u` held. */
  lemma {:induction false} GrantRestrictedRooms(data: map<string, UserData>, rrs: seq<RestrictedRoom>, ctx: Context,
                                                community: Option<string>, u: string, x: string)
    requires MembersKnown(ctx.resolved, data.Keys)
    requires forall rr :: rr in rrs ==> RestrictedKnown(rr, ctx.resolved, data.Keys)
    requires u in data
    ensures x in GrantRestricted(data, rrs, ctx, community)[u].matrixRooms
        <==> x in data[u].matrixRooms || exists rr :: rr in rrs && RestrictedGrant(rr, ctx, u, x)
    decreases |rrs|
  {
    if |rrs| > 0 {
      assert rrs == [rrs[0]] + rrs[1..];
      assert rrs[0] in rrs;
      assert RestrictedKnown(rrs[0], ctx.resolved, data.Keys);
      RestrictedStepRooms(data, rrs[0], ctx, community, u, x);
      var next := GrantAll(data, Audience(rrs[0], ctx.resolved), community, OptionIds(RestrictedRoomId(ctx.rooms, rrs[0])));
      assert forall rr :: rr in rrs[1..] ==> rr in rrs;
      GrantRestrictedRooms(next, rrs[1..], ctx, community, u, x);
    }
  }

  /** One restricted room gives `u` its room exactly when its audience takes in
      `u` and the room exists. */
  lemma RestrictedStepRooms(data: map<string, UserData>, rr: RestrictedRoom, ctx: Context,
                            community: Option<string>, u: string, x: string)
    requires MembersKnown(ctx.resolved, data.Keys)
    requires RestrictedKnown(rr, ctx.resolved, data.Keys)
    requires u in data
    ensures forall v :: v in Audience(rr, ctx.resolved) ==> v in data
    ensures var next := GrantAll(data, Audience(rr, ctx.resolved), community, OptionIds(RestrictedRoomId(ctx.rooms, rr)));
      && MembersKnown(ctx.resolved, next.Keys)
      && (x in next[u].matrixRooms <==> x in data[u].matrixRooms || RestrictedGrant(rr, ctx, u, x))
  {
    ReachesKnown(rr.users, rr.groups, ctx.resolved, data.Keys);
  }

  /** What one entry grants `u`: its rooms through the broad path, and the
      room of each restricted room whose audience includes `u`. */
  ghost predicate GrantedBy(e: SpecEntry, ctx: Context, u: string, x: string) {
    || (Reaches(e.ldapUsers, e.ldapGroups, ctx.resolved, u) && exists n :: n in e.rooms && RoomId(ctx.rooms, n) == Some(x))
    || exists rr :: rr in e.restricted && RestrictedGrant(rr, ctx, u, x)
  }

  /** Lines 297-326 for one entry: the broad path, then the restricted rooms. */
  function EntryStep(data: map<string, UserData>, e: SpecEntry, ctx: Context): (r: map<string, UserData>)
    requires MembersKnown(ctx.resolved, data.Keys)
    requires EntryKnown(e, ctx.resolved, data.Keys)
    ensures r.Keys == data.Keys
    ensures forall u :: u in data ==> data[u].matrixRooms <= r[u].matrixRooms
    ensures forall u :: u in data && WellFormed(data[u]) ==> WellFormed(r[u])
  {
    ReachesKnown(e.ldapUsers, e.ldapGroups, ctx.resolved, data.Keys);
    var broad := GrantAll(data, BroadUsers(e, ctx.resolved), e.matrixGroup, RoomIds(ctx.rooms, e.rooms));
    GrantRestricted(broad, e.restricted, ctx, e.matrixGroup)
  }

  /** One entry gives `u` exactly the rooms it grants `u`, on top of what `u`
      held. */
  lemma EntryStepRooms(data: map<string, UserData>, e: SpecEntry, ctx: Context, u: string, x: string)
    requires MembersKnown(ctx.resolved, data.Keys)
    requires EntryKnown(e, ctx.resolved, data.Keys)
    requires u in data
    ensures x in EntryStep(data, e, ctx)[u].matrixRooms <==> x in data[u].matrixRooms || GrantedBy(e, ctx, u, x)
  {
    ReachesKnown(e.ldapUsers, e.ldapGroups, ctx.resolved, data.Keys);
    var users := BroadUsers(e, ctx.resolved);
    var ids := RoomIds(ctx.rooms, e.rooms);
    var broad := GrantAll(data, users, e.matrixGroup, ids);
    assert x in broad[u].matrixRooms <==> x in data[u].matrixRooms || (u in users && x in ids);
    GrantRestrictedRooms(broad, e.restricted, ctx, e.matrixGroup, u, x);
  }

  /** `EntryStep` with the broad path as line 311 writes it. */
  function EntryStepAsWritten(data: map<string, UserData>, e: SpecEntry, ctx: Context): (r: map<string, UserData>)
    requires MembersKnown(ctx.resolved, data.Keys)
    requires EntryKnown(e, ctx.resolved, data.Keys)
    ensures r.Keys == data.Keys
  {
    ReachesKnown(e.ldapUsers, e.ldapGroups, ctx.resolved, data.Keys);
    var broad := GrantAllAsWritten(data, BroadUsers(e, ctx.resolved), e.matrixGroup, RoomIds(ctx.rooms, e.rooms));
    GrantRestricted(broad, e.restricted, ctx, e.matrixGroup)
  }

  /** Lines 295-326 over the whole specification, in entry order. */
  function GrantEntries(data: map<string, UserData>, spec: seq<SpecEntry>, ctx: Context): (r: map<string, UserData>)
    requires MembersKnown(ctx.resolved, data.Keys)
    requires forall e :: e in spec ==> EntryKnown(e, ctx.resolved, data.Keys)
    ensures r.Keys == data.Keys
    ensures forall u :: u in data ==> data[u].matrixRooms <= r[u].matrixRooms
    ensures forall u :: u in data && WellFormed(data[u]) ==> WellFormed(r[u])
    decreases |spec|
  {
    if |spec| == 0 then data
    else
      assert spec[0] in spec;
      assert forall e :: e in spec[1..] ==> e in spec;
      GrantEntries(EntryStep(data, spec[0], ctx), spec[1..], ctx)
  }

  /** After the fold a user holds exactly the rooms some entry grants them,
      on top of what they held before. */
  lemma {:induction false} GrantEntriesRooms(data: map<string, UserData>, spec: seq<SpecEntry>, ctx: Context, u: string, x: string)
    requires MembersKnown(ctx.resolved, data.Keys)
    requires forall e :: e in spec ==> EntryKnown(e, ctx.resolved, data.Keys)
    requires u in data
    ensures x in GrantEntries(data, spec, ctx)[u].matrixRooms
        <==> x in data[u].matrixRooms || exists e :: e in spec && GrantedBy(e, ctx, u, x)
    decreases |spec|
  {
    if |spec| > 0 {
      assert spec == [spec[0]] + spec[1..];
      assert spec[0] in spec;
      assert forall e :: e in spec[1..] ==> e in spec;
      EntryStepRooms(data, spec[0], ctx, u, x);
      GrantEntriesRooms(EntryStep(data, spec[0], ctx), spec[1..], ctx, u, x);
    }
  }
}
