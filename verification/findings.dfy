/** Inputs on which the fold as written differs from what it evidently means. */
module Findings {
  import opened Common
  import opened Text
  import opened Rooms
  import opened SpecModel
  import opened Directory
  import opened Membership
  import opened Flags
  import opened Compiler

  const Rooms0: seq<Room> := [Room("general", "!g")]
  const Resolved0: map<string, seq<string>> := map["staff" := ["alice"]]
  /** An entry that lists `alice` directly and through the group `staff`. */
  const Entry0: SpecEntry := SpecEntry(None, ["general"], ["alice"], ["staff"], [], [], [])
  const Data0: map<string, UserData> := map["alice" := UserData([], [])]

  /** The broad path of `Entry0` reaches `alice` twice and names one room. */
  lemma Entry0Broad()
    ensures MembersKnown(Resolved0, Data0.Keys) && EntryKnown(Entry0, Resolved0, Data0.Keys)
    ensures BroadUsers(Entry0, Resolved0) == ["alice", "alice"]
    ensures RoomIds(Rooms0, Entry0.rooms) == ["!g"]
  {
    assert GroupMembers(["staff"], Resolved0) == ["alice"] + GroupMembers([], Resolved0);
    assert RoomId(Rooms0, "general") == Some("!g");
    assert RoomIds(Rooms0, ["general"]) == ["!g"] + RoomIds(Rooms0, []);
  }

  /** A user both listed in an entry's `ldapusers` and a member of one of its
      `ldapgroups` is reached twice by the broad path; line 311 then appends
      the entry's room ids twice. */
  lemma BroadPathDuplicates()
    ensures MembersKnown(Resolved0, Data0.Keys) && EntryKnown(Entry0, Resolved0, Data0.Keys)
    ensures EntryStepAsWritten(Data0, Entry0, Context(Rooms0, Resolved0))["alice"].matrixRooms == ["!g", "!g"]
    ensures !NoDup(EntryStepAsWritten(Data0, Entry0, Context(Rooms0, Resolved0))["alice"].matrixRooms)
  {
    Entry0Broad();
    var ids := ["!g"];
    var once := Data0["alice" := GrantAsWritten(Data0["alice"], None, ids)];
    var twice := once["alice" := GrantAsWritten(once["alice"], None, ids)];
    assert twice["alice"].matrixRooms == ["!g", "!g"];
    assert GrantAllAsWritten(Data0, ["alice", "alice"], None, ids) == GrantAllAsWritten(once, ["alice"], None, ids);
    assert GrantAllAsWritten(once, ["alice"], None, ids) == GrantAllAsWritten(twice, [], None, ids);
    var ctx := Context(Rooms0, Resolved0);
    assert EntryStepAsWritten(Data0, Entry0, ctx) == GrantRestricted(twice, [], ctx, None);
    assert twice["alice"].matrixRooms[0] == twice["alice"].matrixRooms[1];
  }

  /** On the same input the corrected step grants the room once. */
  lemma BroadPathOnce()
    ensures MembersKnown(Resolved0, Data0.Keys) && EntryKnown(Entry0, Resolved0, Data0.Keys)
    ensures EntryStep(Data0, Entry0, Context(Rooms0, Resolved0))["alice"].matrixRooms == ["!g"]
  {
    Entry0Broad();
    var ids := ["!g"];
    assert AppendNew([], ids) == AppendNew(["!g"], []);
    assert AppendNew(["!g"], ids) == AppendNew(["!g"], []);
    var once := Data0["alice" := Grant(Data0["alice"], None, ids)];
    assert once["alice"].matrixRooms == ["!g"];
    var twice := once["alice" := Grant(once["alice"], None, ids)];
    assert twice["alice"].matrixRooms == ["!g"];
    assert GrantAll(Data0, ["alice", "alice"], None, ids) == GrantAll(once, ["alice"], None, ids);
    assert GrantAll(once, ["alice"], None, ids) == GrantAll(twice, [], None, ids);
    var ctx := Context(Rooms0, Resolved0);
    assert EntryStep(Data0, Entry0, ctx) == GrantRestricted(twice, [], ctx, None);
  }

  /** A specification whose one entry only flags `bob`: nobody gets a record. */
  const FlagOnly: seq<SpecEntry> := [SpecEntry(None, [], [], [], [], [], ["bob"])]

  /** With `USERS` empty the loop of lines 289-294 never runs, so line 334 is
      the first to read the unbound `flag`: the corrected script stops on the
      unlisted flag user, the script as written on the missing flag map. */
  lemma FlagUserWithoutUsers()
    ensures Compile(FlagOnly, [], {}, map[]) == Failure(UnlistedFlagUser("bob"))
    ensures CompileAsWritten(FlagOnly, [], {}, map[]) == Failure(FlagMapUndefined)
  {
    var e := FlagOnly[0];
    assert forall g :: !ReferencedGroup(FlagOnly, g);
    assert forall u :: !ReferencedUser(FlagOnly, u);
    var groups := LdapGroups(FlagOnly);
    SameEmptiness(groups, []);
    SameEmptiness(LdapUsers(FlagOnly), []);
    var resolution := ResolveGroups(groups, map[], {});
    assert resolution == Success(map[]);
    var users := Users(groups, map[], LdapUsers(FlagOnly));
    SameEmptiness(users, []);
    assert InitFlags(users) == map[];
    assert CheckedMembers(e.forbidGroups, map[]) == Success([]);
    assert e.forbidUsers + [] == ["bob"];
    assert FlagUsers(e, map[]) == Success(["bob"]);
    assert SetFlags(map[], ["bob"]) == Failure(UnlistedFlagUser("bob"));
    assert FlagEntry(map[], e, map[]) == Failure(UnlistedFlagUser("bob"));
    assert FlagEntries(map[], FlagOnly, map[]) == Failure(UnlistedFlagUser("bob"));
    assert Compile(FlagOnly, [], {}, map[]) == Failure(UnlistedFlagUser("bob"));
    CompileAsWrittenCrashes(FlagOnly, [], {}, map[]);
  }
}
