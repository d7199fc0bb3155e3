/** The per-user `forbidroomcreation` flag, set by lines 327-334 of the same
    loop that grants rooms. The room grants never fail, so folding the flags on
    their own gives the same first failure and the same final flags. */
module Flags {
  import opened Common
  import opened SpecModel
  import opened Membership

  /** The members of `groups`, one group after another; a group missing from
      `resolved` stops the script at the first such group (line 332). */
  function CheckedMembers(groups: seq<string>, resolved: map<string, seq<string>>): (r: Result<seq<string>, Crash>)
    ensures r.Success? <==> forall g :: g in groups ==> g in resolved
    ensures r.Failure? ==> exists g :: g in groups && g !in resolved && r.error == UnresolvedFlagGroup(g)
    ensures r.Success? ==> forall u :: u in r.value <==> exists g :: g in groups && g in resolved && u in resolved[g]
  {
    if |groups| == 0 then Success([])
    else if groups[0] !in resolved then Failure(UnresolvedFlagGroup(groups[0]))
    else
      assert groups == [groups[0]] + groups[1..];
      var rest := CheckedMembers(groups[1..], resolved);
      if rest.Failure? then rest
      else Success(resolved[groups[0]] + rest.value)
  }

  /** The users an entry flags: its `ldapusers-forbidroomcreation`, then the
      members of its `ldapgroups-forbidroomcreation`. */
  function FlagUsers(e: SpecEntry, resolved: map<string, seq<string>>): (r: Result<seq<string>, Crash>)
    ensures r.Success? <==> forall g :: g in e.forbidGroups ==> g in resolved
    ensures r.Failure? ==> exists g :: g in e.forbidGroups && g !in resolved && r.error == UnresolvedFlagGroup(g)
    ensures r.Success? ==> forall u :: u in r.value <==> Reaches(e.forbidUsers, e.forbidGroups, resolved, u)
  {
    var members := CheckedMembers(e.forbidGroups, resolved);
    if members.Failure? then Failure(members.error)
    else Success(e.forbidUsers + members.value)
  }

  /** Sets the flag of each of `users` in turn; a user missing from the map
      stops the script (line 334). Flags are only ever set, never cleared. */
  function SetFlags(flags: map<string, bool>, users: seq<string>): (r: Result<map<string, bool>, Crash>)
    ensures r.Success? <==> forall u :: u in users ==> u in flags
    ensures r.Failure? ==> exists u :: u in users && u !in flags && r.error == UnlistedFlagUser(u)
    ensures r.Success? ==> r.value.Keys == flags.Keys
    ensures r.Success? ==> forall u :: u in flags ==> (r.value[u] <==> flags[u] || u in users)
    decreases |users|
  {
    if |users| == 0 then Success(flags)
    else if users[0] !in flags then Failure(UnlistedFlagUser(users[0]))
    else
      assert users == [users[0]] + users[1..];
      SetFlags(flags[users[0] := true], users[1..])
  }

  /** The entry's flag lists name only resolved groups and known users. */
  ghost predicate FlagsResolve(e: SpecEntry, resolved: map<string, seq<string>>, keys: set<string>) {
    (forall g :: g in e.forbidGroups ==> g in resolved) && (forall u :: u in e.forbidUsers ==> u in keys)
  }

  /** `error` names a flag group of `e` that is not resolved or a flag user of
      `e` that is not known. */
  ghost predicate Blames(e: SpecEntry, resolved: map<string, seq<string>>, keys: set<string>, error: Crash) {
    || (exists g :: g in e.forbidGroups && g !in resolved && error == UnresolvedFlagGroup(g))
    || (exists u :: u in e.forbidUsers && u !in keys && error == UnlistedFlagUser(u))
  }

  /** Lines 327-334 for one entry. */
  function FlagEntry(flags: map<string, bool>, e: SpecEntry, resolved: map<string, seq<string>>)
    : (r: Result<map<string, bool>, Crash>)
    requires MembersKnown(resolved, flags.Keys)
    ensures r.Success? <==> FlagsResolve(e, resolved, flags.Keys)
    ensures r.Failure? ==> Blames(e, resolved, flags.Keys, r.error)
    ensures r.Success? ==> r.value.Keys == flags.Keys
    ensures r.Success? ==> forall u :: u in flags ==>
              (r.value[u] <==> flags[u] || Reaches(e.forbidUsers, e.forbidGroups, resolved, u))
  {
    var users := FlagUsers(e, resolved);
    if users.Failure? then Failure(users.error)
    else
      assert forall u :: u in users.value && u !in e.forbidUsers ==> u in flags;
      SetFlags(flags, users.value)
  }

  /** The flag part of the fold over the whole specification. */
  function FlagEntries(flags: map<string, bool>, spec: seq<SpecEntry>, resolved: map<string, seq<string>>)
    : (r: Result<map<string, bool>, Crash>)
    requires MembersKnown(resolved, flags.Keys)
    ensures r.Success? <==> forall e :: e in spec ==> FlagsResolve(e, resolved, flags.Keys)
    ensures r.Failure? ==> exists e :: e in spec && Blames(e, resolved, flags.Keys, r.error)
    ensures r.Success? ==> r.value.Keys == flags.Keys
    ensures r.Success? ==> forall u :: u in flags ==>
              (r.value[u] <==> flags[u] || exists e :: e in spec && Reaches(e.forbidUsers, e.forbidGroups, resolved, u))
    decreases |spec|
  {
    if |spec| == 0 then Success(flags)
    else
      assert spec == [spec[0]] + spec[1..];
      var step := FlagEntry(flags, spec[0], resolved);
      if step.Failure? then Failure(step.error)
      else FlagEntries(step.value, spec[1..], resolved)
  }
}
