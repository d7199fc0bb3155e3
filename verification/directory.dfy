/** The LDAP side of the script: distinguished names of users and groups, the
    resolution of every referenced group to its active members (`USERSINGROUP`),
    and the user list of the policy (`USERS`). */
module Directory {
  import opened Common
  import opened Text

  const SEARCH_BASE: string := "dc=domain,dc=com"
  const USERS_SUFFIX: string := ",ou=users," + SEARCH_BASE
  const GROUPS_SUFFIX: string := ",ou=groups," + SEARCH_BASE
  /** The extra level a group whose name holds a dash sits under. */
  const PACKAGES: string := ",ou=packages"

  /** `ldap_get_dn_from_user`. */
  function UserDn(user: string): (dn: string)
    ensures |dn| == |user| + 4 + |USERS_SUFFIX|
  {
    "uid=" + user + USERS_SUFFIX
  }

  /** Reads the user back out of a user DN, `None` for any other string. */
  function UserOfDn(dn: string): Option<string> {
    StripAffixes(dn, "uid=", USERS_SUFFIX)
  }

  /** A user DN names exactly one user, and every user has one. */
  lemma UserDnInverse(dn: string, user: string)
    ensures UserOfDn(dn) == Some(user) <==> UserDn(user) == dn
  {
    StripAffixesInverse(dn, "uid=", USERS_SUFFIX, user);
  }

  /** `ldap_get_dn_from_group`: `cn=<group>` under `ou=groups`, or under
      `ou=packages,ou=groups` when the name contains a dash. */
  function GroupDn(group: string): (dn: string)
    ensures |dn| >= 3 + |group| + |GROUPS_SUFFIX|
    ensures dn[..3 + |group|] == "cn=" + group
    ensures dn[|dn| - |GROUPS_SUFFIX|..] == GROUPS_SUFFIX
    ensures '-' in group <==> dn == "cn=" + group + PACKAGES + GROUPS_SUFFIX
  {
    if '-' !in group then "cn=" + group + GROUPS_SUFFIX
    else "cn=" + group + PACKAGES + GROUPS_SUFFIX
  }

  /** Reads the group back out of a group DN, `None` for any string that
      `GroupDn` does not produce. */
  function GroupOfDn(dn: string): Option<string> {
    match StripAffixes(dn, "cn=", GROUPS_SUFFIX)
    case None => None
    case Some(x) =>
      if '-' !in x then Some(x)
      else
        match StripAffixes(x, "", PACKAGES)
        case Some(g) => if '-' in g then Some(g) else None
        case None => None
  }

  /** A group DN names exactly one group, and every group has one: the choice
      between the two containers loses no information. */
  lemma GroupDnInverse(dn: string, group: string)
    ensures GroupOfDn(dn) == Some(group) <==> GroupDn(group) == dn
  {
    var x := StripAffixes(dn, "cn=", GROUPS_SUFFIX);
    StripAffixesInverse(dn, "cn=", GROUPS_SUFFIX, group);
    StripAffixesInverse(dn, "cn=", GROUPS_SUFFIX, group + PACKAGES);
    assert "" + group + PACKAGES == group + PACKAGES;
    assert "cn=" + group + PACKAGES + GROUPS_SUFFIX == "cn=" + (group + PACKAGES) + GROUPS_SUFFIX;
    if x.Some? {
      StripAffixesInverse(x.value, "", PACKAGES, group);
      StripAffixesInverse(dn, "cn=", GROUPS_SUFFIX, x.value);
    }
  }

  /** Two groups never share a DN. */
  lemma GroupDnInjective(g1: string, g2: string)
    requires GroupDn(g1) == GroupDn(g2)
    ensures g1 == g2
  {
    GroupDnInverse(GroupDn(g1), g1);
    GroupDnInverse(GroupDn(g2), g2);
  }

  /** The members of a group that are still active, in directory order
      (line 276's comprehension). */
  function ActiveMembers(members: seq<string>, active: set<string>): (r: seq<string>)
    ensures |r| <= |members|
    ensures forall u :: u in r <==> u in members && u in active
  {
    if |members| == 0 then []
    else
      assert members == [members[0]] + members[1..];
      var rest := ActiveMembers(members[1..], active);
      if members[0] in active then [members[0]] + rest else rest
  }

  /** `USERSINGROUP`: every group of `groups` mapped to its active members. A
      group the directory does not know stops the script at the first such
      group in list order. */
  function ResolveGroups(groups: seq<string>, directory: map<string, seq<string>>, active: set<string>)
    : (r: Result<map<string, seq<string>>, Crash>)
    ensures r.Success? <==> forall g :: g in groups ==> g in directory
    ensures r.Failure? ==> exists i :: 0 <= i < |groups| && r.error == GroupNotFound(groups[i])
                             && groups[i] !in directory
                             && forall j :: 0 <= j < i ==> groups[j] in directory
    ensures r.Success? ==> forall g :: g in r.value <==> g in groups
    ensures r.Success? ==> forall g :: g in r.value ==> r.value[g] == ActiveMembers(directory[g], active)
  {
    if |groups| == 0 then Success(map[])
    else if groups[0] !in directory then Failure(GroupNotFound(groups[0]))
    else
      assert groups == [groups[0]] + groups[1..];
      var rest := ResolveGroups(groups[1..], directory, active);
      if rest.Failure? then
        assert forall j :: 1 <= j < |groups| ==> groups[j] == groups[1..][j - 1];
        rest
      else
        Success(rest.value[groups[0] := ActiveMembers(directory[groups[0]], active)])
  }

  /** Every resolved member of a group is reported by the directory as a member
      of that group and is active, and every such user is a resolved member. */
  lemma ResolvedMembers(groups: seq<string>, directory: map<string, seq<string>>, active: set<string>, g: string, u: string)
    requires ResolveGroups(groups, directory, active).Success?
    requires g in groups
    ensures var resolved := ResolveGroups(groups, directory, active).value;
      g in resolved && (u in resolved[g] <==> u in directory[g] && u in active)
  {
  }

  /** The members of `groups`, one group after another (the `+=` loops over
      `USERSINGROUP`). */
  function GroupMembers(groups: seq<string>, resolved: map<string, seq<string>>): (r: seq<string>)
    requires forall g :: g in groups ==> g in resolved
    ensures forall u :: u in r <==> exists g :: g in groups && u in resolved[g]
  {
    if |groups| == 0 then []
    else
      assert groups == [groups[0]] + groups[1..];
      resolved[groups[0]] + GroupMembers(groups[1..], resolved)
  }

  /** `USERS`: the active members of the referenced groups together with the
      directly listed users, sorted, once each. Direct users are not checked
      against the active list. */
  function Users(groups: seq<string>, resolved: map<string, seq<string>>, direct: seq<string>): (r: seq<string>)
    requires forall g :: g in groups ==> g in resolved
    ensures StrictlySorted(r)
    ensures NoDup(r)
    ensures forall u :: u in r <==> u in direct || exists g :: g in groups && u in resolved[g]
  {
    var r := SortedSet(GroupMembers(groups, resolved) + direct);
    SortedNoDup(r);
    r
  }
}
