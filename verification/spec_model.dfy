/** The room-membership specification as the YAML file provides it, and the
    lists of groups and users the script collects from it before it queries
    the directory. */
module SpecModel {
  import opened Common
  import opened Text

  /** One item of an entry's `restricted` list: a room that only this
      audience joins. `room` is absent when the item has no `room` key. */
  datatype RestrictedRoom = RestrictedRoom(room: Option<string>, users: seq<string>, groups: seq<string>)

  /** One top-level item of the specification. A missing list is empty;
      `matrixGroup` is absent when the item has no `matrixgroup` key. */
  datatype SpecEntry = SpecEntry(
    matrixGroup: Option<string>,
    rooms: seq<string>,                // `rooms`
    ldapUsers: seq<string>,            // `ldapusers`
    ldapGroups: seq<string>,           // `ldapgroups`
    restricted: seq<RestrictedRoom>,   // `restricted`
    forbidGroups: seq<string>,         // `ldapgroups-forbidroomcreation`
    forbidUsers: seq<string>)          // `ldapusers-forbidroomcreation`

  /** `spec_groups`: the community of every entry, in entry order; an entry
      without one contributes the placeholder the script writes as `[]`. */
  function Communities(spec: seq<SpecEntry>): (r: seq<Option<string>>)
    ensures |r| == |spec|
    ensures forall i :: 0 <= i < |spec| ==> r[i] == spec[i].matrixGroup
  {
    seq(|spec|, i requires 0 <= i < |spec| => spec[i].matrixGroup)
  }

  /** `g` is named by some entry's `ldapgroups` or by the `groups` of one of its
      restricted rooms. Flag groups do not count. */
  ghost predicate ReferencedGroup(spec: seq<SpecEntry>, g: string) {
    exists e :: e in spec && (g in e.ldapGroups || exists rr :: rr in e.restricted && g in rr.groups)
  }

  /** `u` is named by some entry's `ldapusers` or by the `users` of one of its
      restricted rooms. Flag users do not count. */
  ghost predicate ReferencedUser(spec: seq<SpecEntry>, u: string) {
    exists e :: e in spec && (u in e.ldapUsers || exists rr :: rr in e.restricted && u in rr.users)
  }

  /** `RESTRICTED`: the restricted rooms of all entries, in entry order. */
  function RestrictedRooms(spec: seq<SpecEntry>): (r: seq<RestrictedRoom>)
    ensures forall rr :: rr in r <==> exists e :: e in spec && rr in e.restricted
  {
    if |spec| == 0 then []
    else
      assert spec == [spec[0]] + spec[1..];
      spec[0].restricted + RestrictedRooms(spec[1..])
  }

  function AudienceUsers(rrs: seq<RestrictedRoom>): (r: seq<string>)
    ensures forall u :: u in r <==> exists rr :: rr in rrs && u in rr.users
  {
    if |rrs| == 0 then []
    else
      assert rrs == [rrs[0]] + rrs[1..];
      rrs[0].users + AudienceUsers(rrs[1..])
  }

  function AudienceGroups(rrs: seq<RestrictedRoom>): (r: seq<string>)
    ensures forall g :: g in r <==> exists rr :: rr in rrs && g in rr.groups
  {
    if |rrs| == 0 then []
    else
      assert rrs == [rrs[0]] + rrs[1..];
      rrs[0].groups + AudienceGroups(rrs[1..])
  }

  function DirectUsers(spec: seq<SpecEntry>): (r: seq<string>)
    ensures forall u :: u in r <==> exists e :: e in spec && u in e.ldapUsers
  {
    if |spec| == 0 then []
    else
      assert spec == [spec[0]] + spec[1..];
      spec[0].ldapUsers + DirectUsers(spec[1..])
  }

  function DirectGroups(spec: seq<SpecEntry>): (r: seq<string>)
    ensures forall g :: g in r <==> exists e :: e in spec && g in e.ldapGroups
  {
    if |spec| == 0 then []
    else
      assert spec == [spec[0]] + spec[1..];
      spec[0].ldapGroups + DirectGroups(spec[1..])
  }

  /** `RESTRICTEDUSERS`: every user of a restricted room, sorted, once each. */
  function RestrictedUsers(spec: seq<SpecEntry>): (r: seq<string>)
    ensures StrictlySorted(r)
    ensures forall u :: u in r <==> exists e, rr :: e in spec && rr in e.restricted && u in rr.users
  {
    SortedSet(AudienceUsers(RestrictedRooms(spec)))
  }

  /** `RESTRICTEDGROUPS`: every group of a restricted room, sorted, once each. */
  function RestrictedGroups(spec: seq<SpecEntry>): (r: seq<string>)
    ensures StrictlySorted(r)
    ensures forall g :: g in r <==> exists e, rr :: e in spec && rr in e.restricted && g in rr.groups
  {
    SortedSet(AudienceGroups(RestrictedRooms(spec)))
  }

  /** `LDAPGROUPS`: every referenced group, restricted ones included, sorted,
      once each. */
  function LdapGroups(spec: seq<SpecEntry>): (r: seq<string>)
    ensures StrictlySorted(r)
    ensures forall g :: g in r <==> ReferencedGroup(spec, g)
  {
    SortedSet(RestrictedGroups(spec) + DirectGroups(spec))
  }

  /** `LDAPUSERS`: every directly listed user, restricted ones included, sorted,
      once each. */
  function LdapUsers(spec: seq<SpecEntry>): (r: seq<string>)
    ensures StrictlySorted(r)
    ensures forall u :: u in r <==> ReferencedUser(spec, u)
  {
    SortedSet(RestrictedUsers(spec) + DirectUsers(spec))
  }
}
