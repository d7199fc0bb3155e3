/** Failure-carrying result types and the one collection predicate shared by the
    rest of the model. */
module Common {

  /** A value that may be missing: Python's `None` versus a value. */
  datatype Option<+T> = None | Some(value: T)

  /** The outcome of a step that can stop the script with an uncaught exception. */
  datatype Result<+T, +E> = Success(value: T) | Failure(error: E)

  /** The uncaught exceptions `spec2policy.py` raises on well-formed input. */
  datatype Crash =
      /** `ldap_group_members` found no such group and returned `False`;
          iterating over it raises a TypeError. */
    | GroupNotFound(group: string)
      /** A `ldapgroups-forbidroomcreation` group that no `ldapgroups` or
          `restricted` list names is missing from `USERSINGROUP` (KeyError). */
    | UnresolvedFlagGroup(group: string)
      /** A `ldapusers-forbidroomcreation` user who is not in `USERS` is
          missing from the flag map (KeyError). */
    | UnlistedFlagUser(user: string)
      /** The flag map is used before it is ever bound (NameError). */
    | FlagMapUndefined

  /** No element occurs twice. */
  predicate NoDup<T(==)>(s: seq<T>) {
    forall i, j :: 0 <= i < j < |s| ==> s[i] != s[j]
  }
}
