/** The Matrix side of the script: the room listing returned by the admin API,
    lookups by name and by id, and the rooms the policy controls. */
module Rooms {
  import opened Common

  /** One room as the admin API lists it; unnamed rooms have no `name`. */
  datatype RoomRecord = RoomRecord(name: Option<string>, roomId: string)

  /** One named room, the `{'name': ..., 'id': ...}` record of the script. */
  datatype Room = Room(name: string, id: string)

  /** Rooms whose name puts them outside the policy's control. */
  const IGNORED_ROOMS: seq<string> := ["testchannel"]

  /** The room map of `matrix_compute_rooms_map`: every listed room that has a
      name, in listing order. */
  function NamedRooms(listing: seq<RoomRecord>): (rooms: seq<Room>)
    ensures |rooms| <= |listing|
    ensures forall r :: r in rooms <==> RoomRecord(Some(r.name), r.id) in listing
  {
    if |listing| == 0 then []
    else
      assert listing == [listing[0]] + listing[1..];
      var rest := NamedRooms(listing[1..]);
      match listing[0].name
      case None => rest
      case Some(n) => [Room(n, listing[0].roomId)] + rest
  }

  /** The room map of a listing split in two is the maps of the two parts one
      after the other: the filter keeps listing order. */
  lemma {:induction false} NamedRoomsAppend(a: seq<RoomRecord>, b: seq<RoomRecord>)
    ensures NamedRooms(a + b) == NamedRooms(a) + NamedRooms(b)
    decreases |a|
  {
    if |a| == 0 {
      assert a + b == b;
    } else {
      assert (a + b)[0] == a[0];
      assert (a + b)[1..] == a[1..] + b;
      NamedRoomsAppend(a[1..], b);
    }
  }

  /** A single record is kept, as a room, exactly when it has a name. */
  lemma NamedRoomsSingle(r: RoomRecord)
    ensures NamedRooms([r]) == if r.name.Some? then [Room(r.name.value, r.roomId)] else []
  {
    assert [r][1..] == [];
  }

  /** `matrix_room_id(rooms, name)`: the id of the first room called `name`,
      or `None` when no room has that name. */
  function RoomId(rooms: seq<Room>, name: string): (r: Option<string>)
    ensures r.None? <==> forall i :: 0 <= i < |rooms| ==> rooms[i].name != name
    ensures r.Some? ==> exists i :: 0 <= i < |rooms| && rooms[i] == Room(name, r.value)
                                 && forall j :: 0 <= j < i ==> rooms[j].name != name
  {
    if |rooms| == 0 then None
    else if rooms[0].name == name then Some(rooms[0].id)
    else
      var r := RoomId(rooms[1..], name);
      assert forall j :: 1 <= j < |rooms| ==> rooms[j] == rooms[1..][j - 1];
      r
  }

  /** `matrix_room_name(rooms, id)`: the name of the first room with id `id`,
      or `None` when no room has that id. */
  function RoomName(rooms: seq<Room>, id: string): (r: Option<string>)
    ensures r.None? <==> forall i :: 0 <= i < |rooms| ==> rooms[i].id != id
    ensures r.Some? ==> exists i :: 0 <= i < |rooms| && rooms[i] == Room(r.value, id)
                                 && forall j :: 0 <= j < i ==> rooms[j].id != id
  {
    if |rooms| == 0 then None
    else if rooms[0].id == id then Some(rooms[0].name)
    else
      var r := RoomName(rooms[1..], id);
      assert forall j :: 1 <= j < |rooms| ==> rooms[j] == rooms[1..][j - 1];
      r
  }

  /** No two rooms share an id. */
  predicate DistinctIds(rooms: seq<Room>) {
    forall i, j :: 0 <= i < j < |rooms| ==> rooms[i].id != rooms[j].id
  }

  /** When room ids are unique, looking a room up by name and then its id up by
      id leads back to the name. */
  lemma RoomNameOfRoomId(rooms: seq<Room>, name: string)
    requires DistinctIds(rooms)
    requires RoomId(rooms, name).Some?
    ensures RoomName(rooms, RoomId(rooms, name).value) == Some(name)
  {
    var id := RoomId(rooms, name).value;
    var i :| 0 <= i < |rooms| && rooms[i] == Room(name, id);
    var n := RoomName(rooms, id);
    var k :| 0 <= k < |rooms| && rooms[k] == Room(n.value, id)
                            && forall j :: 0 <= j < k ==> rooms[j].id != id;
    assert k == i;
  }

  /** The rooms under the policy's control: every named room whose name is not
      ignored, in listing order. */
  function ControlledRooms(rooms: seq<Room>): (c: seq<Room>)
    ensures |c| <= |rooms|
    ensures forall r :: r in c <==> r in rooms && r.name !in IGNORED_ROOMS
  {
    if |rooms| == 0 then []
    else
      assert rooms == [rooms[0]] + rooms[1..];
      var rest := ControlledRooms(rooms[1..]);
      if rooms[0].name in IGNORED_ROOMS then rest else [rooms[0]] + rest
  }

  /** The controlled rooms of a split list are those of the two parts one after
      the other: the filter keeps the map's order. */
  lemma {:induction false} ControlledRoomsAppend(a: seq<Room>, b: seq<Room>)
    ensures ControlledRooms(a + b) == ControlledRooms(a) + ControlledRooms(b)
    decreases |a|
  {
    if |a| == 0 {
      assert a + b == b;
    } else {
      assert (a + b)[0] == a[0];
      assert (a + b)[1..] == a[1..] + b;
      ControlledRoomsAppend(a[1..], b);
    }
  }

  /** A single room is controlled exactly when its name is not ignored. */
  lemma ControlledRoomsSingle(r: Room)
    ensures ControlledRooms([r]) == if r.name in IGNORED_ROOMS then [] else [r]
  {
    assert [r][1..] == [];
  }

  /** `managedRoomIds`: the ids of the controlled rooms, position by position. */
  function ManagedRoomIds(controlled: seq<Room>): (ids: seq<string>)
    ensures |ids| == |controlled|
    ensures forall i :: 0 <= i < |controlled| ==> ids[i] == controlled[i].id
  {
    seq(|controlled|, i requires 0 <= i < |controlled| => controlled[i].id)
  }

  /** A name looked up among the controlled rooms resolves, if at all, to a
      managed id and never through an ignored room. */
  lemma LookupIsManaged(rooms: seq<Room>, name: string)
    requires RoomId(ControlledRooms(rooms), name).Some?
    ensures RoomId(ControlledRooms(rooms), name).value in ManagedRoomIds(ControlledRooms(rooms))
    ensures Room(name, RoomId(ControlledRooms(rooms), name).value) in rooms
    ensures name !in IGNORED_ROOMS
  {
    var c := ControlledRooms(rooms);
    var i :| 0 <= i < |c| && c[i] == Room(name, RoomId(c, name).value);
    assert ManagedRoomIds(c)[i] == c[i].id;
    assert c[i] in c;
  }

  /** Every named, non-ignored room of the listing is managed, and every managed
      id belongs to such a room. */
  lemma ManagedIdsOfListing(listing: seq<RoomRecord>, id: string)
    ensures id in ManagedRoomIds(ControlledRooms(NamedRooms(listing)))
        <==> exists n :: n !in IGNORED_ROOMS && RoomRecord(Some(n), id) in listing
  {
    var c := ControlledRooms(NamedRooms(listing));
    var ids := ManagedRoomIds(c);
    if id in ids {
      var i :| 0 <= i < |ids| && ids[i] == id;
      assert c[i] in c;
      assert RoomRecord(Some(c[i].name), id) in listing;
    }
    if exists n :: n !in IGNORED_ROOMS && RoomRecord(Some(n), id) in listing {
      var n :| n !in IGNORED_ROOMS && RoomRecord(Some(n), id) in listing;
      assert Room(n, id) in c;
      var i :| 0 <= i < |c| && c[i] == Room(n, id);
      assert ids[i] == id;
    }
  }

  /** The controlled rooms that one listing record contributes: its room when
      it has a name that is not ignored, nothing otherwise. */
  function ControlledOf(r: RoomRecord): seq<Room> {
    if r.name.Some? && r.name.value !in IGNORED_ROOMS then [Room(r.name.value, r.roomId)] else []
  }

  /** The controlled rooms of a listing are built record by record, in listing
      order. */
  lemma ControlledCons(r: RoomRecord, t: seq<RoomRecord>)
    ensures ControlledRooms(NamedRooms([r] + t)) == ControlledOf(r) + ControlledRooms(NamedRooms(t))
  {
    NamedRoomsAppend([r], t);
    NamedRoomsSingle(r);
    ControlledRoomsAppend(NamedRooms([r]), NamedRooms(t));
    if r.name.Some? {
      ControlledRoomsSingle(Room(r.name.value, r.roomId));
    }
  }

  /** `l[i]` is the first record of the listing named `n`. */
  ghost predicate FirstNamed(l: seq<RoomRecord>, n: string, i: int) {
    0 <= i < |l| && l[i].name == Some(n) && forall j :: 0 <= j < i ==> l[j].name != Some(n)
  }

  /** Past a first record not named `n`, the first record named `n` is the
      first such record of the rest of the listing. */
  lemma FirstNamedShift(l: seq<RoomRecord>, n: string, i: int)
    requires 1 <= i < |l| && l[0].name != Some(n)
    ensures FirstNamed(l, n, i) <==> FirstNamed(l[1..], n, i - 1)
  {
    var t := l[1..];
    if FirstNamed(t, n, i - 1) {
      forall j | 0 <= j < i
        ensures l[j].name != Some(n)
      {
        if j > 0 {
          assert l[j] == t[j - 1];
        }
      }
    }
    if FirstNamed(l, n, i) {
      forall j | 0 <= j < i - 1
        ensures t[j].name != Some(n)
      {
        assert t[j] == l[j + 1];
      }
    }
  }

  /** Looking a name up among the controlled rooms gives the id of the first
      listing record with that name, unless the name is ignored: a later
      record with the same name is never reached, and neither is a name that
      appears only on an ignored room. */
  lemma {:induction false} LookupInListing(l: seq<RoomRecord>, n: string, x: string)
    ensures RoomId(ControlledRooms(NamedRooms(l)), n) == Some(x)
        <==> n !in IGNORED_ROOMS && exists i :: FirstNamed(l, n, i) && l[i].roomId == x
    decreases |l|
  {
    if |l| > 0 {
      var t := l[1..];
      assert l == [l[0]] + t;
      ControlledCons(l[0], t);
      LookupInListing(t, n, x);
      var head := ControlledOf(l[0]);
      var rest := ControlledRooms(NamedRooms(t));
      if l[0].name == Some(n) {
        assert FirstNamed(l, n, 0);
        forall i | FirstNamed(l, n, i)
          ensures i == 0
        {
        }
        if n in IGNORED_ROOMS {
          assert ControlledRooms(NamedRooms(l)) == rest;
        } else {
          assert ControlledRooms(NamedRooms(l)) == [Room(n, l[0].roomId)] + rest;
        }
      } else {
        if exists i :: FirstNamed(l, n, i) && l[i].roomId == x {
          var i :| FirstNamed(l, n, i) && l[i].roomId == x;
          FirstNamedShift(l, n, i);
        }
        if exists i :: FirstNamed(t, n, i) && t[i].roomId == x {
          var i :| FirstNamed(t, n, i) && t[i].roomId == x;
          FirstNamedShift(l, n, i + 1);
        }
        assert ControlledRooms(NamedRooms(l)) == head + rest;
        if |head| > 0 {
          assert (head + rest)[1..] == rest;
        } else {
          assert head + rest == rest;
        }
      }
    }
  }

  /** The ids of the named, non-ignored records of the listing in listing
      order, read off the listing in one pass. */
  function ListedIds(l: seq<RoomRecord>): seq<string> {
    if |l| == 0 then []
    else (if l[0].name.Some? && l[0].name.value !in IGNORED_ROOMS then [l[0].roomId] else []) + ListedIds(l[1..])
  }

  /** The ids of two lists of rooms one after the other. */
  lemma ManagedIdsAppend(a: seq<Room>, b: seq<Room>)
    ensures ManagedRoomIds(a + b) == ManagedRoomIds(a) + ManagedRoomIds(b)
  {
    var ids := ManagedRoomIds(a + b);
    assert forall i :: 0 <= i < |a| ==> ids[i] == a[i].id;
    assert forall i :: |a| <= i < |ids| ==> ids[i] == b[i - |a|].id;
  }

  /** `managedRoomIds` (line 220) lists the ids of the named, non-ignored
      rooms in the order the listing gives them. */
  lemma {:induction false} ManagedIdsInOrder(l: seq<RoomRecord>)
    ensures ManagedRoomIds(ControlledRooms(NamedRooms(l))) == ListedIds(l)
    decreases |l|
  {
    if |l| > 0 {
      var t := l[1..];
      assert l == [l[0]] + t;
      ControlledCons(l[0], t);
      ManagedIdsInOrder(t);
      var head := ControlledOf(l[0]);
      ManagedIdsAppend(head, ControlledRooms(NamedRooms(t)));
      assert ManagedRoomIds(head) == if |head| == 0 then [] else [l[0].roomId];
    }
  }
}
