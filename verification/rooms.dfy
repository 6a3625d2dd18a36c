/** `RoomService`: study rooms, each owned by the user who created it. */
module Rooms {
  import opened Common
  import opened Store

  /** A row of the `rooms` table; `createdAt` is the clock reading at insert. */
  datatype Room = Room(name: string, creator: int, createdAt: int)

  /** The `IllegalArgumentException`s `deleteRoom` throws. */
  datatype RoomError = NoSuchRoom | NotCreator

  /** `q` occurs in `s` as a contiguous piece (SQL `LIKE %q%`). */
  predicate Contains(s: string, q: string)
    decreases |s|
  {
    if |q| > |s| then false
    else if s[..|q|] == q then true
    else |s| > 0 && Contains(s[1..], q)
  }

  /** `q` sits in `s` at index `i`. */
  predicate PieceAt(s: string, q: string, i: nat)
  {
    i + |q| <= |s| && s[i..i + |q|] == q
  }

  /** Whatever the search finds sits somewhere in `s`. */
  lemma {:induction false} ContainedPiece(s: string, q: string)
    requires Contains(s, q)
    ensures exists i: nat :: PieceAt(s, q, i)
    decreases |s|
  {
    if s[..|q|] == q {
      assert PieceAt(s, q, 0);
    } else {
      ContainedPiece(s[1..], q);
      var i: nat :| PieceAt(s[1..], q, i);
      assert s[i + 1..i + 1 + |q|] == s[1..][i..i + |q|];
      assert PieceAt(s, q, i + 1);
    }
  }

  /** A piece of `s` starting at `i` is found by the search. */
  lemma {:induction false} PieceContained(s: string, q: string, i: nat)
    requires PieceAt(s, q, i)
    ensures Contains(s, q)
    decreases i
  {
    if i > 0 && s[..|q|] != q {
      assert s[1..][i - 1..i - 1 + |q|] == q;
      assert PieceAt(s[1..], q, i - 1);
      PieceContained(s[1..], q, i - 1);
    }
  }

  /** `createRoom`: stores a room with the given name and creator. */
  function CreateRoom(rooms: Table<Room>, name: string, creator: int, now: int): (r: (Table<Room>, int))
    requires rooms.Valid()
    ensures r.0.Valid() && r.1 !in rooms.rows
    ensures Find(r.0, r.1) == Some(Room(name, creator, now))
    ensures forall id :: id in rooms.rows ==> id in r.0.rows && r.0.rows[id] == rooms.rows[id]
    ensures r.0.rows.Keys == rooms.rows.Keys + {r.1}
  {
    Insert(rooms, Room(name, creator, now))
  }

  /** `deleteRoom`: only the creator may delete, and a missing room is an
      error; on success exactly that room is gone. */
  function DeleteRoom(rooms: Table<Room>, roomId: int, userId: int): (r: Result<Table<Room>, RoomError>)
    ensures r == Err(NoSuchRoom) <==> roomId !in rooms.rows
    ensures r == Err(NotCreator) <==> roomId in rooms.rows && rooms.rows[roomId].creator != userId
    ensures r.Ok? ==> r.value.rows == rooms.rows - {roomId} && r.value.next == rooms.next
    ensures rooms.Valid() && r.Ok? ==> r.value.Valid()
  {
    match Find(rooms, roomId)
    case None => Err(NoSuchRoom)
    case Some(room) =>
      if room.creator != userId then Err(NotCreator) else Ok(Remove(rooms, roomId))
  }

  /** `findByCreatorId`: the rooms that user created, in id order. */
  function FindByCreatorId(rooms: Table<Room>, creator: int): (r: seq<int>)
    requires rooms.Valid()
    ensures forall id :: id in r <==> id in rooms.rows && rooms.rows[id].creator == creator
    ensures Ascending(r)
  {
    Where(rooms, (room: Room) => room.creator == creator)
  }

  /** `searchByName`: the rooms whose name contains the query, in id order. */
  function SearchByName(rooms: Table<Room>, query: string): (r: seq<int>)
    requires rooms.Valid()
    ensures forall id :: id in r <==> id in rooms.rows && Contains(rooms.rows[id].name, query)
    ensures Ascending(r)
  {
    Where(rooms, (room: Room) => Contains(room.name, query))
  }

  /** A room its creator deletes right after creating it leaves the other
      rooms exactly as they were. */
  lemma CreateThenDelete(rooms: Table<Room>, name: string, creator: int, now: int)
    requires rooms.Valid()
    ensures var (after, id) := CreateRoom(rooms, name, creator, now);
      DeleteRoom(after, id, creator).Ok? && DeleteRoom(after, id, creator).value.rows == rooms.rows
  {
    var (after, id) := CreateRoom(rooms, name, creator, now);
    assert after.rows - {id} == rooms.rows;
  }

  /** A new room is listed among its creator's rooms and found by its own name. */
  lemma CreatedRoomListed(rooms: Table<Room>, name: string, creator: int, now: int)
    requires rooms.Valid()
    ensures var (after, id) := CreateRoom(rooms, name, creator, now);
      id in FindByCreatorId(after, creator) && id in SearchByName(after, name)
  {
    var (after, id) := CreateRoom(rooms, name, creator, now);
    assert PieceAt(name, name, 0);
    PieceContained(name, name, 0);
  }

  /** The empty query matches every room. */
  lemma EmptyQueryMatchesAll(rooms: Table<Room>)
    requires rooms.Valid()
    ensures forall id :: id in SearchByName(rooms, "") <==> id in rooms.rows
  {
    forall id | id in rooms.rows ensures Contains(rooms.rows[id].name, "") {
      assert PieceAt(rooms.rows[id].name, "", 0);
      PieceContained(rooms.rows[id].name, "", 0);
    }
  }
}
