// Rooms and the room registry (src/Room.cpp, src/RoomManager.cpp).
module Rooms {
  import opened Bytes

  /** The identity of a player object. */
  type Player = nat

  datatype RoomResult =
    | OK | FULL | NOT_FOUND | ALREADY_IN_ROOM | NOT_IN_ROOM | NOT_OWNER
    | INVALID_CAPACITY | ALREADY_RUNNING | NOT_READY | GEN_ROOMCODE_FAILED

  // ---- one room ----

  datatype RoomInfo = RoomInfo(code: string, capacity: nat, running: bool, players: seq<Player>, owner: Option<Player>)

  function RemoveFirst(s: seq<Player>, p: Player): seq<Player>
  {
    if s == [] then []
    else if s[0] == p then s[1..]
    else [s[0]] + RemoveFirst(s[1..], p)
  }

  function JoinResult(r: RoomInfo, p: Player): RoomResult
  {
    if r.running then ALREADY_RUNNING
    else if |r.players| >= r.capacity then FULL
    else if p in r.players then ALREADY_IN_ROOM
    else OK
  }

  function AfterJoin(r: RoomInfo, p: Player): RoomInfo
  {
    if JoinResult(r, p) == OK then r.(players := r.players + [p]) else r
  }

  /** ensure_owner_after_leave_locked. */
  function OwnerAfterLeave(players: seq<Player>, owner: Option<Player>): Option<Player>
  {
    if players == [] then None
    else if owner.Some? && owner.value in players then owner
    else Some(players[0])
  }

  function AfterLeave(r: RoomInfo, p: Player): RoomInfo
  {
    if p in r.players then
      var rest := RemoveFirst(r.players, p);
      r.(players := rest, owner := OwnerAfterLeave(rest, r.owner))
    else r
  }

  /** A new room: the constructor's parameter hides the owner field, which stays unset. */
  function NewRoom(code: string, capacity: nat, creator: Player): RoomInfo
  {
    AfterJoin(RoomInfo(code, capacity, false, [], None), creator)
  }

  lemma {:induction false} RemoveFirstSkips(s: seq<Player>, p: Player, i: nat)
    requires i < |s| && s[i] == p && p !in s[..i]
    ensures RemoveFirst(s, p) == s[..i] + s[i + 1..]
  {
    if i == 0 {
      assert s[..0] + s[1..] == s[1..];
    } else {
      assert s[..i][0] == s[0];
      RemoveFirstSkips(s[1..], p, i - 1);
      assert s[1..][..i - 1] == s[..i][1..];
      assert s[..i] + s[i + 1..] == [s[0]] + (s[1..][..i - 1] + s[1..][i..]);
    }
  }

  class Room {
    const id: nat
    const code: string
    var capacity: nat
    var running: bool
    var players: seq<Player>
    var owner: Option<Player>

    ghost function View(): RoomInfo
      reads this
    {
      RoomInfo(code, capacity, running, players, owner)
    }

    constructor (id: nat, creator: Player, capacity: nat, code: string)
      ensures this.id == id && View() == NewRoom(code, capacity, creator)
    {
      this.id, this.capacity, this.code := id, capacity, code;
      running, players, owner := false, [], None;
      new;
      var _ := Join(creator);
    }

    method Join(p: Player) returns (res: RoomResult)
      modifies this
      ensures res == JoinResult(old(View()), p) && View() == AfterJoin(old(View()), p)
      ensures res == OK <==> !old(running) && |old(players)| < old(capacity) && p !in old(players)
      ensures res == FULL <==> !old(running) && |old(players)| >= old(capacity)
      ensures res == ALREADY_RUNNING <==> old(running)
      ensures players == if res == OK then old(players) + [p] else old(players)
    {
      if running { return ALREADY_RUNNING; }
      if |players| >= capacity { return FULL; }
      for i := 0 to |players|
        invariant p !in players[..i]
        invariant View() == old(View())
      {
        if players[i] == p { return ALREADY_IN_ROOM; }
      }
      players := players + [p];
      res := OK;
    }

    method ContainsPlayer(p: Option<Player>) returns (found: bool)
      ensures found <==> p.Some? && p.value in players
    {
      for i := 0 to |players|
        invariant p.Some? ==> p.value !in players[..i]
      {
        if Some(players[i]) == p { return true; }
      }
      found := false;
    }

    method EnsureOwnerAfterLeave()
      modifies this`owner
      ensures owner == OwnerAfterLeave(players, old(owner))
    {
      if players == [] {
        owner := None;
        return;
      }
      var found := ContainsPlayer(owner);
      if !found {
        owner := Some(players[0]);
      }
    }

    method Leave(p: Player) returns (res: RoomResult)
      modifies this
      ensures res == if p in old(players) then OK else NOT_IN_ROOM
      ensures View() == AfterLeave(old(View()), p)
      ensures res == OK ==> |players| == |old(players)| - 1
      ensures res == OK && players == [] ==> owner == None
      ensures res == OK && players != [] ==>
                owner == if old(owner).Some? && old(owner).value in players then old(owner) else Some(players[0])
    {
      res := NOT_IN_ROOM;
      for i := 0 to |players|
        invariant p !in players[..i]
        invariant View() == old(View()) && res == NOT_IN_ROOM
      {
        if players[i] == p {
          RemoveFirstSkips(players, p, i);
          players := players[..i] + players[i + 1..];
          res := OK;
          EnsureOwnerAfterLeave();
          return;
        }
      }
    }

    method SetCapacity(p: Player, newcap: nat) returns (res: RoomResult)
      modifies this
      ensures res == SetCapacityResult(old(View()), p, newcap)
      ensures res == OK <==> old(owner) == Some(p) && 2 <= newcap <= 16 && |old(players)| <= newcap
      ensures res == NOT_OWNER <==> old(owner) != Some(p)
      ensures View() == old(View()).(capacity := if res == OK then newcap else old(capacity))
    {
      if owner != Some(p) { return NOT_OWNER; }
      if newcap < 2 || newcap > 16 { return INVALID_CAPACITY; }
      if newcap < |players| { return INVALID_CAPACITY; }
      capacity := newcap;
      res := OK;
    }

    /** startGame; ready stands for the players whose ready flag is set. */
    method StartGame(p: Player, ready: set<Player>) returns (res: RoomResult)
      modifies this
      ensures res == StartResult(old(View()), p, ready)
      ensures res == OK <==> old(owner) == Some(p) && !old(running) && forall q :: q in players ==> q in ready
      ensures res == NOT_READY <==> old(owner) == Some(p) && !old(running) && exists q :: q in players && q !in ready
      ensures View() == old(View()).(running := res == OK || old(running))
    {
      if owner != Some(p) { return NOT_OWNER; }
      if running { return ALREADY_RUNNING; }
      for i := 0 to |players|
        invariant forall k :: 0 <= k < i ==> players[k] in ready
        invariant View() == old(View())
      {
        if players[i] !in ready { return NOT_READY; }
      }
      running := true;
      res := OK;
    }
  }

  function SetCapacityResult(r: RoomInfo, p: Player, newcap: nat): RoomResult
  {
    if r.owner != Some(p) then NOT_OWNER
    else if newcap < 2 || newcap > 16 || newcap < |r.players| then INVALID_CAPACITY
    else OK
  }

  function StartResult(r: RoomInfo, p: Player, ready: set<Player>): RoomResult
  {
    if r.owner != Some(p) then NOT_OWNER
    else if r.running then ALREADY_RUNNING
    else if exists i :: 0 <= i < |r.players| && r.players[i] !in ready then NOT_READY
    else OK
  }

  // ---- the registry ----

  datatype Registry = Registry(rooms: map<nat, RoomInfo>, codes: map<string, nat>, next: nat)

  /** Every registered room is filed under an id already drawn and is found under its code. */
  ghost predicate RoomsFiled(reg: Registry)
  {
    forall id :: id in reg.rooms ==>
      1 <= id < reg.next && reg.rooms[id].code in reg.codes && reg.codes[reg.rooms[id].code] == id
  }

  ghost predicate CodesIssued(reg: Registry)
  {
    forall c :: c in reg.codes ==> 1 <= reg.codes[c] < reg.next
  }

  /** The first of the generated codes that is not taken yet. */
  function FirstFree(codes: map<string, nat>, gen: seq<string>): Option<string>
  {
    if gen == [] then None
    else if gen[0] !in codes then Some(gen[0])
    else FirstFree(codes, gen[1..])
  }

  datatype Created = Created(reg: Registry, id: nat, code: string, res: RoomResult)

  /** createRoom with the five codes its loop would draw: an id is spent as soon as the
      capacity is valid; 0 stands for failure. */
  function Create(reg: Registry, capacity: nat, creator: Player, gen: seq<string>): Created
  {
    if capacity < 2 || capacity > 16 then Created(reg, 0, "", INVALID_CAPACITY)
    else
      var spent := reg.(next := reg.next + 1);
      var code := FirstFree(reg.codes, gen);
      if code.None? then Created(spent, 0, "", GEN_ROOMCODE_FAILED)
      else
        Created(spent.(codes := reg.codes[code.value := reg.next],
                       rooms := reg.rooms[reg.next := NewRoom(code.value, capacity, creator)]),
                reg.next, code.value, OK)
  }

  function GetRoomId(reg: Registry, code: string): nat
  {
    if code in reg.codes then reg.codes[code] else 0
  }

  function JoinRoomResult(reg: Registry, id: nat, p: Player): RoomResult
  {
    if id in reg.rooms then JoinResult(reg.rooms[id], p) else NOT_FOUND
  }

  function AfterJoinRoom(reg: Registry, id: nat, p: Player): Registry
  {
    if id in reg.rooms then reg.(rooms := reg.rooms[id := AfterJoin(reg.rooms[id], p)]) else reg
  }

  function LeaveRoomResult(reg: Registry, id: nat, p: Player): RoomResult
  {
    if id !in reg.rooms then NOT_FOUND else if p in reg.rooms[id].players then OK else NOT_IN_ROOM
  }

  /** leaveRoom removes a room that has become empty, but keeps its code. */
  function AfterLeaveRoom(reg: Registry, id: nat, p: Player): Registry
  {
    if id !in reg.rooms then reg
    else
      var r := AfterLeave(reg.rooms[id], p);
      if r.players == [] then reg.(rooms := reg.rooms - {id}) else reg.(rooms := reg.rooms[id := r])
  }

  predicate Ruled(reg: Registry, id: nat, p: Player)
  {
    id in reg.rooms && reg.rooms[id].owner == Some(p)
  }

  /** setCapacity: the requested capacity passes through a 32-bit parameter. */
  function AfterSetCapacity(reg: Registry, id: nat, p: Player, newcap: nat): Registry
  {
    var n := newcap % 0x1_0000_0000;
    if id in reg.rooms && SetCapacityResult(reg.rooms[id], p, n) == OK
    then reg.(rooms := reg.rooms[id := reg.rooms[id].(capacity := n)]) else reg
  }

  function AfterStartGame(reg: Registry, id: nat, p: Player, ready: set<Player>): Registry
  {
    if id in reg.rooms && StartResult(reg.rooms[id], p, ready) == OK
    then reg.(rooms := reg.rooms[id := reg.rooms[id].(running := true)]) else reg
  }

  function AfterDissolve(reg: Registry, id: nat, p: Player): Registry
  {
    if Ruled(reg, id, p) then reg.(rooms := reg.rooms - {id}) else reg
  }

  class RoomManager {
    var rooms_: map<nat, Room>
    var code_to_id_: map<string, nat>
    var next_room_id_: nat

    /** Every room is filed under its own id, so no two entries share a room object, and
        ids not yet drawn are free. */
    ghost predicate Valid()
      reads this
    {
      forall id :: id in rooms_ ==> rooms_[id].id == id < next_room_id_
    }

    ghost function View(): Registry
      reads this, rooms_.Values
    {
      Registry(map id | id in rooms_ :: rooms_[id].View(), code_to_id_, next_room_id_)
    }

    constructor ()
      ensures Valid() && View() == Registry(map[], map[], 1) && rooms_ == map[]
    {
      rooms_, code_to_id_, next_room_id_ := map[], map[], 1;
    }

    method CreateRoom(capacity: nat, sender: Player, gen: seq<string>)
      returns (id: nat, out_room_code: string, out_res: RoomResult)
      requires Valid() && |gen| == 5
      modifies this
      ensures Valid()
      ensures forall k :: k in rooms_ ==> (k in old(rooms_) && rooms_[k] == old(rooms_)[k]) || fresh(rooms_[k])
      ensures var c := Create(old(View()), capacity, sender, gen);
        View() == c.reg && id == c.id && out_room_code == c.code && out_res == c.res
    {
      hide FirstFree;
      if capacity < 2 || capacity > 16 {
        return 0, "", INVALID_CAPACITY;
      }
      id := next_room_id_;
      next_room_id_ := next_room_id_ + 1;
      var code := ReserveCode(id, gen);
      if code.None? {
        return 0, "", GEN_ROOMCODE_FAILED;
      }
      var r := new Room(id, sender, capacity, code.value);
      rooms_ := rooms_[id := r];
      assert View().rooms == old(View()).rooms[id := NewRoom(code.value, capacity, sender)];
      out_room_code, out_res := code.value, OK;
    }

    /** The retry loop of createRoom: the first code not taken yet is reserved for the id. */
    method ReserveCode(id: nat, gen: seq<string>) returns (code: Option<string>)
      requires |gen| == 5
      modifies this`code_to_id_
      ensures code == FirstFree(old(code_to_id_), gen)
      ensures code_to_id_ == if code.Some? then old(code_to_id_)[code.value := id] else old(code_to_id_)
    {
      for i := 0 to 5
        invariant FirstFree(code_to_id_, gen) == FirstFree(code_to_id_, gen[i..])
        invariant code_to_id_ == old(code_to_id_)
      {
        if gen[i] !in code_to_id_ {
          code_to_id_ := code_to_id_[gen[i] := id];
          return Some(gen[i]);
        }
        assert gen[i..][1..] == gen[i + 1..];
      }
      code := None;
    }

    method GetId(room_code: string) returns (id: nat)
      ensures id == GetRoomId(View(), room_code)
    {
      if room_code !in code_to_id_ { return 0; }
      id := code_to_id_[room_code];
    }

    method JoinRoom(room_id: nat, p: Player) returns (res: RoomResult)
      requires Valid()
      modifies rooms_.Values
      ensures Valid() && res == JoinRoomResult(old(View()), room_id, p)
      ensures View() == AfterJoinRoom(old(View()), room_id, p)
    {
      if room_id !in rooms_ { return NOT_FOUND; }
      var r := rooms_[room_id];
      res := r.Join(p);
    }

    method LeaveRoom(room_id: nat, p: Player) returns (res: RoomResult)
      requires Valid()
      modifies this, rooms_.Values
      ensures Valid() && forall k :: k in rooms_ ==> k in old(rooms_) && rooms_[k] == old(rooms_)[k]
      ensures res == LeaveRoomResult(old(View()), room_id, p)
      ensures View() == AfterLeaveRoom(old(View()), room_id, p)
    {
      if room_id !in rooms_ { return NOT_FOUND; }
      var r := rooms_[room_id];
      res := r.Leave(p);
      assert View().rooms == old(View()).rooms[room_id := AfterLeave(old(View()).rooms[room_id], p)];
      if r.players == [] {
        rooms_ := rooms_ - {room_id};
        assert View().rooms == old(View()).rooms - {room_id};
      }
    }

    method SetCapacity(room_id: nat, p: Player, newcap: nat) returns (res: RoomResult)
      requires Valid()
      modifies rooms_.Values
      ensures Valid() && View() == AfterSetCapacity(old(View()), room_id, p, newcap)
      ensures res == if room_id !in old(View()).rooms then NOT_FOUND
                     else SetCapacityResult(old(View()).rooms[room_id], p, newcap % 0x1_0000_0000)
    {
      if room_id !in rooms_ { return NOT_FOUND; }
      var r := rooms_[room_id];
      res := r.SetCapacity(p, newcap % 0x1_0000_0000);
    }

    method StartGame(room_id: nat, p: Player, ready: set<Player>) returns (res: RoomResult)
      requires Valid()
      modifies rooms_.Values
      ensures Valid() && View() == AfterStartGame(old(View()), room_id, p, ready)
      ensures res ==
        if room_id in old(View()).rooms then StartResult(old(View()).rooms[room_id], p, ready) else NOT_FOUND
    {
      if room_id !in rooms_ { return NOT_FOUND; }
      var r := rooms_[room_id];
      res := r.StartGame(p, ready);
    }

    method DissolveRoom(room_id: nat, p: Player) returns (res: RoomResult)
      requires Valid()
      modifies this`rooms_
      ensures Valid() && View() == AfterDissolve(old(View()), room_id, p)
      ensures res == if room_id !in old(View()).rooms then NOT_FOUND
                     else if Ruled(old(View()), room_id, p) then OK else NOT_OWNER
      ensures res == OK <==> room_id in old(rooms_) && old(rooms_)[room_id].owner == Some(p)
      ensures rooms_ == if res == OK then old(rooms_) - {room_id} else old(rooms_)
    {
      if room_id !in rooms_ { return NOT_FOUND; }
      if rooms_[room_id].owner != Some(p) { return NOT_OWNER; }
      rooms_ := rooms_ - {room_id};
      res := OK;
    }
  }
}
