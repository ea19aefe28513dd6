// The dispatcher's room requests, one at a time, over the registry and the players' room
// references (src/MessageDispatcher.cpp:46-112, src/PlayerManager.cpp:30-33).
module Dispatcher {
  import opened Bytes
  import opened Rooms
  import opened RoomOperations

  const DEFAULT_CAPACITY := 4

  /** The requests that change anything; gen stands for the codes createRoom would draw. */
  datatype Request = CreateRoom(gen: seq<string>) | JoinRoom(code: string) | LeaveRoom(code: string)

  /** Where the players are said to be: CurrentRoomId, 0 for the lobby. */
  type Whereabouts = map<Player, nat>

  function CurrentRoom(where: Whereabouts, p: Player): nat
  {
    if p in where then where[p] else 0
  }

  /** A 64-bit room id after the cast to int and back that JOINROOM applies. */
  function CastRoomId(id: nat): nat
  {
    var low := id % 0x1_0000_0000;
    if low < 0x8000_0000 then low else low + 0xFFFF_FFFF_0000_0000
  }

  datatype World = World(reg: Registry, where: Whereabouts)

  function ServeCreate(w: World, sender: Player, gen: seq<string>): World
  {
    w.(reg := Create(w.reg, DEFAULT_CAPACITY, sender, gen).reg)
  }

  function ServeJoin(w: World, sender: Player, code: string): World
  {
    var id := GetRoomId(w.reg, code);
    if id == 0 then w
    else
      World(AfterJoinRoom(w.reg, id, sender),
            if JoinRoomResult(w.reg, id, sender) == OK then w.where[sender := CastRoomId(id)] else w.where)
  }

  function ServeLeave(w: World, sender: Player, code: string): World
  {
    var id := GetRoomId(w.reg, code);
    if id == 0 then w
    else
      World(AfterLeaveRoom(w.reg, id, sender),
            if LeaveRoomResult(w.reg, id, sender) == OK then w.where[sender := 0] else w.where)
  }

  function Serve(w: World, sender: Player, req: Request): World
  {
    match req
    case CreateRoom(gen) => ServeCreate(w, sender, gen)
    case JoinRoom(code) => ServeJoin(w, sender, code)
    case LeaveRoom(code) => ServeLeave(w, sender, code)
  }

  /** The result code sent back, if any: an unknown code is answered on a join only. */
  function Reply(w: World, sender: Player, req: Request): Option<RoomResult>
  {
    match req
    case CreateRoom(gen) => Some(Create(w.reg, DEFAULT_CAPACITY, sender, gen).res)
    case JoinRoom(code) =>
      var id := GetRoomId(w.reg, code);
      Some(if id == 0 then NOT_FOUND else JoinRoomResult(w.reg, id, sender))
    case LeaveRoom(code) =>
      var id := GetRoomId(w.reg, code);
      if id == 0 then None else Some(LeaveRoomResult(w.reg, id, sender))
  }

  // ---- what a request and its reply mean ----

  /** p is a member of the registered room id. */
  predicate InRoom(w: World, id: nat, p: Player)
  {
    id in w.reg.rooms && p in w.reg.rooms[id].players
  }

  /** No player but the sender is recorded anywhere else than before. */
  ghost predicate OnlyMoves(before: World, after: World, sender: Player)
  {
    forall p: Player :: p != sender ==> CurrentRoom(after.where, p) == CurrentRoom(before.where, p)
  }

  /** A create is answered OK exactly if it registered a room that has the sender as its only
      member; nobody's record moves, the sender's included. */
  ghost predicate CreateAnswered(before: World, after: World, sender: Player, reply: Option<RoomResult>)
  {
    && after.where == before.where && (reply == Some(OK) || reply == Some(GEN_ROOMCODE_FAILED))
    && (reply == Some(OK) <==> after.reg.rooms != before.reg.rooms)
    && (reply == Some(OK) ==> exists id: nat, r ::
          && id !in before.reg.rooms && after.reg.rooms == before.reg.rooms[id := r]
          && r.players == [sender] && r.capacity == 4 && !r.running
          && r.code !in before.reg.codes && after.reg.codes == before.reg.codes[r.code := id])
  }

  /** A join is answered OK exactly if it made the sender a member of the code's room, which
      it does exactly if the room is in the lobby, has a free place and lacks the sender; the
      sender is then recorded there. Any other answer says why nothing has changed. */
  ghost predicate JoinAnswered(before: World, after: World, sender: Player, code: string, reply: Option<RoomResult>)
  {
    var id := if code in before.reg.codes then before.reg.codes[code] else 0;
    && reply.Some?
    && (reply == Some(OK) <==> !InRoom(before, id, sender) && InRoom(after, id, sender))
    && (reply == Some(NOT_FOUND) <==> id !in before.reg.rooms)
    && (id in before.reg.rooms ==>
          var r := before.reg.rooms[id];
          && (reply == Some(ALREADY_RUNNING) <==> r.running)
          && (reply == Some(FULL) <==> !r.running && |r.players| >= r.capacity)
          && (reply == Some(ALREADY_IN_ROOM) <==> !r.running && |r.players| < r.capacity && sender in r.players)
          && (reply == Some(OK) <==> !r.running && |r.players| < r.capacity && sender !in r.players)
          && (reply == Some(OK) ==>
                && after.reg == before.reg.(rooms := before.reg.rooms[id := r.(players := r.players + [sender])])
                && (id < 0x8000_0000 ==> CurrentRoom(after.where, sender) == id)))
    && (reply != Some(OK) ==> after == before)
  }

  /** A leave is answered OK exactly if the sender was a member of the code's room, who then
      is one no longer and is recorded in the lobby, while the other members stay. An unknown code is not
      answered, and any other answer says why nothing has changed. */
  ghost predicate LeaveAnswered(before: World, after: World, sender: Player, code: string, reply: Option<RoomResult>)
  {
    var id := if code in before.reg.codes then before.reg.codes[code] else 0;
    && (reply == None <==> code !in before.reg.codes)
    && (reply == Some(OK) <==> InRoom(before, id, sender))
    && (reply == Some(OK) ==> !InRoom(after, id, sender) && CurrentRoom(after.where, sender) == 0)
    && (reply == Some(NOT_IN_ROOM) <==> id in before.reg.rooms && !InRoom(before, id, sender))
    && (reply == Some(NOT_FOUND) <==> code in before.reg.codes && id !in before.reg.rooms)
    && (reply != Some(OK) ==> after == before)
    && (forall p, i :: p != sender || i != id ==> (InRoom(after, i, p) <==> InRoom(before, i, p)))
    && after.reg.codes == before.reg.codes
  }

  ghost predicate Answered(before: World, after: World, sender: Player, req: Request, reply: Option<RoomResult>)
  {
    && OnlyMoves(before, after, sender)
    && match req
       case CreateRoom(_) => CreateAnswered(before, after, sender, reply)
       case JoinRoom(code) => JoinAnswered(before, after, sender, code, reply)
       case LeaveRoom(code) => LeaveAnswered(before, after, sender, code, reply)
  }

  lemma CreateIsAnswered(w: World, sender: Player, gen: seq<string>)
    requires RegistryOk(w.reg)
    ensures CreateAnswered(w, ServeCreate(w, sender, gen), sender, Reply(w, sender, CreateRoom(gen)))
  {
    hide Create, RegistryOk;
    CreateAnswers(w.reg, DEFAULT_CAPACITY, sender, gen);
    var c := Create(w.reg, DEFAULT_CAPACITY, sender, gen);
    if c.res == OK {
      var r := RoomInfo(c.code, 4, false, [sender], None);
      assert c.id !in w.reg.rooms && c.reg.rooms == w.reg.rooms[c.id := r];
    }
  }

  lemma JoinIsAnswered(w: World, sender: Player, code: string)
    requires RegistryOk(w.reg)
    ensures JoinAnswered(w, ServeJoin(w, sender, code), sender, code, Reply(w, sender, JoinRoom(code)))
  {
    var id := GetRoomId(w.reg, code);
    if id in w.reg.rooms {
      CastKeeps(id % 0x1_0000_0000_0000_0000);
      assert w.reg.rooms[id := w.reg.rooms[id]] == w.reg.rooms;
    }
  }

  lemma LeaveIsAnswered(w: World, sender: Player, code: string)
    requires RegistryOk(w.reg)
    ensures LeaveAnswered(w, ServeLeave(w, sender, code), sender, code, Reply(w, sender, LeaveRoom(code)))
  {
    var id := GetRoomId(w.reg, code);
    if id in w.reg.rooms {
      RemoveFirstKeeps(w.reg.rooms[id].players, sender);
      assert w.reg.rooms[id := w.reg.rooms[id]] == w.reg.rooms;
    }
  }

  /** Every request is answered truthfully and moves no other player's record. */
  lemma AnswersAreTrue(w: World, sender: Player, req: Request)
    requires RegistryOk(w.reg)
    ensures Answered(w, Serve(w, sender, req), sender, req, Reply(w, sender, req))
  {
    match req {
      case CreateRoom(gen) => CreateIsAnswered(w, sender, gen);
      case JoinRoom(code) => JoinIsAnswered(w, sender, code);
      case LeaveRoom(code) => LeaveIsAnswered(w, sender, code);
    }
    hide CreateAnswered, JoinAnswered, LeaveAnswered;
  }

  class PlayerManager {
    var currentRoom: Whereabouts

    constructor ()
      ensures currentRoom == map[]
    {
      currentRoom := map[];
    }

    method SetPlayerRoom(p: Player, id: nat)
      modifies this
      ensures currentRoom == old(currentRoom)[p := id]
    {
      currentRoom := currentRoom[p := id];
    }
  }

  class MessageDispatcher {
    const roomManager_: RoomManager
    const playerManager_: PlayerManager

    ghost function View(): World
      reads this, roomManager_, roomManager_.rooms_.Values, playerManager_
    {
      World(roomManager_.View(), playerManager_.currentRoom)
    }

    constructor (rm: RoomManager, pm: PlayerManager)
      ensures roomManager_ == rm && playerManager_ == pm
    {
      roomManager_, playerManager_ := rm, pm;
    }

    /** ParseRoomReq: the switch over the request type. */
    method ParseRoomReq(req: Request, sender: Player) returns (reply: Option<RoomResult>)
      requires roomManager_.Valid() && (req.CreateRoom? ==> |req.gen| == 5)
      modifies roomManager_, roomManager_.rooms_.Values, playerManager_
      ensures roomManager_.Valid()
      ensures View() == Serve(old(View()), sender, req)
      ensures reply == Reply(old(View()), sender, req)
      ensures RegistryOk(old(View()).reg) ==> Answered(old(View()), View(), sender, req, reply)
    {
      hide Answered, RegistryOk;
      if RegistryOk(View().reg) {
        AnswersAreTrue(View(), sender, req);
      }
      match req {
        case CreateRoom(gen) =>
          var _, _, res := roomManager_.CreateRoom(DEFAULT_CAPACITY, sender, gen);
          reply := Some(res);
        case JoinRoom(code) => reply := OnJoin(code, sender);
        case LeaveRoom(code) => reply := OnLeave(code, sender);
      }
    }

    method OnJoin(code: string, sender: Player) returns (reply: Option<RoomResult>)
      requires roomManager_.Valid()
      modifies roomManager_.rooms_.Values, playerManager_
      ensures roomManager_.Valid()
      ensures View() == ServeJoin(old(View()), sender, code)
      ensures reply == Reply(old(View()), sender, JoinRoom(code))
    {
      var id := roomManager_.GetId(code);
      if id == 0 {
        return Some(NOT_FOUND);
      }
      var res := roomManager_.JoinRoom(id, sender);
      if res == OK {
        playerManager_.SetPlayerRoom(sender, CastRoomId(id));
      }
      reply := Some(res);
    }

    method OnLeave(code: string, sender: Player) returns (reply: Option<RoomResult>)
      requires roomManager_.Valid()
      modifies roomManager_, roomManager_.rooms_.Values, playerManager_
      ensures roomManager_.Valid()
      ensures View() == ServeLeave(old(View()), sender, code)
      ensures reply == Reply(old(View()), sender, LeaveRoom(code))
    {
      var id := roomManager_.GetId(code);
      if id == 0 {
        return None;
      }
      var res := roomManager_.LeaveRoom(id, sender);
      if res == OK {
        playerManager_.SetPlayerRoom(sender, 0);
      }
      reply := Some(res);
    }
  }

  // ---- what holds after any sequence of requests ----

  /** Whether a player recorded in room c is right to be. */
  predicate Member(reg: Registry, c: nat, p: Player)
  {
    c == 0 || (c in reg.rooms && p in reg.rooms[c].players)
  }

  /** A player said to be in a room is a member of a registered room with that id. */
  ghost predicate BackReferences(w: World)
  {
    forall p: Player :: Member(w.reg, CurrentRoom(w.where, p), p)
  }

  lemma ServeKeepsRegistry(w: World, sender: Player, req: Request)
    requires RegistryOk(w.reg)
    ensures RegistryOk(Serve(w, sender, req).reg)
  {
    match req {
      case CreateRoom(gen) => CreateKeeps(w.reg, DEFAULT_CAPACITY, sender, gen);
      case JoinRoom(code) => JoinKeeps(w.reg, GetRoomId(w.reg, code), sender);
      case LeaveRoom(code) => LeaveKeeps(w.reg, GetRoomId(w.reg, code), sender);
    }
  }

  /** The cast keeps an id exactly below 2^31 (or where the sign extension hits it). */
  lemma CastKeeps(id: nat)
    requires id < 0x1_0000_0000_0000_0000
    ensures CastRoomId(id) == id <==> id < 0x8000_0000 || id >= 0xFFFF_FFFF_8000_0000
  {
  }

  lemma JoinKeepsReferences(w: World, sender: Player, code: string)
    requires RegistryOk(w.reg) && BackReferences(w) && w.reg.next <= 0x8000_0000
    ensures BackReferences(ServeJoin(w, sender, code))
  {
    var id := GetRoomId(w.reg, code);
    if id != 0 && JoinRoomResult(w.reg, id, sender) == OK {
      CastKeeps(id);
      JoinKeepsExactly(w, sender, code);
    }
  }

  lemma LeaveKeepsReferences(w: World, sender: Player, code: string)
    requires RegistryOk(w.reg) && BackReferences(w)
    ensures BackReferences(ServeLeave(w, sender, code))
  {
    var id := GetRoomId(w.reg, code);
    var after := ServeLeave(w, sender, code);
    if id in w.reg.rooms {
      RemoveFirstKeeps(w.reg.rooms[id].players, sender);
      forall p: Player | p != sender ensures Member(after.reg, CurrentRoom(after.where, p), p) {
        assert CurrentRoom(after.where, p) == CurrentRoom(w.where, p);
        assert Member(w.reg, CurrentRoom(w.where, p), p);
      }
      assert Member(w.reg, CurrentRoom(w.where, sender), sender);
    }
  }

  lemma CreateKeepsReferences(w: World, sender: Player, gen: seq<string>)
    requires RegistryOk(w.reg) && BackReferences(w)
    ensures BackReferences(ServeCreate(w, sender, gen))
  {
  }

  /** All requests served so far, oldest first, from an empty registry. */
  function ServeAll(reqs: seq<(Player, Request)>): World
  {
    if reqs == [] then World(Registry(map[], map[], 1), map[]) else
      var r := reqs[|reqs| - 1];
      Serve(ServeAll(reqs[..|reqs| - 1]), r.0, r.1)
  }

  lemma {:induction false} IdsGrow(reqs: seq<(Player, Request)>)
    ensures ServeAll(reqs).reg.next <= 1 + |reqs|
    ensures reqs != [] ==> ServeAll(reqs[..|reqs| - 1]).reg.next <= ServeAll(reqs).reg.next
  {
    if reqs != [] { IdsGrow(reqs[..|reqs| - 1]); }
  }

  lemma {:induction false} RegistryAlwaysOk(reqs: seq<(Player, Request)>)
    ensures RegistryOk(ServeAll(reqs).reg)
  {
    if reqs != [] {
      var r := reqs[|reqs| - 1];
      RegistryAlwaysOk(reqs[..|reqs| - 1]);
      ServeKeepsRegistry(ServeAll(reqs[..|reqs| - 1]), r.0, r.1);
    }
  }

  lemma ServeKeepsCodes(w: World, sender: Player, req: Request)
    ensures CodesKept(w.reg, Serve(w, sender, req).reg)
  {
    if req.CreateRoom? { CreateKeepsCodes(w.reg, DEFAULT_CAPACITY, sender, req.gen); }
  }

  /** A code once issued resolves to the same id for ever, whatever is requested. */
  lemma {:induction false} IssuedCodesPersist(reqs: seq<(Player, Request)>, k: nat)
    requires k <= |reqs|
    ensures CodesKept(ServeAll(reqs[..k]).reg, ServeAll(reqs).reg)
    decreases |reqs|
  {
    if k == |reqs| {
      assert reqs[..k] == reqs;
    } else {
      var t, r := reqs[..|reqs| - 1], reqs[|reqs| - 1];
      IssuedCodesPersist(t, k);
      assert t[..k] == reqs[..k];
      ServeKeepsCodes(ServeAll(t), r.0, r.1);
    }
  }

  /** Back-reference agreement over every sequence of requests that has drawn room ids
      below 2^31 only, through joins of several rooms and removals of emptied ones. */
  lemma {:induction false} PlayersAreWhereTheySay(reqs: seq<(Player, Request)>)
    requires ServeAll(reqs).reg.next <= 0x8000_0000
    ensures BackReferences(ServeAll(reqs))
  {
    if reqs != [] {
      var t, r := reqs[..|reqs| - 1], reqs[|reqs| - 1];
      IdsGrow(reqs);
      PlayersAreWhereTheySay(t);
      RegistryAlwaysOk(t);
      var w := ServeAll(t);
      match r.1 {
        case CreateRoom(gen) => CreateKeepsReferences(w, r.0, gen);
        case JoinRoom(code) => JoinKeepsReferences(w, r.0, code);
        case LeaveRoom(code) => LeaveKeepsReferences(w, r.0, code);
      }
    }
  }

  // ---- what the bound is for ----

  /** A request keeps the references exactly unless it is a successful join whose cast id
      names neither the lobby nor the joined room nor a room the player is in already. */
  lemma RequestKeepsExactly(w: World, sender: Player, req: Request)
    requires RegistryOk(w.reg) && BackReferences(w)
    ensures BackReferences(Serve(w, sender, req)) <==>
              (req.JoinRoom? && GetRoomId(w.reg, req.code) != 0
               && JoinRoomResult(w.reg, GetRoomId(w.reg, req.code), sender) == OK
               ==> var id := GetRoomId(w.reg, req.code); var c := CastRoomId(id);
                   c == id || Member(w.reg, c, sender))
  {
    match req {
      case CreateRoom(gen) => CreateKeepsReferences(w, sender, gen);
      case JoinRoom(code) =>
        if GetRoomId(w.reg, code) != 0 && JoinRoomResult(w.reg, GetRoomId(w.reg, code), sender) == OK {
          JoinKeepsExactly(w, sender, code);
        }
      case LeaveRoom(code) => LeaveKeepsReferences(w, sender, code);
    }
  }

  lemma JoinKeepsExactly(w: World, sender: Player, code: string)
    requires BackReferences(w) && GetRoomId(w.reg, code) != 0
    requires JoinRoomResult(w.reg, GetRoomId(w.reg, code), sender) == OK
    ensures var id := GetRoomId(w.reg, code); var c := CastRoomId(id);
      BackReferences(ServeJoin(w, sender, code)) <==> c == id || Member(w.reg, c, sender)
  {
    var id := GetRoomId(w.reg, code);
    var c := CastRoomId(id);
    var after := ServeJoin(w, sender, code);
    assert CurrentRoom(after.where, sender) == c;
    assert Member(after.reg, c, sender) <==> c == id || Member(w.reg, c, sender);
    forall p: Player | p != sender ensures Member(after.reg, CurrentRoom(after.where, p), p) {
      assert CurrentRoom(after.where, p) == CurrentRoom(w.where, p);
      assert Member(w.reg, CurrentRoom(w.where, p), p);
    }
  }

  // A run that gets there: 2^31 - 1 requests that draw the codes "A" only, one that draws
  // "B", and a join of the room it creates.

  function Drawing(code: string): Request
  {
    CreateRoom([code, code, code, code, code])
  }

  function Repeated(n: nat): seq<(Player, Request)>
  {
    seq(n, i => (1, Drawing("A")))
  }

  /** Room 1 under the code "A", created by player 1, and nobody in it according to the references. */
  function OnlyRoomA(next: nat): World
  {
    World(Registry(map[1 := NewRoom("A", DEFAULT_CAPACITY, 1)], map["A" := 1], next), map[])
  }

  lemma {:induction false} AfterRepeated(n: nat)
    requires n > 0
    ensures ServeAll(Repeated(n)) == OnlyRoomA(n + 1)
  {
    var t := Repeated(n)[..n - 1];
    assert t == Repeated(n - 1) && Repeated(n)[n - 1] == (1, Drawing("A"));
    if n > 1 {
      AfterRepeated(n - 1);
    }
    FirstFreeOfOne(ServeAll(t).reg.codes, "A");
  }

  lemma FirstFreeOfOne(codes: map<string, nat>, code: string)
    ensures FirstFree(codes, Drawing(code).gen) == if code in codes then None else Some(code)
  {
    FirstFreeIsFree(codes, Drawing(code).gen);
  }

  lemma JoinOfLateRoom(w: World)
    requires w == OnlyRoomA(0x8000_0000)
    ensures !BackReferences(Serve(Serve(w, 1, Drawing("B")), 2, JoinRoom("B")))
  {
    FirstFreeOfOne(w.reg.codes, "B");
    var v := Serve(w, 1, Drawing("B"));
    assert GetRoomId(v.reg, "B") == 0x8000_0000 && v.reg.rooms.Keys == {1, 0x8000_0000};
    assert v.reg.rooms[0x8000_0000].players == [1];
    assert JoinRoomResult(v.reg, 0x8000_0000, 2) == OK;
    var after := Serve(v, 2, JoinRoom("B"));
    assert CurrentRoom(after.where, 2) == CastRoomId(0x8000_0000) == 0xFFFF_FFFF_8000_0000;
    assert after.reg.rooms.Keys == {1, 0x8000_0000};
  }

  /** Beyond the bound the agreement does fail: a run of requests, each drawing five codes,
      after which a player is said to be in a room that does not exist. */
  lemma ReferencesBreak()
    ensures exists reqs: seq<(Player, Request)> ::
              && (forall i :: 0 <= i < |reqs| && reqs[i].1.CreateRoom? ==> |reqs[i].1.gen| == 5)
              && !BackReferences(ServeAll(reqs))
  {
    var n := 0x7FFF_FFFF;
    var early := Repeated(n);
    var late: (Player, Request), join: (Player, Request) := (1, Drawing("B")), (2, JoinRoom("B"));
    var reqs := early + [late] + [join];
    AfterRepeated(n);
    ServeSnoc(early, late);
    ServeSnoc(early + [late], join);
    JoinOfLateRoom(ServeAll(early));
    forall i | 0 <= i < |reqs| && reqs[i].1.CreateRoom? ensures |reqs[i].1.gen| == 5 {
      assert reqs[i] == if i < n then early[i] else if i == n then late else join;
    }
  }

  lemma ServeSnoc(reqs: seq<(Player, Request)>, r: (Player, Request))
    ensures ServeAll(reqs + [r]) == Serve(ServeAll(reqs), r.0, r.1)
  {
    assert (reqs + [r])[..|reqs|] == reqs;
  }

  /** After any requests, the next one is answered truthfully. */
  lemma AnswersAlwaysTrue(reqs: seq<(Player, Request)>, sender: Player, req: Request)
    ensures var w := ServeAll(reqs);
      Answered(w, ServeAll(reqs + [(sender, req)]), sender, req, Reply(w, sender, req))
  {
    hide *;
    RegistryAlwaysOk(reqs);
    AnswersAreTrue(ServeAll(reqs), sender, req);
    ServeSnoc(reqs, (sender, req));
  }
}
