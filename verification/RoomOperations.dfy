// What every registry operation keeps, over every sequence of them taken one at a time
// (src/RoomManager.cpp:20-131, src/Room.cpp:63-139).
module RoomOperations {
  import opened Bytes
  import opened Rooms

  ghost predicate NoDuplicates(s: seq<Player>)
  {
    forall i, j :: 0 <= i < j < |s| ==> s[i] != s[j]
  }

  ghost predicate RoomOk(r: RoomInfo)
  {
    && r.players != [] && NoDuplicates(r.players)
    && |r.players| <= r.capacity && 2 <= r.capacity <= 16
  }

  /** The registry's indexes agree and every room in it is sound. */
  ghost predicate RegistryOk(reg: Registry)
  {
    && 1 <= reg.next && RoomsFiled(reg) && CodesIssued(reg)
    && forall id :: id in reg.rooms ==> RoomOk(reg.rooms[id])
  }

  lemma ConsNoDuplicates(x: Player, t: seq<Player>)
    ensures NoDuplicates([x] + t) <==> x !in t && NoDuplicates(t)
  {
    var s := [x] + t;
    assert s[0] == x;
    forall i | 0 <= i < |t| ensures t[i] == s[i + 1] {}
    if NoDuplicates(s) {
      forall i, j | 0 <= i < j < |t| ensures t[i] != t[j] {
        assert s[i + 1] != s[j + 1];
      }
    }
  }

  lemma {:induction false} RemoveFirstKeeps(s: seq<Player>, p: Player)
    requires NoDuplicates(s)
    ensures var t := RemoveFirst(s, p);
      && NoDuplicates(t) && |t| <= |s|
      && forall q :: q in t <==> q in s && q != p
  {
    if s != [] {
      var x, rest := s[0], s[1..];
      assert s == [x] + rest;
      ConsNoDuplicates(x, rest);
      if x != p {
        hide NoDuplicates;
        RemoveFirstKeeps(rest, p);
        var t := RemoveFirst(rest, p);
        ConsNoDuplicates(x, t);
        assert RemoveFirst(s, p) == [x] + t;
      }
    }
  }

  lemma {:induction false} FirstFreeIsFree(codes: map<string, nat>, gen: seq<string>)
    ensures var c := FirstFree(codes, gen);
      (c.Some? ==> c.value in gen && c.value !in codes) && (c.None? <==> forall g :: g in gen ==> g in codes)
  {
    if gen != [] {
      FirstFreeIsFree(codes, gen[1..]);
      assert gen == [gen[0]] + gen[1..];
    }
  }

  lemma CreateKeeps(reg: Registry, capacity: nat, creator: Player, gen: seq<string>)
    requires RegistryOk(reg)
    ensures RegistryOk(Create(reg, capacity, creator, gen).reg)
    ensures var after := Create(reg, capacity, creator, gen).reg;
      forall id :: id in reg.rooms ==> id in after.rooms && after.rooms[id] == reg.rooms[id]
  {
    FirstFreeIsFree(reg.codes, gen);
    var c := FirstFree(reg.codes, gen);
    if 2 <= capacity <= 16 && c.Some? {
      assert NewRoom(c.value, capacity, creator).players == [creator];
    }
  }

  lemma JoinKeeps(reg: Registry, id: nat, p: Player)
    requires RegistryOk(reg)
    ensures RegistryOk(AfterJoinRoom(reg, id, p))
  {
  }

  lemma LeaveKeeps(reg: Registry, id: nat, p: Player)
    requires RegistryOk(reg)
    ensures RegistryOk(AfterLeaveRoom(reg, id, p))
  {
    if id in reg.rooms {
      RemoveFirstKeeps(reg.rooms[id].players, p);
    }
  }

  // ---- one room: who is let in, and who owns it ----

  /** Players joining one after the other. */
  function JoinAll(r: RoomInfo, ps: seq<Player>): RoomInfo
  {
    if ps == [] then r else AfterJoin(JoinAll(r, ps[..|ps| - 1]), ps[|ps| - 1])
  }

  lemma NoDuplicatesBefore(a: seq<Player>, b: seq<Player>)
    requires NoDuplicates(a + b)
    ensures NoDuplicates(a)
    ensures b != [] ==> b[0] !in a
  {
    forall i, j | 0 <= i < j < |a| ensures a[i] != a[j] {
      assert (a + b)[i] != (a + b)[j];
    }
    if b != [] {
      forall i | 0 <= i < |a| ensures a[i] != b[0] {
        assert (a + b)[i] != (a + b)[|a|];
      }
    }
  }

  /** A room lets in newcomers in the order in which they come, up to its capacity. */
  lemma {:induction false} JoinsInOrder(r: RoomInfo, ps: seq<Player>)
    requires !r.running && NoDuplicates(r.players + ps) && |r.players| + |ps| <= r.capacity
    ensures JoinAll(r, ps) == r.(players := r.players + ps)
    ensures forall k :: 0 <= k < |ps| ==> JoinResult(JoinAll(r, ps[..k]), ps[k]) == OK
  {
    if ps == [] {
      assert r.players + ps == r.players;
    } else {
      var t, p := ps[..|ps| - 1], ps[|ps| - 1];
      assert r.players + ps == (r.players + t) + [p];
      NoDuplicatesBefore(r.players + t, [p]);
      JoinsInOrder(r, t);
      forall k | 0 <= k < |ps| ensures JoinResult(JoinAll(r, ps[..k]), ps[k]) == OK {
        if k < |t| { assert ps[..k] == t[..k] && ps[k] == t[k]; }
      }
    }
  }

  /** A new room fills up: its creator and as many further players as its capacity leaves
      places for are let in, in order, and the next newcomer finds it full. */
  lemma FillsUp(code: string, capacity: nat, creator: Player, ps: seq<Player>, late: Player)
    requires capacity > 0 && NoDuplicates([creator] + ps) && 1 + |ps| == capacity
    ensures JoinAll(NewRoom(code, capacity, creator), ps) == RoomInfo(code, capacity, false, [creator] + ps, None)
    ensures forall k :: 0 <= k < |ps| ==> JoinResult(JoinAll(NewRoom(code, capacity, creator), ps[..k]), ps[k]) == OK
    ensures JoinResult(JoinAll(NewRoom(code, capacity, creator), ps), late) == FULL
  {
    assert NewRoom(code, capacity, creator).players == [creator];
    JoinsInOrder(NewRoom(code, capacity, creator), ps);
  }

  /** The owners of a room leaving one after the other. */
  function LeaveInTurn(r: RoomInfo, k: nat): RoomInfo
  {
    if k == 0 then r else
      var before := LeaveInTurn(r, k - 1);
      if before.owner.Some? then AfterLeave(before, before.owner.value) else before
  }

  /** Ownership passes on in the order of joining: when k owners have left, the room belongs
      to the earliest of those who remain, and to nobody once all have left. */
  lemma {:induction false} SuccessionInOrder(r: RoomInfo, k: nat)
    requires r.players != [] && NoDuplicates(r.players) && r.owner == Some(r.players[0]) && k <= |r.players|
    ensures LeaveInTurn(r, k).players == r.players[k..]
    ensures LeaveInTurn(r, k).owner == if k < |r.players| then Some(r.players[k]) else None
  {
    if k > 0 {
      SuccessionInOrder(r, k - 1);
      var q := r.players[k - 1..];
      assert q[0] == r.players[k - 1] && q[1..] == r.players[k..];
      assert r.players[k - 1] !in q[1..];
    }
  }

  /** Somebody else's leaving changes no owner who stays. */
  lemma OthersLeavingKeepOwner(r: RoomInfo, p: Player)
    requires NoDuplicates(r.players) && r.owner.Some? && r.owner.value in r.players && r.owner != Some(p)
    ensures AfterLeave(r, p).owner == r.owner
    ensures forall q :: q in AfterLeave(r, p).players <==> q in r.players && q != p
  {
    RemoveFirstKeeps(r.players, p);
  }

  // ---- creating a room ----

  /** createRoom's answer: OK exactly when a room was registered, which happens exactly when
      the capacity is valid and one of the codes is free; the room is then found under the
      returned id and code, the first free one, and holds its creator alone. */
  lemma CreateAnswers(reg: Registry, capacity: nat, creator: Player, gen: seq<string>)
    requires RegistryOk(reg)
    ensures var c := Create(reg, capacity, creator, gen);
      && (c.res == INVALID_CAPACITY <==> capacity < 2 || capacity > 16)
      && (c.res == OK <==> 2 <= capacity <= 16 && exists g :: g in gen && g !in reg.codes)
      && (c.res == OK <==> c.id in c.reg.rooms && c.id !in reg.rooms)
      && (c.res == OK <==> c.reg.rooms != reg.rooms)
      && (c.res != OK && c.res != INVALID_CAPACITY ==> c.res == GEN_ROOMCODE_FAILED)
      && c.reg.next == (if 2 <= capacity <= 16 then reg.next + 1 else reg.next)
    ensures var c := Create(reg, capacity, creator, gen);
      c.res == OK ==>
        && c.id == reg.next && c.code !in reg.codes
        && (exists k :: 0 <= k < |gen| && gen[k] == c.code && forall j :: 0 <= j < k ==> gen[j] in reg.codes)
        && c.reg.codes == reg.codes[c.code := c.id]
        && c.reg.rooms == reg.rooms[c.id := RoomInfo(c.code, capacity, false, [creator], None)]
    ensures var c := Create(reg, capacity, creator, gen);
      c.res != OK ==> c.id == 0 && c.code == "" && c.reg.codes == reg.codes && c.reg.rooms == reg.rooms
  {
    FirstFreeIsFree(reg.codes, gen);
    FirstFreeIsFirst(reg.codes, gen);
    var c := FirstFree(reg.codes, gen);
    if 2 <= capacity <= 16 && c.Some? {
      assert NewRoom(c.value, capacity, creator).players == [creator];
      assert reg.next in Create(reg, capacity, creator, gen).reg.rooms;
    }
  }

  lemma {:induction false} FirstFreeIsFirst(codes: map<string, nat>, gen: seq<string>)
    ensures var c := FirstFree(codes, gen);
      c.Some? ==> exists k :: 0 <= k < |gen| && gen[k] == c.value && forall j :: 0 <= j < k ==> gen[j] in codes
  {
    if gen != [] && gen[0] in codes {
      FirstFreeIsFirst(codes, gen[1..]);
      var c := FirstFree(codes, gen[1..]);
      if c.Some? {
        var k :| 0 <= k < |gen[1..]| && gen[1..][k] == c.value && forall j :: 0 <= j < k ==> gen[1..][j] in codes;
        assert gen[k + 1] == c.value;
        forall j | 0 <= j < k + 1 ensures gen[j] in codes {
          if j > 0 { assert gen[j] == gen[1..][j - 1]; }
        }
      }
    }
  }

  // ---- every sequence of operations ----

  datatype Operation =
    | CreateOp(capacity: nat, creator: Player, gen: seq<string>)
    | JoinOp(id: nat, p: Player)
    | LeaveOp(id: nat, p: Player)
    | SetCapacityOp(id: nat, p: Player, newcap: nat)
    | StartOp(id: nat, p: Player, ready: set<Player>)
    | DissolveOp(id: nat, p: Player)

  function Operate(reg: Registry, op: Operation): Registry
  {
    match op
    case CreateOp(capacity, creator, gen) => Create(reg, capacity, creator, gen).reg
    case JoinOp(id, p) => AfterJoinRoom(reg, id, p)
    case LeaveOp(id, p) => AfterLeaveRoom(reg, id, p)
    case SetCapacityOp(id, p, newcap) => AfterSetCapacity(reg, id, p, newcap)
    case StartOp(id, p, ready) => AfterStartGame(reg, id, p, ready)
    case DissolveOp(id, p) => AfterDissolve(reg, id, p)
  }

  function OperateAll(ops: seq<Operation>): Registry
  {
    if ops == [] then Registry(map[], map[], 1) else Operate(OperateAll(ops[..|ops| - 1]), ops[|ops| - 1])
  }

  /** An issued code is never withdrawn or reassigned. */
  ghost predicate CodesKept(before: Registry, after: Registry)
  {
    forall c :: c in before.codes ==> c in after.codes && after.codes[c] == before.codes[c]
  }

  lemma CreateKeepsCodes(reg: Registry, capacity: nat, creator: Player, gen: seq<string>)
    ensures CodesKept(reg, Create(reg, capacity, creator, gen).reg)
  {
    FirstFreeIsFree(reg.codes, gen);
  }

  lemma OperateKeepsCodes(reg: Registry, op: Operation)
    ensures CodesKept(reg, Operate(reg, op))
    ensures op.CreateOp? || Operate(reg, op).codes == reg.codes
  {
    if op.CreateOp? { CreateKeepsCodes(reg, op.capacity, op.creator, op.gen); }
  }

  /** Whatever else happens, also when its room is emptied or dissolved, an issued code
      resolves to the same id for ever. */
  lemma {:induction false} CodesPersist(ops: seq<Operation>, k: nat)
    requires k <= |ops|
    ensures CodesKept(OperateAll(ops[..k]), OperateAll(ops))
    decreases |ops|
  {
    if k == |ops| {
      assert ops[..k] == ops;
    } else {
      var t := ops[..|ops| - 1];
      CodesPersist(t, k);
      assert t[..k] == ops[..k];
      OperateKeepsCodes(OperateAll(t), ops[|ops| - 1]);
    }
  }

  /** An operation on a room leaves every other room as it is. */
  lemma OnlyItsRoom(reg: Registry, op: Operation, id: nat)
    requires !op.CreateOp? ==> op.id != id
    requires op.CreateOp? ==> id in reg.rooms && RegistryOk(reg)
    ensures id in Operate(reg, op).rooms <==> id in reg.rooms
    ensures id in reg.rooms ==> Operate(reg, op).rooms[id] == reg.rooms[id]
  {
  }

  lemma OperateKeeps(reg: Registry, op: Operation)
    requires RegistryOk(reg)
    ensures RegistryOk(Operate(reg, op))
  {
    match op {
      case CreateOp(capacity, creator, gen) => CreateKeeps(reg, capacity, creator, gen);
      case JoinOp(id, p) => JoinKeeps(reg, id, p);
      case LeaveOp(id, p) => LeaveKeeps(reg, id, p);
      case _ =>
    }
  }

  /** Over any sequence of operations: every registered room is found under its code, is
      non-empty and free of duplicates, and holds no more players than its capacity, which
      lies in 2..16; ids and issued codes stay below the next id. */
  lemma {:induction false} OperationsKeepRegistry(ops: seq<Operation>)
    ensures RegistryOk(OperateAll(ops))
  {
    if ops != [] {
      OperationsKeepRegistry(ops[..|ops| - 1]);
      OperateKeeps(OperateAll(ops[..|ops| - 1]), ops[|ops| - 1]);
    }
  }
}
