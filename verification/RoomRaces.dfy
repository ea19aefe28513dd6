// createRoom's critical sections interleaved among threads (src/RoomManager.cpp:20-45): the
// atomic draw of an id, each locked attempt to reserve a code, and the locked registration.
module RoomRaces {
  import opened Bytes
  import opened Rooms

  type Thread = nat

  /** A createRoom call in progress: its id, how many codes it has tried in vain, and the
      code it has reserved. */
  datatype Making = Making(id: nat, capacity: nat, creator: Player, tries: nat, code: Option<string>)

  datatype Shared = Shared(reg: Registry, making: map<Thread, Making>)

  datatype Event =
    | Begin(t: Thread, capacity: nat, creator: Player)
    | TryCode(t: Thread, code: string)
    | Register(t: Thread)
    | Alter(id: nat, room: RoomInfo)  // any operation inside a registered room
    | Erase(id: nat)                  // removal by leaveRoom or dissolveRoom

  function Do(s: Shared, e: Event): Option<Shared>
  {
    var reg := s.reg;
    match e
    case Begin(t, capacity, creator) =>
      if t in s.making then None
      else if capacity < 2 || capacity > 16 then Some(s)
      else Some(Shared(reg.(next := reg.next + 1), s.making[t := Making(reg.next, capacity, creator, 0, None)]))
    case TryCode(t, code) =>
      if t !in s.making || s.making[t].code.Some? then None
      else
        var m := s.making[t];
        if code !in reg.codes then
          Some(Shared(reg.(codes := reg.codes[code := m.id]), s.making[t := m.(code := Some(code))]))
        else if m.tries == 4 then Some(s.(making := s.making - {t}))
        else Some(s.(making := s.making[t := m.(tries := m.tries + 1)]))
    case Register(t) =>
      if t !in s.making || s.making[t].code.None? then None
      else
        var m := s.making[t];
        var rooms := if m.id in reg.rooms then reg.rooms
                     else reg.rooms[m.id := NewRoom(m.code.value, m.capacity, m.creator)];
        Some(Shared(reg.(rooms := rooms), s.making - {t}))
    case Alter(id, room) =>
      if id !in reg.rooms || room.code != reg.rooms[id].code then None
      else Some(s.(reg := reg.(rooms := reg.rooms[id := room])))
    case Erase(id) =>
      if id !in reg.rooms then None else Some(s.(reg := reg.(rooms := reg.rooms - {id})))
  }

  function DoAll(s: Shared, es: seq<Event>): Option<Shared>
    decreases |es|
  {
    if es == [] then Some(s) else
      var r := Do(s, es[0]);
      if r.None? then None else DoAll(r.value, es[1..])
  }

  /** Ids and codes determine each other, also for calls still in progress. */
  ghost predicate Agree(s: Shared)
  {
    && s.reg.next >= 1 && RoomsFiled(s.reg) && CodesIssued(s.reg) && OneCodeEach(s.reg)
    && (forall t :: t in s.making ==> MakingAgrees(s.reg, s.making[t]))
    && (forall t, u :: t in s.making && u in s.making && t != u ==> s.making[t].id != s.making[u].id)
  }

  /** No id has two codes. */
  ghost predicate OneCodeEach(reg: Registry)
  {
    forall c, d :: c in reg.codes && d in reg.codes && reg.codes[c] == reg.codes[d] ==> c == d
  }

  ghost predicate MakingAgrees(reg: Registry, m: Making)
  {
    && 1 <= m.id < reg.next && m.id !in reg.rooms
    && match m.code
       case None => forall c :: c in reg.codes ==> reg.codes[c] != m.id
       case Some(c) => c in reg.codes && reg.codes[c] == m.id
  }

  lemma BeginKeeps(s: Shared, t: Thread, capacity: nat, creator: Player)
    requires Agree(s) && Do(s, Begin(t, capacity, creator)).Some?
    ensures Agree(Do(s, Begin(t, capacity, creator)).value)
  {
  }

  lemma ReserveKeeps(s: Shared, t: Thread, code: string)
    requires Agree(s) && t in s.making && s.making[t].code.None? && code !in s.reg.codes
    ensures Agree(Do(s, TryCode(t, code)).value)
  {
    var r := Do(s, TryCode(t, code)).value;
    var m := s.making[t];
    assert MakingAgrees(s.reg, m);
    assert RoomsFiled(r.reg) && CodesIssued(r.reg) && OneCodeEach(r.reg);
    forall u | u in r.making ensures MakingAgrees(r.reg, r.making[u]) {
      assert MakingAgrees(s.reg, s.making[u]);
      if u != t { assert s.making[u].id != m.id; }
    }
  }

  lemma RetryKeeps(s: Shared, t: Thread, code: string)
    requires Agree(s) && t in s.making && s.making[t].code.None? && code in s.reg.codes
    ensures Agree(Do(s, TryCode(t, code)).value)
  {
  }

  lemma RegisterKeeps(s: Shared, t: Thread)
    requires Agree(s) && Do(s, Register(t)).Some?
    ensures Agree(Do(s, Register(t)).value)
  {
    var r := Do(s, Register(t)).value;
    var m := s.making[t];
    assert MakingAgrees(s.reg, m);
    assert NewRoom(m.code.value, m.capacity, m.creator).code == m.code.value;
    forall u | u in r.making ensures MakingAgrees(r.reg, r.making[u]) {
      assert MakingAgrees(s.reg, s.making[u]);
      assert s.making[u].id != m.id;
    }
  }

  lemma RoomChangeKeeps(s: Shared, r: Shared, id: nat)
    requires Agree(s) && id in s.reg.rooms && r == s.(reg := s.reg.(rooms := r.reg.rooms))
    requires r.reg.rooms.Keys <= s.reg.rooms.Keys
    requires forall i :: i in r.reg.rooms ==> r.reg.rooms[i].code == s.reg.rooms[i].code
    ensures Agree(r)
  {
  }

  lemma CodesGrow(s: Shared, e: Event)
    requires Do(s, e).Some?
    ensures var c, d := s.reg.codes, Do(s, e).value.reg.codes;
      forall code :: code in c ==> code in d && d[code] == c[code]
  {
  }

  lemma StepKeeps(s: Shared, e: Event)
    requires Agree(s) && Do(s, e).Some?
    ensures Agree(Do(s, e).value)
  {
    hide Agree;
    match e {
      case Begin(t, capacity, creator) => BeginKeeps(s, t, capacity, creator);
      case TryCode(t, code) =>
        if code in s.reg.codes { RetryKeeps(s, t, code); } else { ReserveKeeps(s, t, code); }
      case Register(t) => RegisterKeeps(s, t);
      case Alter(id, room) => RoomChangeKeeps(s, Do(s, e).value, id);
      case Erase(id) => RoomChangeKeeps(s, Do(s, e).value, id);
    }
  }

  /** Whatever the interleaving, ids and codes stay in agreement, and a code once issued
      resolves to the same id for ever. */
  lemma {:induction false} RaceKeepsAgreement(s: Shared, es: seq<Event>)
    requires Agree(s) && DoAll(s, es).Some?
    ensures Agree(DoAll(s, es).value)
    ensures var c, d := s.reg.codes, DoAll(s, es).value.reg.codes;
      forall code :: code in c ==> code in d && d[code] == c[code]
    decreases |es|
  {
    if es != [] {
      StepKeeps(s, es[0]);
      CodesGrow(s, es[0]);
      RaceKeepsAgreement(Do(s, es[0]).value, es[1..]);
    }
  }

  /** From the empty registry, no two registered rooms ever share a code, and every room is
      found under its code. */
  lemma NoSharedCodes(es: seq<Event>)
    requires DoAll(Shared(Registry(map[], map[], 1), map[]), es).Some?
    ensures var reg := DoAll(Shared(Registry(map[], map[], 1), map[]), es).value.reg;
      && (forall i, j :: i in reg.rooms && j in reg.rooms && reg.rooms[i].code == reg.rooms[j].code ==> i == j)
      && (forall i :: i in reg.rooms ==> GetRoomId(reg, reg.rooms[i].code) == i)
  {
    RaceKeepsAgreement(Shared(Registry(map[], map[], 1), map[]), es);
  }

  // ---- the sequential createRoom is one of the interleavings ----

  /** The attempts of a call that meets no other: up to the first free code, then registration. */
  function Attempts(codes: map<string, nat>, t: Thread, gen: seq<string>): seq<Event>
  {
    if gen == [] then []
    else if gen[0] !in codes then [TryCode(t, gen[0]), Register(t)]
    else [TryCode(t, gen[0])] + Attempts(codes, t, gen[1..])
  }

  /** The registry a call leaves whose codes still to try are gen. */
  function Finished(reg: Registry, m: Making, gen: seq<string>): Registry
  {
    var c := FirstFree(reg.codes, gen);
    if c.None? then reg
    else reg.(codes := reg.codes[c.value := m.id], rooms := reg.rooms[m.id := NewRoom(c.value, m.capacity, m.creator)])
  }

  lemma DoFirst(s: Shared, e: Event, es: seq<Event>)
    requires Do(s, e).Some?
    ensures DoAll(s, [e] + es) == DoAll(Do(s, e).value, es)
  {
  }

  lemma ReservesAndRegisters(s: Shared, t: Thread, m: Making, code: string)
    requires t !in s.making && m.id !in s.reg.rooms && m.code == None && code !in s.reg.codes
    ensures DoAll(Shared(s.reg, s.making[t := m]), [TryCode(t, code), Register(t)])
         == Some(Shared(s.reg.(codes := s.reg.codes[code := m.id],
                               rooms := s.reg.rooms[m.id := NewRoom(code, m.capacity, m.creator)]), s.making))
  {
    var here := Shared(s.reg, s.making[t := m]);
    var reserved := Do(here, TryCode(t, code)).value;
    DoFirst(here, TryCode(t, code), [Register(t)]);
    DoFirst(reserved, Register(t), []);
    assert [TryCode(t, code), Register(t)] == [TryCode(t, code)] + [Register(t)] && [Register(t)] == [Register(t)] + [];
    assert s.making[t := m][t := m.(code := Some(code))] - {t} == s.making;
  }

  lemma {:induction false} AttemptsFinish(s: Shared, t: Thread, m: Making, gen: seq<string>)
    requires t !in s.making && m.id !in s.reg.rooms && m.code == None && gen != [] && m.tries + |gen| == 5
    ensures DoAll(Shared(s.reg, s.making[t := m]), Attempts(s.reg.codes, t, gen))
         == Some(Shared(Finished(s.reg, m, gen), s.making))
    decreases |gen|
  {
    if gen[0] !in s.reg.codes {
      ReservesAndRegisters(s, t, m, gen[0]);
    } else {
      var here := Shared(s.reg, s.making[t := m]);
      DoFirst(here, TryCode(t, gen[0]), Attempts(s.reg.codes, t, gen[1..]));
      if |gen| == 1 {
        assert Attempts(s.reg.codes, t, gen[1..]) == [];
        assert FirstFree(s.reg.codes, gen[1..]) == None;
        assert s.making[t := m] - {t} == s.making;
        assert Do(here, TryCode(t, gen[0])) == Some(s);
      } else {
        var next := m.(tries := m.tries + 1);
        assert s.making[t := m][t := next] == s.making[t := next];
        AttemptsFinish(s, t, next, gen[1..]);
      }
    }
  }

  lemma CreateFinishes(reg: Registry, capacity: nat, creator: Player, gen: seq<string>)
    requires 2 <= capacity <= 16
    ensures Finished(reg.(next := reg.next + 1), Making(reg.next, capacity, creator, 0, None), gen)
         == Create(reg, capacity, creator, gen).reg
  {
  }

  lemma CallBegins(s: Shared, t: Thread, capacity: nat, creator: Player)
    requires Agree(s) && t !in s.making && 2 <= capacity <= 16
    ensures s.reg.next !in s.reg.rooms
    ensures Do(s, Begin(t, capacity, creator))
         == Some(Shared(s.reg.(next := s.reg.next + 1), s.making[t := Making(s.reg.next, capacity, creator, 0, None)]))
  {
  }

  /** createRoom run without interruption is the run of its critical sections one after the other. */
  lemma CreateIsARun(s: Shared, t: Thread, capacity: nat, creator: Player, gen: seq<string>)
    requires Agree(s) && t !in s.making && |gen| == 5 && 2 <= capacity <= 16
    ensures DoAll(s, [Begin(t, capacity, creator)] + Attempts(s.reg.codes, t, gen))
         == Some(Shared(Create(s.reg, capacity, creator, gen).reg, s.making))
  {
    hide *;
    var m := Making(s.reg.next, capacity, creator, 0, None);
    var begun := s.reg.(next := s.reg.next + 1);
    CallBegins(s, t, capacity, creator);
    DoFirst(s, Begin(t, capacity, creator), Attempts(s.reg.codes, t, gen));
    AttemptsFinish(Shared(begun, s.making), t, m, gen);
    CreateFinishes(s.reg, capacity, creator, gen);
  }
}
