/**
 * The room state machine of server.js: the `rooms` and `games` maps and
 * the four socket handlers that change them.  Socket identities and room
 * ids are strings; the uuid of `create-room` is an argument; socket joins,
 * emits, callbacks and logging are left out (a handler's reply is its
 * result).
 */
module Server {
  import opened Wrappers
  import opened Rules
  import Engine

  type RoomId = string
  type SocketId = string

  datatype Status = Waiting | Playing | Finished

  /** A room record; its `gameState` field is always `null` and is not modelled. */
  datatype Room = Room(id: RoomId, players: seq<SocketId>, status: Status)

  /** The callback of `join-room`. */
  datatype JoinReply = Joined(playerCount: nat) | RoomFull

  /**
   * What a `make-move` does: ignored by the handler's guards, refused by
   * `makeMove`, accepted, or aborted by a `TypeError` when `board[boardIndex]`
   * is `undefined`.
   */
  datatype MoveOutcome = Ignored | Rejected | Accepted | Fault

  predicate Distinct<T(==)>(s: seq<T>) {
    forall i, j :: 0 <= i < j < |s| ==> s[i] != s[j]
  }

  /** Two distinct sockets at most; still waiting exactly while fewer than two have joined. */
  predicate RoomOk(id: RoomId, r: Room) {
    r.id == id && 1 <= |r.players| <= 2 && Distinct(r.players) &&
    (r.status == Waiting <==> |r.players| < 2)
  }

  /** `players.indexOf(socket)`, with `None` for -1. */
  function IndexOf(players: seq<SocketId>, socket: SocketId): (i: Option<nat>)
    ensures i.Some? ==> i.value < |players| && players[i.value] == socket &&
                        forall j :: 0 <= j < i.value ==> players[j] != socket
    ensures i.None? <==> socket !in players
  {
    First(players, p => p == socket)
  }

  /** `s.splice(i, 1)`. */
  function RemoveAt<T>(s: seq<T>, i: nat): (t: seq<T>)
    requires i < |s|
    ensures |t| == |s| - 1
    ensures forall j :: 0 <= j < i ==> t[j] == s[j]
    ensures forall j :: i <= j < |t| ==> t[j] == s[j + 1]
  {
    s[..i] + s[i + 1..]
  }

  /** Removing one entry of a sequence without repeats removes exactly that value. */
  lemma RemoveAtDistinct<T>(s: seq<T>, i: nat)
    requires i < |s| && Distinct(s)
    ensures Distinct(RemoveAt(s, i))
    ensures forall x :: x in RemoveAt(s, i) <==> x in s && x != s[i]
  {
    var t := RemoveAt(s, i);
    forall x | x in s && x != s[i] ensures x in t {
      var k :| 0 <= k < |s| && s[k] == x;
      if k < i {
        assert t[k] == x;
      } else {
        assert t[k - 1] == x;
      }
    }
  }

  /** The room a socket joins: added once, and the room starts playing when it reaches two. */
  function Admit(r: Room, socket: SocketId): (r': Room)
    requires |r.players| < 2
    ensures r'.id == r.id && socket in r'.players && |r'.players| <= 2
    ensures forall s :: s in r'.players <==> s in r.players || s == socket
    ensures Distinct(r.players) ==> Distinct(r'.players)
    ensures r'.status == (if |r'.players| == 2 then Playing else r.status)
    ensures socket in r.players ==> r'.players == r.players
    ensures socket !in r.players ==> r'.players == r.players + [socket]
  {
    var players := if socket in r.players then r.players else r.players + [socket];
    Room(r.id, players, if |players| == 2 then Playing else r.status)
  }

  /** The room a socket leaves: its entry spliced out, and waiting again. */
  function Leave(r: Room, i: nat): (r': Room)
    requires i < |r.players|
    ensures r'.id == r.id && r'.status == Waiting && |r'.players| == |r.players| - 1
  {
    Room(r.id, RemoveAt(r.players, i), Waiting)
  }

  /**
   * `room.players[game.currentPlayer]`: the socket of the player to move,
   * `undefined` (here `None`) past the end of the list.
   */
  function ToMove(room: Room, currentPlayer: nat): (s: Option<SocketId>)
    ensures s.Some? <==> currentPlayer < |room.players|
    ensures s.Some? ==> s.value in room.players
  {
    if currentPlayer < |room.players| then Some(room.players[currentPlayer]) else None
  }

  /**
   * In a room past waiting, the first entrant is player 0 and moves first,
   * and the socket to move changes with every turn switch.
   */
  lemma TurnPasses(room: Room, cp: nat)
    requires RoomOk(room.id, room) && room.status != Waiting && cp <= 1
    ensures ToMove(room, 0) == Some(room.players[0])
    ensures ToMove(room, cp).Some? && ToMove(room, 1 - cp).Some? && ToMove(room, cp) != ToMove(room, 1 - cp)
  {
  }

  /** The test of the `disconnect` loop: the room exists and holds the socket. */
  function HasPlayer(rooms: map<RoomId, Room>, socket: SocketId): (t: RoomId -> bool) {
    id => id in rooms && socket in rooms[id].players
  }

  /** `makeMove(game, boardIndex, cellIndex)` of server.js, on the raw indices of a message. */
  method MakeMove(game: Engine.Game, b: int, c: int) returns (r: MoveOutcome)
    requires game.Valid()
    modifies game
    ensures game.Valid() && r != Ignored
    ensures r == Fault <==> old(game.nextBoard).None? && !(0 <= b < 9)
    ensures r == Accepted <==> 0 <= b < 9 && 0 <= c < 9 && Legal(old(game.Position()), b, c)
    ensures game.Position() == (if r == Accepted then Play(old(game.Position()), b, c) else old(game.Position()))
    ensures game.winner == old(game.winner)
  {
    if game.nextBoard.Some? && game.nextBoard.value != b {
      return Rejected;
    }
    if !(0 <= b < 9) {
      // `game.board[boardIndex]` is `undefined`: reading a cell of it throws.
      return Fault;
    }
    if !(0 <= c < 9) {
      // `game.board[boardIndex][cellIndex]` is `undefined`, which `!== null`.
      return Rejected;
    }
    var ok := game.MakeMove(b, c);
    r := if ok then Accepted else Rejected;
  }

  /** The game step of `make-move`: `makeMove`, then the turn switch when it succeeds. */
  method Turn(game: Engine.Game, b: int, c: int) returns (r: MoveOutcome)
    requires game.Valid()
    modifies game
    ensures game.Valid() && r != Ignored
    ensures r == Fault <==> old(game.nextBoard).None? && !(0 <= b < 9)
    ensures r == Accepted <==> 0 <= b < 9 && 0 <= c < 9 && Legal(old(game.Position()), b, c)
    ensures r == Accepted ==> game.Position() == Flip(Play(old(game.Position()), b, c))
    ensures r != Accepted ==> game.Position() == old(game.Position())
    ensures game.winner == old(game.winner)
  {
    r := MakeMove(game, b, c);
    if r == Accepted {
      FlipPreservesInvariant(game.Position());
      game.currentPlayer := 1 - game.currentPlayer;
    }
  }

  /** The rooms map and its insertion order: every id once, every room well formed. */
  ghost predicate Catalogue(rooms: map<RoomId, Room>, order: seq<RoomId>) {
    Distinct(order) &&
    (forall id :: id in rooms <==> id in order) &&
    (forall id :: Registered(rooms, id))
  }

  /** The room stored under `id`, if any, is well formed under that id. */
  predicate Registered(rooms: map<RoomId, Room>, id: RoomId) {
    id in rooms ==> RoomOk(id, rooms[id])
  }

  /** `rooms.set(id, r)`: a new key goes to the end of the order, an old one keeps its place. */
  function Enter(rooms: map<RoomId, Room>, order: seq<RoomId>, id: RoomId): (order': seq<RoomId>) {
    if id in rooms then order else order + [id]
  }

  /** Storing a well-formed room keeps the catalogue. */
  lemma CataloguePut(rooms: map<RoomId, Room>, order: seq<RoomId>, id: RoomId, r: Room)
    requires Catalogue(rooms, order) && RoomOk(id, r)
    ensures Catalogue(rooms[id := r], Enter(rooms, order, id))
  {
    var rooms' := rooms[id := r];
    forall id' ensures Registered(rooms', id') {
      assert Registered(rooms, id');
    }
  }

  /** Deleting the room at position `k` of the order keeps the catalogue. */
  lemma CatalogueDelete(rooms: map<RoomId, Room>, order: seq<RoomId>, k: nat)
    requires Catalogue(rooms, order) && k < |order|
    ensures Catalogue(rooms - {order[k]}, RemoveAt(order, k))
  {
    RemoveAtDistinct(order, k);
    var rooms' := rooms - {order[k]};
    forall id' ensures Registered(rooms', id') {
      assert Registered(rooms, id');
    }
  }

  /** Every game valid, and no game object shared by two rooms. */
  ghost predicate GamesOk(games: map<RoomId, Engine.Game>)
    reads games.Values
  {
    (forall id :: id in games ==> games[id].Valid()) &&
    (forall id, id' :: id in games && id' in games && id != id' ==> games[id] != games[id'])
  }

  /** A room past waiting has a game, finished exactly when its meta-board has a line. */
  ghost predicate Progress(rooms: map<RoomId, Room>, games: map<RoomId, Engine.Game>)
    reads games.Values
  {
    forall id :: RoomProgress(rooms, games, id)
  }

  /** Room `id`, if past waiting, has a game, finished exactly when its meta-board has a line. */
  ghost predicate RoomProgress(rooms: map<RoomId, Room>, games: map<RoomId, Engine.Game>, id: RoomId)
    reads games.Values
  {
    id in rooms && rooms[id].status != Waiting ==>
      id in games && (rooms[id].status == Finished <==> SmallBoardWinner(games[id].boardWinners) != Empty)
  }

  /** Storing a room record that agrees with its game keeps `Progress`. */
  lemma ProgressSetRoom(rooms: map<RoomId, Room>, games: map<RoomId, Engine.Game>, id: RoomId, r: Room)
    requires Progress(rooms, games)
    requires r.status != Waiting ==>
      id in games && (r.status == Finished <==> SmallBoardWinner(games[id].boardWinners) != Empty)
    ensures Progress(rooms[id := r], games)
  {
    var rooms' := rooms[id := r];
    forall id' ensures RoomProgress(rooms', games, id') {
      assert RoomProgress(rooms, games, id');
    }
  }

  /** Storing a game that agrees with its room's record keeps `Progress`. */
  lemma ProgressSetGame(rooms: map<RoomId, Room>, games: map<RoomId, Engine.Game>, id: RoomId, g: Engine.Game)
    requires Progress(rooms, games)
    requires id in rooms && rooms[id].status != Waiting ==>
      (rooms[id].status == Finished <==> SmallBoardWinner(g.boardWinners) != Empty)
    ensures Progress(rooms, games[id := g])
  {
    var games' := games[id := g];
    forall id' ensures RoomProgress(rooms, games', id') {
      assert RoomProgress(rooms, games, id');
    }
  }

  /** Deleting a room together with its game keeps `Progress`. */
  lemma ProgressDelete(rooms: map<RoomId, Room>, games: map<RoomId, Engine.Game>, id: RoomId)
    requires Progress(rooms, games)
    ensures Progress(rooms - {id}, games - {id})
  {
    var rooms', games' := rooms - {id}, games - {id};
    forall id' ensures RoomProgress(rooms', games', id') {
      assert RoomProgress(rooms, games, id');
    }
  }

  lemma GamesOkPut(games: map<RoomId, Engine.Game>, id: RoomId, g: Engine.Game)
    requires GamesOk(games) && g.Valid()
    requires forall id' :: id' in games ==> games[id'] != g
    ensures GamesOk(games[id := g])
  {
  }

  lemma GamesOkDelete(games: map<RoomId, Engine.Game>, id: RoomId)
    requires GamesOk(games)
    ensures GamesOk(games - {id})
  {
  }

  /**
   * The server's state: the `rooms` and `games` maps, and the insertion
   * order of `rooms`, which the `disconnect` loop follows.
   */
  class Registry {
    var rooms: map<RoomId, Room>
    var games: map<RoomId, Engine.Game>
    var order: seq<RoomId>

    /** Games only for rooms, and the three properties above. */
    ghost predicate Valid()
      reads this, games.Values
    {
      Catalogue(rooms, order) && games.Keys <= rooms.Keys && GamesOk(games) && Progress(rooms, games)
    }

    /**
     * After a move in the game of room `r.id` alone, and with that room's
     * record set to `r`, which agrees with its game, the registry is valid
     * again.
     */
    twostate lemma GameStep(r: Room)
      requires old(Valid()) && games == old(games) && order == old(order)
      requires r.id in old(rooms) && RoomOk(r.id, r) && rooms == old(rooms)[r.id := r]
      requires r.id in games && games[r.id].Valid()
      requires forall id :: id in games && id != r.id ==> unchanged(games[id])
      requires r.status != Waiting ==>
        (r.status == Finished <==> SmallBoardWinner(games[r.id].boardWinners) != Empty)
      ensures Valid()
    {
      CataloguePut(old(rooms), order, r.id, r);
      forall id | id in games && id != r.id ensures games[id].Valid() {
        assert old(games[id].Valid());
      }
      forall id ensures RoomProgress(rooms, games, id) {
        assert old(RoomProgress(rooms, games, id));
      }
    }

    /** The process start: both maps empty. */
    constructor ()
      ensures Valid() && rooms == map[] && games == map[] && order == []
    {
      rooms := map[];
      games := map[];
      order := [];
    }

    /**
     * `create-room`: store a waiting room holding the sender under `roomId`
     * (the uuid prefix), replacing any room of that id in place.
     */
    method CreateRoom(socket: SocketId, roomId: RoomId)
      requires Valid()
      modifies this
      ensures Valid()
      ensures rooms == old(rooms)[roomId := Room(roomId, [socket], Waiting)]
      ensures games == old(games)
      ensures order == Enter(old(rooms), old(order), roomId)
    {
      CataloguePut(rooms, order, roomId, Room(roomId, [socket], Waiting));
      ProgressSetRoom(rooms, games, roomId, Room(roomId, [socket], Waiting));
      order := Enter(rooms, order, roomId);
      rooms := rooms[roomId := Room(roomId, [socket], Waiting)];
    }

    /** `startGame`: a fresh game for the room, replacing any earlier one. */
    method StartGame(roomId: RoomId)
      requires GamesOk(games)
      modifies this
      ensures GamesOk(games)
      ensures rooms == old(rooms) && order == old(order)
      ensures roomId in games && games == old(games)[roomId := games[roomId]] && fresh(games[roomId])
      ensures games[roomId].Valid() && games[roomId].Position() == Initial()
      ensures games[roomId].winner == Undecided
    {
      var game := new Engine.Game();
      GamesOkPut(games, roomId, game);
      games := games[roomId := game];
    }

    /**
     * `join-room`: create the room if missing; refuse when it already holds
     * two sockets; otherwise add the sender once and start a game when the
     * second socket arrives.
     */
    method JoinRoom(socket: SocketId, roomId: RoomId) returns (reply: JoinReply)
      requires Valid()
      modifies this
      ensures Valid()
      ensures var before := if roomId in old(rooms) then old(rooms)[roomId] else Room(roomId, [], Waiting);
              order == Enter(old(rooms), old(order), roomId) &&
              (|before.players| >= 2 ==>
                reply == RoomFull && rooms == old(rooms) && games == old(games)) &&
              (|before.players| < 2 ==>
                var after := Admit(before, socket);
                reply == Joined(|after.players|) &&
                rooms == old(rooms)[roomId := after] &&
                (|after.players| == 2 ==>
                  roomId in games && games == old(games)[roomId := games[roomId]] &&
                  fresh(games[roomId]) && games[roomId].Position() == Initial() &&
                  games[roomId].winner == Undecided) &&
                (|after.players| < 2 ==> games == old(games)))
    {
      // A missing room is created empty; an empty room is never full.
      var room := if roomId in rooms then rooms[roomId] else Room(roomId, [], Waiting);
      if |room.players| >= 2 {
        return RoomFull;
      }
      assert Registered(rooms, roomId);
      room := Admit(room, socket);
      CataloguePut(rooms, order, roomId, room);
      ghost var rooms0, games0 := rooms, games;
      order := Enter(rooms, order, roomId);
      rooms := rooms[roomId := room];
      if |room.players| == 2 {
        StartGame(roomId);
        InitialInvariant();
        assert games[roomId].boardWinners == Initial().boardWinners;
        ProgressSetGame(rooms0, games0, roomId, games[roomId]);
      }
      ProgressSetRoom(rooms0, games, roomId, room);
      reply := Joined(|room.players|);
    }

    /**
     * `make-move`: ignored unless the room is playing, has a game, and the
     * sender is the socket of the player to move; otherwise `makeMove`, and
     * on acceptance one turn switch, and the room finishes when the
     * meta-board has a line.  A full meta-board without a line leaves the
     * room playing.
     */
    method MakeMoveRequest(socket: SocketId, roomId: RoomId, b: int, c: int) returns (r: MoveOutcome)
      requires Valid()
      modifies this, if roomId in games then {games[roomId]} else {}
      ensures Valid() && games == old(games) && order == old(order)
      ensures roomId in games ==> games[roomId].winner == old(games[roomId].winner)
      ensures r == Accepted ==>
        roomId in rooms && roomId in games &&
        var next := ToMove(rooms[roomId], games[roomId].currentPlayer);
        next.Some? && next != Some(socket)
      ensures r == Ignored <==>
        roomId !in old(rooms) || old(rooms)[roomId].status != Playing || roomId !in old(games) ||
        old(ToMove(rooms[roomId], games[roomId].currentPlayer)) != Some(socket)
      ensures r == Ignored || r == Rejected || r == Fault ==>
        rooms == old(rooms) &&
        (roomId in games ==> games[roomId].Position() == old(games[roomId].Position()))
      ensures r == Accepted ==>
        var game := games[roomId];
        var before := old(game.Position());
        0 <= b < 9 && 0 <= c < 9 && Legal(before, b, c) &&
        game.Position() == Flip(Play(before, b, c)) &&
        rooms == old(rooms)[roomId := old(rooms)[roomId].(status :=
          if SmallBoardWinner(game.boardWinners) != Empty then Finished else Playing)]
    {
      if roomId !in rooms || rooms[roomId].status != Playing || roomId !in games {
        return Ignored;
      }
      var room := rooms[roomId];
      var game := games[roomId];
      if ToMove(room, game.currentPlayer) != Some(socket) {
        return Ignored;
      }
      assert Registered(rooms, roomId);
      ghost var cp := game.currentPlayer;
      r := Advance(roomId, b, c);
      if r == Accepted {
        TurnPasses(room, cp);
        assert rooms[roomId].players == room.players;
      }
    }

    /**
     * The part of `make-move` past the guards: the game step, and the room
     * finishes when the meta-board has a line.
     */
    method Advance(roomId: RoomId, b: int, c: int) returns (r: MoveOutcome)
      requires Valid() && roomId in rooms && rooms[roomId].status == Playing && roomId in games
      modifies this, games[roomId]
      ensures Valid() && games == old(games) && order == old(order) && r != Ignored
      ensures games[roomId].winner == old(games[roomId].winner)
      ensures r != Accepted ==>
        rooms == old(rooms) && games[roomId].Position() == old(games[roomId].Position())
      ensures r == Accepted ==>
        var game := games[roomId];
        var before := old(game.Position());
        0 <= b < 9 && 0 <= c < 9 && Legal(before, b, c) &&
        game.Position() == Flip(Play(before, b, c)) &&
        rooms == old(rooms)[roomId := old(rooms)[roomId].(status :=
          if SmallBoardWinner(game.boardWinners) != Empty then Finished else Playing)]
    {
      var room := rooms[roomId];
      var game := games[roomId];
      assert Registered(rooms, roomId) && RoomProgress(rooms, games, roomId);
      r := Turn(game, b, c);
      if r == Accepted && SmallBoardWinner(game.boardWinners) != Empty {
        rooms := rooms[roomId := room.(status := Finished)];
      } else {
        assert rooms == old(rooms)[roomId := room];
      }
      GameStep(rooms[roomId]);
    }

    /**
     * The body of the `disconnect` loop once room `order[k]` is found to hold
     * the socket at index `i`: splice it out, then delete the room and its
     * game when it is empty, or send the room back to waiting.
     */
    method Evict(k: nat, i: nat)
      requires Valid() && k < |order| && i < |rooms[order[k]].players|
      modifies this
      ensures Valid()
      ensures var id := old(order[k]);
              var room' := Leave(old(rooms[id]), i);
              (forall s :: s in room'.players <==> s in old(rooms[id].players) && s != old(rooms[id].players[i])) &&
              (room'.players == [] ==>
                rooms == old(rooms) - {id} && games == old(games) - {id} && order == RemoveAt(old(order), k)) &&
              (room'.players != [] ==>
                rooms == old(rooms)[id := room'] && games == old(games) && order == old(order))
    {
      var roomId := order[k];
      var room := rooms[roomId];
      assert Registered(rooms, roomId);
      RemoveAtDistinct(room.players, i);
      var room' := Leave(room, i);
      if room'.players == [] {
        CatalogueDelete(rooms, order, k);
        ProgressDelete(rooms, games, roomId);
        GamesOkDelete(games, roomId);
        rooms := rooms - {roomId};
        games := games - {roomId};
        order := RemoveAt(order, k);
      } else {
        CataloguePut(rooms, order, roomId, room');
        ProgressSetRoom(rooms, games, roomId, room');
        rooms := rooms[roomId := room'];
      }
    }

    /**
     * `disconnect`: in insertion order, the first room holding the socket
     * loses it, and the scan stops there; an emptied room is deleted with
     * its game, any other goes back to waiting.  Later rooms holding the
     * same socket keep it.
     */
    method Disconnect(socket: SocketId)
      requires Valid()
      modifies this
      ensures Valid()
      ensures var k := First(old(order), HasPlayer(old(rooms), socket));
              (k.None? ==> rooms == old(rooms) && games == old(games) && order == old(order)) &&
              (k.Some? ==>
                var id := old(order)[k.value];
                var room := old(rooms)[id];
                var i := IndexOf(room.players, socket).value;
                var room' := Leave(room, i);
                socket !in room'.players &&
                (room'.players == [] ==>
                  rooms == old(rooms) - {id} && games == old(games) - {id} &&
                  order == RemoveAt(old(order), k.value)) &&
                (room'.players != [] ==>
                  rooms == old(rooms)[id := room'] && games == old(games) && order == old(order)))
    {
      var k := 0;
      while k < |order|
        invariant 0 <= k <= |order|
        invariant forall j :: 0 <= j < k ==> !HasPlayer(rooms, socket)(order[j])
      {
        var playerIndex := IndexOf(rooms[order[k]].players, socket);
        if playerIndex.Some? {
          assert First(order, HasPlayer(rooms, socket)) == Some(k);
          Evict(k, playerIndex.value);
          return;
        }
        k := k + 1;
      }
      assert First(order, HasPlayer(rooms, socket)).None?;
    }
  }

  /** A finished room's game has a line on its meta-board; a playing room's has none. */
  lemma FinishedMeansLine(reg: Registry, id: RoomId)
    requires reg.Valid() && id in reg.rooms && reg.rooms[id].status != Waiting
    ensures id in reg.games
    ensures reg.rooms[id].status == Finished <==> exists m :: HasLine(reg.games[id].boardWinners, m)
  {
    assert RoomProgress(reg.rooms, reg.games, id);
  }
}
