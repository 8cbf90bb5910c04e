/** The command handlers of AppGateway. Each handler checks its input,
    calls the store, and returns, in order, what it would hand to the
    transport: emits to a target, room joins, and calls of store operations
    whose behaviour is outside this model. */
module Gateway {
  import opened RedisClient

  // ---------------------------------------------------------------------
  // Blank input: String.prototype.trim() leaves nothing.

  /** The characters trim() strips: the ECMAScript WhiteSpace and
      LineTerminator code points. */
  predicate IsWhite(c: char)
  {
    || c == '\t' || c == '\n' || c == '\U{000B}' || c == '\U{000C}' || c == '\r'
    || c == ' ' || c == '\U{00A0}' || c == '\U{1680}'
    || ('\U{2000}' <= c <= '\U{200A}')
    || c == '\U{2028}' || c == '\U{2029}' || c == '\U{202F}' || c == '\U{205F}'
    || c == '\U{3000}' || c == '\U{FEFF}'
  }

  /** Every character is whitespace (the empty string included). */
  predicate IsBlank(s: string)
  {
    forall i :: 0 <= i < |s| ==> IsWhite(s[i])
  }

  /** Leading whitespace removed: a suffix of s whose dropped prefix is
      blank and which starts with a non-white character, if any. */
  function TrimStart(s: string): (r: string)
    ensures |r| <= |s| && r == s[|s| - |r|..]
    ensures forall i :: 0 <= i < |s| - |r| ==> IsWhite(s[i])
    ensures r != [] ==> !IsWhite(r[0])
  {
    if s != [] && IsWhite(s[0]) then
      var r := TrimStart(s[1..]);
      assert s[1..][|s| - 1 - |r|..] == s[|s| - |r|..];
      r
    else s
  }

  /** Trailing whitespace removed: a prefix of s whose dropped suffix is
      blank and which ends with a non-white character, if any. */
  function TrimEnd(s: string): (r: string)
    ensures |r| <= |s| && r == s[..|r|]
    ensures forall i :: |r| <= i < |s| ==> IsWhite(s[i])
    ensures r != [] ==> !IsWhite(r[|r| - 1])
  {
    if s != [] && IsWhite(s[|s| - 1]) then
      var r := TrimEnd(s[..|s| - 1]);
      assert s[..|s| - 1][..|r|] == s[..|r|];
      r
    else s
  }

  /** String.prototype.trim(). */
  function Trim(s: string): string
  {
    TrimEnd(TrimStart(s))
  }

  /** trim() leaves nothing exactly when every character is whitespace. */
  lemma TrimEmptyIffBlank(s: string)
    ensures |Trim(s)| == 0 <==> IsBlank(s)
  {
    var t := TrimStart(s);
    var cut := |s| - |t|;
    assert cut < |s| ==> t[0] == s[cut];
  }

  // ---------------------------------------------------------------------
  // What a handler hands to the transport.

  /** client (the sender), server.to(id) (one socket), server.in(room)
      (every socket in the room), client.to(room) (the room but the sender). */
  datatype Target = Caller | Socket(id: string) | Room(name: string) | RoomExceptCaller(name: string)

  datatype Payload =
    | NoData
    | Response(result: bool, message: string)
    | PlayerJoined(displayName: Option<string>, playerId: string)
    | PlayerList(players: seq<PlayerEntry>)
    | Kicked(playerId: string)
    | GameData(playerData: string, hand: string)
    | Raw(json: string)

  /** A store operation the handler awaits whose behaviour is outside the model. */
  datatype StoreCall =
    | StartGame(lobbyCode: string)
    | PlayCard(lobbyCode: string, playerId: string, cardIndex: int)
    | DrawCards(lobbyCode: string, cardsToDraw: int, playerId: string)

  datatype Output =
    | Emit(target: Target, event: string, payload: Payload)
    | JoinRoom(room: string)
    | Call(call: StoreCall)

  /** One element of the event queue that the store's playCard / drawCards
      return; `data` is the JSON they produced. */
  datatype QueuedEvent = QueuedEvent(event: string, data: string)

  /** The Socket.IO room of a lobby. */
  function RoomOf(lobbyCode: string): string
  {
    "game-" + lobbyCode
  }

  function Answer(event: string, ok: bool, message: string): Output
  {
    Emit(Caller, event, Response(ok, message))
  }

  function ActionGiven(playerId: string): Output
  {
    Emit(Socket(playerId), "actionGiven", NoData)
  }

  // ---------------------------------------------------------------------
  // Passing the turn.

  /** The indices at which x occurs in s, in increasing order. */
  function IndicesOf<T(==)>(s: seq<T>, x: T): (r: seq<nat>)
    ensures forall k :: 0 <= k < |r| ==> r[k] < |s| && s[r[k]] == x
  {
    if s == [] then [] else IndicesOf(s[..|s| - 1], x) + (if s[|s| - 1] == x then [|s| - 1] else [])
  }

  /** Every index at which x occurs is listed. */
  lemma {:induction false} IndicesOfComplete<T>(s: seq<T>, x: T, i: nat)
    requires i < |s| && s[i] == x
    ensures i in IndicesOf(s, x)
  {
    if i < |s| - 1 {
      IndicesOfComplete(s[..|s| - 1], x, i);
    }
  }

  predicate Increasing(r: seq<nat>)
  {
    forall j, k :: 0 <= j < k < |r| ==> r[j] < r[k]
  }

  /** The indices are listed in increasing order, so each at most once. */
  lemma {:induction false} IndicesOfIncreasing<T>(s: seq<T>, x: T)
    ensures Increasing(IndicesOf(s, x))
  {
    if s != [] {
      var init := s[..|s| - 1];
      IndicesOfIncreasing(init, x);
      var earlier := IndicesOf(init, x);
      var r := IndicesOf(s, x);
      assert r == earlier + (if s[|s| - 1] == x then [|s| - 1] else []);
      forall j, k | 0 <= j < k < |r| ensures r[j] < r[k] {
        if k < |earlier| {
          assert r[j] == earlier[j] && r[k] == earlier[k];
          assert earlier[j] < earlier[k];
        } else {
          assert r[j] == earlier[j] < |init|;
          assert r[k] == |s| - 1;
        }
      }
    }
  }

  /** As many indices as occurrences. */
  lemma {:induction false} IndicesOfCount<T>(s: seq<T>, x: T)
    ensures |IndicesOf(s, x)| == multiset(s)[x]
  {
    if s != [] {
      var init := s[..|s| - 1];
      IndicesOfCount(init, x);
      assert s == init + [s[|s| - 1]];
    }
  }

  /** The successor of index i in round-robin order: players[(i + 1) % len]. */
  function Successor(ids: seq<string>, i: nat): string
    requires i < |ids|
  {
    ids[(i + 1) % |ids|]
  }

  /** The actionGiven emits a play or draw by playerId causes: one for each
      index at which playerId occurs, to the player after it. */
  function Handoffs(ids: seq<string>, playerId: string): seq<Output>
  {
    var at := IndicesOf(ids, playerId);
    seq(|at|, k requires 0 <= k < |at| => ActionGiven(Successor(ids, at[k])))
  }

  /** A member listed once hands the turn to exactly the next member, the
      first member after the last. */
  lemma HandoffsToNext(ids: seq<string>, playerId: string, i: nat)
    requires i < |ids| && ids[i] == playerId && multiset(ids)[playerId] == 1
    ensures Handoffs(ids, playerId) == [ActionGiven(ids[(i + 1) % |ids|])]
  {
    IndicesOfCount(ids, playerId);
    IndicesOfComplete(ids, playerId, i);
    var at := IndicesOf(ids, playerId);
    assert at == [at[0]];
  }

  /** A player who is not (or no longer) a member gives the turn to no one;
      one listed several times gives it once per listing. */
  lemma HandoffsCount(ids: seq<string>, playerId: string)
    ensures |Handoffs(ids, playerId)| == multiset(ids)[playerId]
    ensures playerId !in ids ==> Handoffs(ids, playerId) == []
  {
    IndicesOfCount(ids, playerId);
  }

  /** The turn-passing loop of playCard and drawCards. */
  method GiveTurn(players: seq<PlayerEntry>, playerId: string) returns (out: seq<Output>)
    ensures out == Handoffs(Ids(players), playerId)
  {
    ghost var ids := Ids(players);
    out := [];
    for i := 0 to |players|
      invariant |out| == |IndicesOf(ids[..i], playerId)|
      invariant forall k :: 0 <= k < |out| ==>
                  out[k] == ActionGiven(Successor(ids, IndicesOf(ids[..i], playerId)[k]))
    {
      assert ids[..i + 1][..i] == ids[..i];
      if playerId == players[i].playerId {
        out := out + [ActionGiven(players[(i + 1) % |players|].playerId)];
      }
    }
    assert ids[..|players|] == ids;
  }

  /** The loop that re-emits the store's event queue to the lobby's room. */
  method Relay(lobbyCode: string, queue: seq<QueuedEvent>) returns (out: seq<Output>)
    ensures |out| == |queue|
    ensures forall k :: 0 <= k < |queue| ==>
              out[k] == Emit(Room(RoomOf(lobbyCode)), queue[k].event, Raw(queue[k].data))
  {
    out := [];
    for k := 0 to |queue|
      invariant |out| == k
      invariant forall j :: 0 <= j < k ==>
                  out[j] == Emit(Room(RoomOf(lobbyCode)), queue[j].event, Raw(queue[j].data))
    {
      out := out + [Emit(Room(RoomOf(lobbyCode)), queue[k].event, Raw(queue[k].data))];
    }
  }

  // ---------------------------------------------------------------------

  class AppGateway {
    const redis: RedisClientService

    /** The store is well formed and every member list belongs to a lobby
        record: lists are only created together with a record or after the
        record is found, and only deleted together with it. */
    ghost predicate Valid()
      reads redis
    {
      redis.Valid() && redis.lists.Keys <= redis.lobbies.Keys
    }

    constructor (redis: RedisClientService)
      requires redis.Valid() && redis.lists.Keys <= redis.lobbies.Keys
      ensures this.redis == redis && Valid()
    {
      this.redis := redis;
    }

    /** setName: a blank name is refused and nothing is stored; otherwise
        the name replaces the caller's display name and is echoed back. */
    method SetName(clientId: string, displayName: string) returns (out: seq<Output>)
      requires Valid()
      modifies redis
      ensures Valid()
      ensures IsBlank(displayName) ==>
                out == [Answer("setNameResponse", false, "Username cannot be blank")] &&
                redis.names == old(redis.names)
      ensures !IsBlank(displayName) ==>
                out == [Answer("setNameResponse", true, displayName)] &&
                redis.names == old(redis.names)[clientId := displayName]
      ensures redis.lobbies == old(redis.lobbies) && redis.lists == old(redis.lists)
      ensures redis.hosts == old(redis.hosts)
    {
      TrimEmptyIffBlank(displayName);
      if |Trim(displayName)| == 0 {
        return [Answer("setNameResponse", false, "Username cannot be blank")];
      }
      redis.SetName(clientId, displayName);
      out := [Answer("setNameResponse", true, displayName)];
    }

    /** createLobby: a blank code or a code in use is refused with the store
        unchanged; otherwise the caller hosts a new lobby of which it is the
        only member, joins its room, and gets the code back. */
    method CreateLobby(clientId: string, lobbyCode: string) returns (out: seq<Output>)
      requires Valid()
      modifies redis
      ensures Valid()
      ensures IsBlank(lobbyCode) ==>
                out == [Answer("createLobbyResponse", false, "Lobby Code cannot be empty")]
      ensures !IsBlank(lobbyCode) && lobbyCode in old(redis.lobbies) ==>
                out == [Answer("createLobbyResponse", false, "Lobby Code in use")]
      ensures IsBlank(lobbyCode) || lobbyCode in old(redis.lobbies) ==>
                redis.lobbies == old(redis.lobbies) && redis.lists == old(redis.lists) &&
                redis.hosts == old(redis.hosts)
      ensures !IsBlank(lobbyCode) && lobbyCode !in old(redis.lobbies) ==>
                out == [JoinRoom(RoomOf(lobbyCode)), Answer("createLobbyResponse", true, lobbyCode)] &&
                redis.lobbies == old(redis.lobbies)[lobbyCode := LobbyRecord(clientId, lobbyCode, "0")] &&
                redis.lists == old(redis.lists)[lobbyCode := [clientId]] &&
                redis.hosts == old(redis.hosts)[clientId := lobbyCode]
      ensures redis.names == old(redis.names)
    {
      TrimEmptyIffBlank(lobbyCode);
      if |Trim(lobbyCode)| == 0 {
        return [Answer("createLobbyResponse", false, "Lobby Code cannot be empty")];
      }
      var inUse := redis.GameExists(lobbyCode);
      if inUse {
        return [Answer("createLobbyResponse", false, "Lobby Code in use")];
      }
      assert lobbyCode !in redis.lists;
      assert redis.Members(lobbyCode) + [clientId] == [clientId];
      redis.CreateNewGame(lobbyCode, clientId);
      assert redis.lists.Keys == old(redis.lists.Keys) + {lobbyCode};
      out := [JoinRoom(RoomOf(lobbyCode)), Answer("createLobbyResponse", true, lobbyCode)];
    }

    /** joinLobby: a blank code or a missing lobby is refused with the store
        unchanged; otherwise the caller is appended to the members, joins the
        room, the others in the room learn its name, and it gets the code back. */
    method JoinLobby(clientId: string, lobbyCode: string) returns (out: seq<Output>)
      requires Valid()
      modifies redis
      ensures Valid()
      ensures IsBlank(lobbyCode) ==>
                out == [Answer("joinLobbyResponse", false, "Lobby Code cannot be empty")]
      ensures !IsBlank(lobbyCode) && lobbyCode !in old(redis.lobbies) ==>
                out == [Answer("joinLobbyResponse", false, "Lobby does not exist")]
      ensures IsBlank(lobbyCode) || lobbyCode !in old(redis.lobbies) ==>
                redis.lists == old(redis.lists)
      ensures !IsBlank(lobbyCode) && lobbyCode in old(redis.lobbies) ==>
                out == [JoinRoom(RoomOf(lobbyCode)),
                        Emit(RoomExceptCaller(RoomOf(lobbyCode)), "playerJoin",
                             PlayerJoined(redis.NameOf(clientId), clientId)),
                        Answer("joinLobbyResponse", true, lobbyCode)] &&
                redis.lists == old(redis.lists)[lobbyCode := old(redis.Members(lobbyCode)) + [clientId]]
      ensures redis.lobbies == old(redis.lobbies) && redis.hosts == old(redis.hosts)
      ensures redis.names == old(redis.names)
    {
      TrimEmptyIffBlank(lobbyCode);
      if |Trim(lobbyCode)| == 0 {
        return [Answer("joinLobbyResponse", false, "Lobby Code cannot be empty")];
      }
      var found := redis.GameExists(lobbyCode);
      if !found {
        return [Answer("joinLobbyResponse", false, "Lobby does not exist")];
      }
      redis.JoinGame(lobbyCode, clientId);
      var name := redis.GetPlayerName(clientId);
      out := [JoinRoom(RoomOf(lobbyCode)),
              Emit(RoomExceptCaller(RoomOf(lobbyCode)), "playerJoin", PlayerJoined(name, clientId)),
              Answer("joinLobbyResponse", true, lobbyCode)];
    }

    /** getPlayers: the members in list order with their display names,
        sent to the caller. No check on the code: a missing lobby lists no one. */
    method GetPlayers(lobbyCode: string) returns (out: seq<Output>)
      requires Valid()
      ensures |out| == 1 && out[0].Emit? && out[0].target == Caller
      ensures out[0].event == "getPlayersResponse" && out[0].payload.PlayerList?
      ensures var players := out[0].payload.players;
              Ids(players) == redis.Members(lobbyCode) &&
              forall i :: 0 <= i < |players| ==> players[i].displayName == redis.NameOf(players[i].playerId)
    {
      var players := redis.GetGamePlayers(lobbyCode);
      out := [Emit(Caller, "getPlayersResponse", PlayerList(players))];
    }

    /** kickPlayer: every occurrence of the player leaves the member list and
        the room is told. There is no check of who asks, nor of whether the
        player is the host; no other key changes. */
    method KickPlayer(lobbyCode: string, playerId: string) returns (out: seq<Output>)
      requires Valid()
      modifies redis
      ensures Valid()
      ensures out == [Emit(Room(RoomOf(lobbyCode)), "kickEvent", Kicked(playerId))]
      ensures redis.Members(lobbyCode) == RemoveAll(old(redis.Members(lobbyCode)), playerId)
      ensures playerId !in redis.Members(lobbyCode)
      ensures forall code :: code != lobbyCode ==> redis.Members(code) == old(redis.Members(code))
      ensures redis.lobbies == old(redis.lobbies) && redis.hosts == old(redis.hosts)
      ensures redis.names == old(redis.names)
    {
      redis.KickPlayer(lobbyCode, playerId);
      out := [Emit(Room(RoomOf(lobbyCode)), "kickEvent", Kicked(playerId))];
    }

    /** startGame as written. `playerCount` is what getNumberOfPlayers
        answered. Fewer than two players draws the failure response, but the
        handler does not return: the store's startGame is still called and
        the start is still broadcast. */
    method StartGame(lobbyCode: string, playerCount: int) returns (out: seq<Output>)
      ensures playerCount < 2 ==>
                out == [Answer("startGameResponse", false, "Cannot start game with only one player"),
                        Call(StoreCall.StartGame(lobbyCode)),
                        Emit(Room(RoomOf(lobbyCode)), "gameStartEvent", NoData)]
      ensures playerCount >= 2 ==>
                out == [Call(StoreCall.StartGame(lobbyCode)), Emit(Room(RoomOf(lobbyCode)), "gameStartEvent", NoData)]
    {
      out := [];
      if playerCount < 2 {
        out := out + [Answer("startGameResponse", false, "Cannot start game with only one player")];
      }
      out := out + [Call(StoreCall.StartGame(lobbyCode)), Emit(Room(RoomOf(lobbyCode)), "gameStartEvent", NoData)];
    }

    /** startGame as its failure message intends: the handler returns after
        the failure response, so a lobby of one is never started. */
    method StartGameChecked(lobbyCode: string, playerCount: int) returns (out: seq<Output>)
      ensures playerCount < 2 ==>
                out == [Answer("startGameResponse", false, "Cannot start game with only one player")]
      ensures playerCount >= 2 ==>
                out == [Call(StoreCall.StartGame(lobbyCode)), Emit(Room(RoomOf(lobbyCode)), "gameStartEvent", NoData)]
      ensures Call(StoreCall.StartGame(lobbyCode)) in out <==> playerCount >= 2
    {
      if playerCount < 2 {
        return [Answer("startGameResponse", false, "Cannot start game with only one player")];
      }
      out := [Call(StoreCall.StartGame(lobbyCode)), Emit(Room(RoomOf(lobbyCode)), "gameStartEvent", NoData)];
    }

    /** getGameData: `players`, `hand` and `host` are what getGamePlayerData,
        getPlayerHand and getHostOfGame answered. The data goes to the caller,
        then the first turn goes to the host. */
    method GetGameData(players: string, hand: string, host: string) returns (out: seq<Output>)
      ensures out == [Emit(Caller, "getGameDataResponse", GameData(players, hand)), ActionGiven(host)]
    {
      out := [Emit(Caller, "getGameDataResponse", GameData(players, hand)), ActionGiven(host)];
    }

    /** playCard: the member list is read first; the store's playCard is then
        called and its event queue relayed to the room; the turn passes
        according to the list read before the play. */
    method PlayCard(lobbyCode: string, playerId: string, cardIndex: int, emitQueue: seq<QueuedEvent>)
      returns (out: seq<Output>)
      requires Valid()
      ensures |out| == 1 + |emitQueue| + |Handoffs(redis.Members(lobbyCode), playerId)|
      ensures out[0] == Call(StoreCall.PlayCard(lobbyCode, playerId, cardIndex))
      ensures forall k :: 0 <= k < |emitQueue| ==>
                out[1 + k] == Emit(Room(RoomOf(lobbyCode)), emitQueue[k].event, Raw(emitQueue[k].data))
      ensures out[1 + |emitQueue|..] == Handoffs(redis.Members(lobbyCode), playerId)
    {
      var players := redis.GetGamePlayers(lobbyCode);
      var relayed := Relay(lobbyCode, emitQueue);
      var turn := GiveTurn(players, playerId);
      out := [Call(StoreCall.PlayCard(lobbyCode, playerId, cardIndex))] + relayed + turn;
    }

    /** drawCards: as playCard, with the store's drawCards. */
    method DrawCards(lobbyCode: string, cardsToDraw: int, playerId: string, emitQueue: seq<QueuedEvent>)
      returns (out: seq<Output>)
      requires Valid()
      ensures |out| == 1 + |emitQueue| + |Handoffs(redis.Members(lobbyCode), playerId)|
      ensures out[0] == Call(StoreCall.DrawCards(lobbyCode, cardsToDraw, playerId))
      ensures forall k :: 0 <= k < |emitQueue| ==>
                out[1 + k] == Emit(Room(RoomOf(lobbyCode)), emitQueue[k].event, Raw(emitQueue[k].data))
      ensures out[1 + |emitQueue|..] == Handoffs(redis.Members(lobbyCode), playerId)
    {
      var players := redis.GetGamePlayers(lobbyCode);
      var relayed := Relay(lobbyCode, emitQueue);
      var turn := GiveTurn(players, playerId);
      out := [Call(StoreCall.DrawCards(lobbyCode, cardsToDraw, playerId))] + relayed + turn;
    }

    /** handleDisconnect as written: `lobbyCode` is what getGameOfPlayer
        answered. disconnectPlayer deletes host-{clientId} and the keys of
        the code "[object Promise]"; the caller's hosted lobby stays. The
        room of `lobbyCode` is told the player left. */
    method HandleDisconnect(clientId: string, lobbyCode: string) returns (out: seq<Output>)
      requires Valid()
      modifies redis
      ensures Valid()
      ensures out == [Emit(Room(RoomOf(lobbyCode)), "kickEvent", Kicked(clientId))]
      ensures redis.lobbies == old(redis.lobbies) - {PromiseText}
      ensures redis.lists == old(redis.lists) - {PromiseText}
      ensures redis.hosts == old(redis.hosts) - {clientId}
      ensures redis.names == old(redis.names)
    {
      redis.DisconnectPlayer(clientId);
      out := [Emit(Room(RoomOf(lobbyCode)), "kickEvent", Kicked(clientId))];
    }

    /** handleDisconnect with the corrected disconnect: a host's lobby
        record, member list and back-reference go; a player who hosts
        nothing leaves the store unchanged. */
    method HandleDisconnectCorrected(clientId: string, lobbyCode: string) returns (out: seq<Output>)
      requires Valid()
      modifies redis
      ensures Valid()
      ensures out == [Emit(Room(RoomOf(lobbyCode)), "kickEvent", Kicked(clientId))]
      ensures clientId in old(redis.hosts) ==>
                var code := old(redis.hosts)[clientId];
                redis.lobbies == old(redis.lobbies) - {code} && redis.lists == old(redis.lists) - {code} &&
                redis.hosts == old(redis.hosts) - {clientId}
      ensures clientId !in old(redis.hosts) ==>
                redis.lobbies == old(redis.lobbies) && redis.lists == old(redis.lists) &&
                redis.hosts == old(redis.hosts)
      ensures redis.names == old(redis.names)
    {
      redis.DisconnectHost(clientId);
      out := [Emit(Room(RoomOf(lobbyCode)), "kickEvent", Kicked(clientId))];
    }
  }

  /** A lobby of one: startGame as written answers with the failure and
      still starts the game. */
  method StartWithOnePlayer() returns (out: seq<Output>)
    ensures Answer("startGameResponse", false, "Cannot start game with only one player") in out
    ensures Call(StoreCall.StartGame("ABCD")) in out
    ensures |out| == 3 && out[2] == Emit(Room(RoomOf("ABCD")), "gameStartEvent", NoData)
  {
    var store := new RedisClientService();
    var gateway := new AppGateway(store);
    out := gateway.StartGame("ABCD", 1);
    assert out[1] == Call(StoreCall.StartGame("ABCD"));
  }

  /** The scenario of a lobby created by H1 and joined by P2: the members
      are [H1, P2] in that order, and a play by either passes the turn to
      the other. */
  method CreateThenJoin() returns (gateway: AppGateway, created: seq<Output>, joined: seq<Output>)
    ensures created == [JoinRoom(RoomOf("ABCD")), Answer("createLobbyResponse", true, "ABCD")]
    ensures |joined| == 3 && joined[2] == Answer("joinLobbyResponse", true, "ABCD")
    ensures gateway.redis.Members("ABCD") == ["H1", "P2"]
    ensures Handoffs(gateway.redis.Members("ABCD"), "H1") == [ActionGiven("P2")]
    ensures Handoffs(gateway.redis.Members("ABCD"), "P2") == [ActionGiven("H1")]
  {
    var store := new RedisClientService();
    gateway := new AppGateway(store);
    assert !IsBlank("ABCD") by { assert !IsWhite("ABCD"[0]); }
    created := gateway.CreateLobby("H1", "ABCD");
    joined := gateway.JoinLobby("P2", "ABCD");
    var ids := gateway.redis.Members("ABCD");
    assert ids == ["H1", "P2"];
    assert multiset(ids)["H1"] == 1 && multiset(ids)["P2"] == 1;
    HandoffsToNext(ids, "H1", 0);
    HandoffsToNext(ids, "P2", 1);
  }

  /** H1 creates lobby ABCD and disconnects, then P2 joins ABCD. With the
      handler as written the lobby is still there and the join succeeds. */
  method DisconnectThenJoin() returns (joined: seq<Output>)
    ensures |joined| == 3 && joined[2] == Answer("joinLobbyResponse", true, "ABCD")
  {
    var store := new RedisClientService();
    var gateway := new AppGateway(store);
    assert !IsBlank("ABCD") by { assert !IsWhite("ABCD"[0]); }
    var _ := gateway.CreateLobby("H1", "ABCD");
    assert "ABCD" != PromiseText;
    var _ := gateway.HandleDisconnect("H1", "ABCD");
    joined := gateway.JoinLobby("P2", "ABCD");
  }

  /** The same steps with the corrected disconnect: the lobby is gone and
      the join is refused. */
  method DisconnectCorrectedThenJoin() returns (joined: seq<Output>)
    ensures joined == [Answer("joinLobbyResponse", false, "Lobby does not exist")]
  {
    var store := new RedisClientService();
    var gateway := new AppGateway(store);
    assert !IsBlank("ABCD") by { assert !IsWhite("ABCD"[0]); }
    var _ := gateway.CreateLobby("H1", "ABCD");
    var _ := gateway.HandleDisconnectCorrected("H1", "ABCD");
    joined := gateway.JoinLobby("P2", "ABCD");
  }
}
