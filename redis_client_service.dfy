/** The lobby and player keys of the shared key-value store, as the
    RedisClientService wrapper reads and writes them.

    The store is modelled by one map per key family:
      lobbies  game-{code}            hash {host, code, active}
      lists    game-{code}-players    ordered list of player ids
      hosts    host-{playerId}        string: the code of the lobby hosted
      names    {playerId}-display-name string: the display name
    Each map is keyed by the part of the key that varies. */
module RedisClient {

  datatype Option<T> = None | Some(value: T)

  /** The hash stored at game-{code}; `active` is kept as the string the
      store holds ("0" when the lobby is created). */
  datatype LobbyRecord = LobbyRecord(host: string, code: string, active: string)

  /** One element of the list getGamePlayers builds: the id and the display
      name read for it (null when the player never set one). */
  datatype PlayerEntry = PlayerEntry(playerId: string, displayName: Option<string>)

  /** The ids of a list of player entries, in the same order. */
  function Ids(players: seq<PlayerEntry>): seq<string>
  {
    seq(|players|, i requires 0 <= i < |players| => players[i].playerId)
  }

  /** What a template literal makes of a Promise object. */
  const PromiseText: string := "[object Promise]"

  // ---------------------------------------------------------------------
  // LREM on a list: which elements remain, for each sign of `count`.

  /** count == 0: every occurrence of x is removed. */
  function RemoveAll<T(==)>(s: seq<T>, x: T): (r: seq<T>)
    ensures x !in r
    ensures |r| <= |s|
  {
    if s == [] then [] else (if s[0] == x then [] else [s[0]]) + RemoveAll(s[1..], x)
  }

  /** count == n > 0: the first n occurrences, scanning from the head, are removed. */
  function RemoveFirst<T(==)>(s: seq<T>, x: T, n: nat): (r: seq<T>)
    ensures |r| <= |s|
  {
    if s == [] then []
    else if s[0] == x && n > 0 then RemoveFirst(s[1..], x, n - 1)
    else [s[0]] + RemoveFirst(s[1..], x, n)
  }

  /** count == -n < 0: the first n occurrences, scanning from the tail, are removed. */
  function RemoveLast<T(==)>(s: seq<T>, x: T, n: nat): (r: seq<T>)
    ensures |r| <= |s|
  {
    if s == [] then []
    else if s[|s| - 1] == x && n > 0 then RemoveLast(s[..|s| - 1], x, n - 1)
    else RemoveLast(s[..|s| - 1], x, n) + [s[|s| - 1]]
  }

  /** The list LREM key count x leaves behind. */
  function LremList<T(==)>(s: seq<T>, count: int, x: T): seq<T>
  {
    if count == 0 then RemoveAll(s, x)
    else if count > 0 then RemoveFirst(s, x, count)
    else RemoveLast(s, x, -count)
  }

  /** Removing an element that is not there changes nothing. */
  lemma {:induction false} RemoveAllAbsent<T>(s: seq<T>, x: T)
    requires x !in s
    ensures RemoveAll(s, x) == s
  {
    if s != [] {
      RemoveAllAbsent(s[1..], x);
    }
  }

  /** Removal works element by element: what came before in the list still
      comes before, so the survivors keep their relative order. */
  lemma {:induction false} RemoveAllAppend<T>(a: seq<T>, b: seq<T>, x: T)
    ensures RemoveAll(a + b, x) == RemoveAll(a, x) + RemoveAll(b, x)
  {
    if a == [] {
      assert a + b == b;
    } else {
      assert (a + b)[1..] == a[1..] + b;
      RemoveAllAppend(a[1..], b, x);
    }
  }

  /** Exactly the occurrences of x go; every other element keeps its count. */
  lemma {:induction false} RemoveAllMultiset<T>(s: seq<T>, x: T)
    ensures multiset(RemoveAll(s, x)) == multiset(s)[x := 0]
  {
    if s != [] {
      RemoveAllMultiset(s[1..], x);
      assert s == [s[0]] + s[1..];
    }
  }

  /** Removing twice is removing once. */
  lemma RemoveAllIdempotent<T>(s: seq<T>, x: T)
    ensures RemoveAll(RemoveAll(s, x), x) == RemoveAll(s, x)
  {
    RemoveAllAbsent(RemoveAll(s, x), x);
  }

  /** Removing every x after appending an x is the same as removing every x
      before it: a kick undoes any number of joins of that player. */
  lemma RemoveAllAfterAppend<T>(s: seq<T>, x: T)
    ensures RemoveAll(s + [x], x) == RemoveAll(s, x)
    ensures x !in s ==> RemoveAll(s + [x], x) == s
  {
    RemoveAllAppend(s, [x], x);
    assert RemoveAll([x], x) == [];
    if x !in s {
      RemoveAllAbsent(s, x);
    }
  }

  /** The smaller of n and the number of occurrences of x in s. */
  function Capped<T(==)>(s: seq<T>, x: T, n: nat): nat
  {
    var m := multiset(s)[x];
    if m <= n then m else n
  }

  /** The head-first removal drops min(n, occurrences) copies of x ... */
  lemma {:induction false} RemoveFirstLength<T>(s: seq<T>, x: T, n: nat)
    ensures |s| - |RemoveFirst(s, x, n)| == Capped(s, x, n)
  {
    if s != [] {
      assert s == [s[0]] + s[1..];
      if s[0] == x && n > 0 {
        RemoveFirstLength(s[1..], x, n - 1);
      } else {
        RemoveFirstLength(s[1..], x, n);
      }
    }
  }

  /** ... and no element other than x. */
  lemma {:induction false} RemoveFirstKeepsOthers<T>(s: seq<T>, x: T, n: nat, y: T)
    requires y != x
    ensures multiset(RemoveFirst(s, x, n))[y] == multiset(s)[y]
  {
    if s != [] {
      assert s == [s[0]] + s[1..];
      if s[0] == x && n > 0 {
        RemoveFirstKeepsOthers(s[1..], x, n - 1, y);
      } else {
        RemoveFirstKeepsOthers(s[1..], x, n, y);
      }
    }
  }

  /** The tail-first removal drops min(n, occurrences) copies of x ... */
  lemma {:induction false} RemoveLastLength<T>(s: seq<T>, x: T, n: nat)
    ensures |s| - |RemoveLast(s, x, n)| == Capped(s, x, n)
  {
    if s != [] {
      var init := s[..|s| - 1];
      assert s == init + [s[|s| - 1]];
      if s[|s| - 1] == x && n > 0 {
        RemoveLastLength(init, x, n - 1);
      } else {
        RemoveLastLength(init, x, n);
      }
    }
  }

  /** ... and no element other than x. */
  lemma {:induction false} RemoveLastKeepsOthers<T>(s: seq<T>, x: T, n: nat, y: T)
    requires y != x
    ensures multiset(RemoveLast(s, x, n))[y] == multiset(s)[y]
  {
    if s != [] {
      var init := s[..|s| - 1];
      assert s == init + [s[|s| - 1]];
      if s[|s| - 1] == x && n > 0 {
        RemoveLastKeepsOthers(init, x, n - 1, y);
      } else {
        RemoveLastKeepsOthers(init, x, n, y);
      }
    }
  }

  /** RemoveFirst(s, x, n) is s with every x of the prefix s[..k] removed,
      and that prefix holds min(n, occurrences) copies of x. */
  predicate HeadSplit<T(==)>(s: seq<T>, x: T, n: nat, k: int)
  {
    0 <= k <= |s| && multiset(s[..k])[x] == Capped(s, x, n) &&
    RemoveFirst(s, x, n) == RemoveAll(s[..k], x) + s[k..]
  }

  /** RemoveLast(s, x, n) is s with every x of the suffix s[k..] removed,
      and that suffix holds min(n, occurrences) copies of x. */
  predicate TailSplit<T(==)>(s: seq<T>, x: T, n: nat, k: int)
  {
    0 <= k <= |s| && multiset(s[k..])[x] == Capped(s, x, n) &&
    RemoveLast(s, x, n) == s[..k] + RemoveAll(s[k..], x)
  }

  /** Head-first removal, by position: some prefix s[..k] holding exactly
      min(n, occurrences) copies of x loses them all, and the rest of the
      list is kept as it is. So the removed copies are the first ones, and
      the survivors keep their order. */
  lemma {:induction false} RemoveFirstSplit<T>(s: seq<T>, x: T, n: nat)
    ensures exists k :: HeadSplit(s, x, n, k)
  {
    if s == [] || n == 0 {
      assert s[..0] == [] && s[0..] == s;
      RemoveFirstUnchanged(s, x);
      assert HeadSplit(s, x, n, 0);
    } else {
      var m := if s[0] == x then n - 1 else n;
      RemoveFirstSplit(s[1..], x, m);
      var k' :| HeadSplit(s[1..], x, m, k');
      HeadSplitStep(s, x, n, k');
    }
  }

  /** One element in front of a split list moves the split point by one. */
  lemma HeadSplitStep<T>(s: seq<T>, x: T, n: nat, k': int)
    requires s != [] && n > 0 && HeadSplit(s[1..], x, if s[0] == x then n - 1 else n, k')
    ensures HeadSplit(s, x, n, k' + 1)
  {
    var t := s[1..];
    var pre := s[..k' + 1];
    assert s == [s[0]] + t;
    assert pre == [s[0]] + t[..k'] && pre[1..] == t[..k'];
    assert s[k' + 1..] == t[k'..];
    assert multiset(pre) == multiset{s[0]} + multiset(t[..k']);
    if s[0] == x {
      HeadSplitDrop(s, x, n, k');
    } else {
      HeadSplitKeep(s, x, n, k');
    }
  }

  /** A leading x is one of the copies removed. */
  lemma HeadSplitDrop<T>(s: seq<T>, x: T, n: nat, k': int)
    requires s != [] && n > 0 && s[0] == x && HeadSplit(s[1..], x, n - 1, k')
    requires s[..k' + 1][1..] == s[1..][..k'] && s[k' + 1..] == s[1..][k'..]
    requires multiset(s[..k' + 1]) == multiset{s[0]} + multiset(s[1..][..k'])
    ensures HeadSplit(s, x, n, k' + 1)
  {
    assert s == [s[0]] + s[1..];
  }

  /** A leading element other than x stays in front. */
  lemma HeadSplitKeep<T>(s: seq<T>, x: T, n: nat, k': int)
    requires s != [] && n > 0 && s[0] != x && HeadSplit(s[1..], x, n, k')
    requires s[..k' + 1][1..] == s[1..][..k'] && s[k' + 1..] == s[1..][k'..]
    requires multiset(s[..k' + 1]) == multiset{s[0]} + multiset(s[1..][..k'])
    ensures HeadSplit(s, x, n, k' + 1)
  {
    assert s == [s[0]] + s[1..];
    assert RemoveFirst(s, x, n) == [s[0]] + RemoveFirst(s[1..], x, n);
  }

  /** A count of zero copies removes nothing. */
  lemma {:induction false} RemoveFirstUnchanged<T>(s: seq<T>, x: T)
    ensures RemoveFirst(s, x, 0) == s
  {
    if s != [] {
      RemoveFirstUnchanged(s[1..], x);
    }
  }

  /** Tail-first removal, by position: some suffix s[k..] holding exactly
      min(n, occurrences) copies of x loses them all, and the front of the
      list is kept as it is. So the removed copies are the last ones, and
      the survivors keep their order. */
  lemma {:induction false} RemoveLastSplit<T>(s: seq<T>, x: T, n: nat)
    ensures exists k :: TailSplit(s, x, n, k)
  {
    if s == [] || n == 0 {
      assert s[..|s|] == s && s[|s|..] == [];
      RemoveLastUnchanged(s, x);
      assert TailSplit(s, x, n, |s|);
    } else {
      var m := if s[|s| - 1] == x then n - 1 else n;
      RemoveLastSplit(s[..|s| - 1], x, m);
      var k :| TailSplit(s[..|s| - 1], x, m, k);
      TailSplitStep(s, x, n, k);
    }
  }

  /** One element behind a split list keeps the split point. */
  lemma TailSplitStep<T>(s: seq<T>, x: T, n: nat, k: int)
    requires s != [] && n > 0 && TailSplit(s[..|s| - 1], x, if s[|s| - 1] == x then n - 1 else n, k)
    ensures TailSplit(s, x, n, k)
  {
    var init := s[..|s| - 1];
    var last := s[|s| - 1];
    assert s == init + [last];
    assert s[..k] == init[..k];
    assert s[k..] == init[k..] + [last];
    RemoveAllAppend(init[k..], [last], x);
    if last == x {
      TailSplitDrop(s, x, n, k);
    } else {
      TailSplitKeep(s, x, n, k);
    }
  }

  /** A trailing x is one of the copies removed. */
  lemma TailSplitDrop<T>(s: seq<T>, x: T, n: nat, k: int)
    requires s != [] && n > 0 && s[|s| - 1] == x && TailSplit(s[..|s| - 1], x, n - 1, k)
    requires s == s[..|s| - 1] + [x] && s[..k] == s[..|s| - 1][..k] && s[k..] == s[..|s| - 1][k..] + [x]
    requires RemoveAll(s[k..], x) == RemoveAll(s[..|s| - 1][k..], x) + RemoveAll([x], x)
    ensures TailSplit(s, x, n, k)
  {
    assert RemoveAll([x], x) == [];
    assert multiset(s[k..]) == multiset(s[..|s| - 1][k..]) + multiset{x};
    assert multiset(s) == multiset(s[..|s| - 1]) + multiset{x};
  }

  /** A trailing element other than x stays at the back. */
  lemma TailSplitKeep<T>(s: seq<T>, x: T, n: nat, k: int)
    requires s != [] && n > 0 && s[|s| - 1] != x && TailSplit(s[..|s| - 1], x, n, k)
    requires s == s[..|s| - 1] + [s[|s| - 1]] && s[..k] == s[..|s| - 1][..k]
    requires s[k..] == s[..|s| - 1][k..] + [s[|s| - 1]]
    requires RemoveAll(s[k..], x) == RemoveAll(s[..|s| - 1][k..], x) + RemoveAll([s[|s| - 1]], x)
    ensures TailSplit(s, x, n, k)
  {
    var last := s[|s| - 1];
    assert RemoveLast(s, x, n) == RemoveLast(s[..|s| - 1], x, n) + [last];
    assert RemoveAll([last], x) == [last];
    assert multiset(s[k..]) == multiset(s[..|s| - 1][k..]) + multiset{last};
    assert multiset(s) == multiset(s[..|s| - 1]) + multiset{last};
  }

  /** A count of zero copies removes nothing. */
  lemma {:induction false} RemoveLastUnchanged<T>(s: seq<T>, x: T)
    ensures RemoveLast(s, x, 0) == s
  {
    if s != [] {
      RemoveLastUnchanged(s[..|s| - 1], x);
      assert s == s[..|s| - 1] + [s[|s| - 1]];
    }
  }

  /** The number of elements LREM removes, which is what the Redis command
      replies: every occurrence for count 0, at most |count| otherwise. */
  lemma LremRemovedCount<T>(s: seq<T>, count: int, x: T)
    ensures var limit := if count < 0 then -count else count;
            |s| - |LremList(s, count, x)| == if count == 0 then multiset(s)[x] else Capped(s, x, limit)
  {
    if count == 0 {
      RemoveAllMultiset(s, x);
      var r := RemoveAll(s, x);
      assert |multiset(r)| == |r| && |multiset(s)| == |s|;
      assert multiset(s) == multiset(r) + multiset{}[x := multiset(s)[x]];
    } else if count > 0 {
      RemoveFirstLength(s, x, count);
    } else {
      RemoveLastLength(s, x, -count);
    }
  }

  // ---------------------------------------------------------------------

  /** The wrapper around the store client: one field per key family. */
  class RedisClientService {
    var lobbies: map<string, LobbyRecord>
    var lists: map<string, seq<string>>
    var hosts: map<string, string>
    var names: map<string, string>

    /** The store never holds an empty list: a list whose last element is
        removed no longer exists as a key. */
    ghost predicate Valid()
      reads this
    {
      forall code :: code in lists ==> lists[code] != []
    }

    /** A store with no keys. */
    constructor ()
      ensures Valid()
      ensures lobbies == map[] && lists == map[] && hosts == map[] && names == map[]
    {
      lobbies, lists, hosts, names := map[], map[], map[], map[];
    }

    /** The list at game-{code}-players, or the empty list a missing key reads as. */
    function Members(code: string): seq<string>
      reads this
    {
      if code in lists then lists[code] else []
    }

    /** The value at {playerId}-display-name, None for a missing key (null). */
    function NameOf(playerId: string): Option<string>
      reads this
    {
      if playerId in names then Some(names[playerId]) else None
    }

    /** EXISTS game-{code}. */
    method GameExists(lobbyCode: string) returns (b: bool)
      ensures b <==> lobbyCode in lobbies
    {
      b := lobbyCode in lobbies;
    }

    /** SET {playerId}-display-name name, overwriting any earlier name. */
    method SetName(playerId: string, name: string)
      requires Valid()
      modifies this
      ensures Valid()
      ensures names == old(names)[playerId := name]
      ensures lobbies == old(lobbies) && lists == old(lists) && hosts == old(hosts)
    {
      names := names[playerId := name];
    }

    /** GET {playerId}-display-name. */
    method GetPlayerName(playerId: string) returns (name: Option<string>)
      ensures name.Some? <==> playerId in names
      ensures name.Some? ==> name.value == names[playerId]
    {
      name := if playerId in names then Some(names[playerId]) else None;
    }

    /** GET host-{hostId}. */
    method GetGameOfHost(hostId: string) returns (code: Option<string>)
      ensures code.Some? <==> hostId in hosts
      ensures code.Some? ==> code.value == hosts[hostId]
    {
      code := if hostId in hosts then Some(hosts[hostId]) else None;
    }

    /** One MULTI batch of three writes: the lobby record, an RPUSH of the
        host onto the member list, and the host back-reference. */
    method CreateNewGame(lobbyCode: string, hostId: string)
      requires Valid()
      modifies this
      ensures Valid()
      ensures lobbies == old(lobbies)[lobbyCode := LobbyRecord(hostId, lobbyCode, "0")]
      ensures lists == old(lists)[lobbyCode := old(Members(lobbyCode)) + [hostId]]
      ensures hosts == old(hosts)[hostId := lobbyCode]
      ensures names == old(names)
    {
      var players := Members(lobbyCode) + [hostId];
      lobbies, lists, hosts :=
        lobbies[lobbyCode := LobbyRecord(hostId, lobbyCode, "0")],
        lists[lobbyCode := players],
        hosts[hostId := lobbyCode];
    }

    /** RPUSH game-{code}-players playerId: appended at the end, duplicates kept. */
    method JoinGame(lobbyCode: string, playerId: string)
      requires Valid()
      modifies this
      ensures Valid()
      ensures lists == old(lists)[lobbyCode := old(Members(lobbyCode)) + [playerId]]
      ensures Members(lobbyCode)[..|Members(lobbyCode)| - 1] == old(Members(lobbyCode))
      ensures lobbies == old(lobbies) && hosts == old(hosts) && names == old(names)
    {
      lists := lists[lobbyCode := Members(lobbyCode) + [playerId]];
    }

    /** LRANGE game-{code}-players 0 -1, then one display-name read per
        element, pushed in list order. */
    method GetGamePlayers(lobbyCode: string) returns (players: seq<PlayerEntry>)
      ensures Ids(players) == Members(lobbyCode)
      ensures forall i :: 0 <= i < |players| ==> players[i].displayName == NameOf(players[i].playerId)
    {
      var ids := Members(lobbyCode);
      players := [];
      for i := 0 to |ids|
        invariant |players| == i
        invariant forall k :: 0 <= k < i ==> players[k] == PlayerEntry(ids[k], NameOf(ids[k]))
      {
        var name := GetPlayerName(ids[i]);
        players := players + [PlayerEntry(ids[i], name)];
      }
    }

    /** LREM game-{code}-players count value. The reply is true exactly when
        one element was removed; a list emptied by the removal is deleted. */
    method Lrem(lobbyCode: string, count: int, value: string) returns (removedOne: bool)
      requires Valid()
      modifies this
      ensures Valid()
      ensures var rest := LremList(old(Members(lobbyCode)), count, value);
              lists == if rest == [] then old(lists) - {lobbyCode} else old(lists)[lobbyCode := rest]
      ensures removedOne <==> |old(Members(lobbyCode))| - |Members(lobbyCode)| == 1
      ensures lobbies == old(lobbies) && hosts == old(hosts) && names == old(names)
    {
      var before := Members(lobbyCode);
      var rest := LremList(before, count, value);
      if rest == [] {
        lists := lists - {lobbyCode};
      } else {
        lists := lists[lobbyCode := rest];
      }
      removedOne := |before| - |rest| == 1;
    }

    /** LREM with count 0: every occurrence of the player leaves the list. */
    method KickPlayer(lobbyCode: string, playerId: string)
      requires Valid()
      modifies this
      ensures Valid()
      ensures Members(lobbyCode) == RemoveAll(old(Members(lobbyCode)), playerId)
      ensures forall code :: code != lobbyCode ==> Members(code) == old(Members(code))
      ensures lists.Keys <= old(lists.Keys)
      ensures lobbies == old(lobbies) && hosts == old(hosts) && names == old(names)
    {
      var _ := Lrem(lobbyCode, 0, playerId);
    }

    /** disconnectPlayer as written: getGameOfHost is not awaited, so the
        lobby code in the two game keys is the text of a pending Promise and
        only host-{playerId} is a key of this player's. */
    method DisconnectPlayer(playerId: string)
      requires Valid()
      modifies this
      ensures Valid()
      ensures lobbies == old(lobbies) - {PromiseText}
      ensures lists == old(lists) - {PromiseText}
      ensures hosts == old(hosts) - {playerId}
      ensures names == old(names)
    {
      var lobbyCode := PromiseText;
      lobbies, lists, hosts := lobbies - {lobbyCode}, lists - {lobbyCode}, hosts - {playerId};
    }

    /** disconnectPlayer as its comment intends: the host's lobby code is
        read first, and its record, its member list and the back-reference
        are deleted in one batch. A player who hosts nothing changes
        nothing. This goes beyond adding the missing await: with the await
        alone, a non-host's lookup gives null and the batch would delete
        game-null and game-null-players, the keys of a lobby named "null". */
    method DisconnectHost(playerId: string)
      requires Valid()
      modifies this
      ensures Valid()
      ensures playerId in old(hosts) ==>
                var code := old(hosts)[playerId];
                lobbies == old(lobbies) - {code} && lists == old(lists) - {code} &&
                hosts == old(hosts) - {playerId}
      ensures playerId !in old(hosts) ==>
                lobbies == old(lobbies) && lists == old(lists) && hosts == old(hosts)
      ensures names == old(names)
    {
      var hosted := GetGameOfHost(playerId);
      if hosted.Some? {
        var code := hosted.value;
        lobbies, lists, hosts := lobbies - {code}, lists - {code}, hosts - {playerId};
      }
    }
  }

  /** A host creates a lobby and disconnects: with disconnectPlayer as
      written the lobby record and the member list are still there. */
  method DisconnectLeavesHostedLobby() returns (store: RedisClientService)
    ensures "ABCD" in store.lobbies && store.lobbies["ABCD"].host == "H1"
    ensures store.Members("ABCD") == ["H1"]
    ensures "H1" !in store.hosts
  {
    store := new RedisClientService();
    store.CreateNewGame("ABCD", "H1");
    store.DisconnectPlayer("H1");
    assert "ABCD" != PromiseText;
  }

  /** The same steps with the corrected disconnect leave no trace of the lobby. */
  method DisconnectHostRemovesLobby() returns (store: RedisClientService)
    ensures "ABCD" !in store.lobbies && store.Members("ABCD") == []
    ensures "H1" !in store.hosts
  {
    store := new RedisClientService();
    store.CreateNewGame("ABCD", "H1");
    store.DisconnectHost("H1");
  }
}
