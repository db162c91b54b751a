/**
 * The matchmaking route (app/api/game/find-match/route.ts). A caller is paired
 * with the head of the waiting queue if there is one, and otherwise is queued
 * with a freshly allocated game id that a later caller will reuse.
 */
module FindMatch {
  import opened Wrappers
  import opened Cache
  import opened SessionTypes

  /** The success bodies: a tentative pairing, or "queued, waiting". */
  datatype MatchBody =
    | Tentative(gameId: string, playerId: string, opponentId: string, opponentName: string)
    | Waiting(gameId: string, playerId: string)

  const DefaultPlayerName: string := "Player"

  /** `player_name = 'Player'`: the destructuring default applies only when the field is absent. */
  function NameOrDefault(playerName: Option<string>): string {
    match playerName
    case None => DefaultPlayerName
    case Some(name) => name
  }

  /**
   * The pairing step on the already cleaned queue: shift the head as the
   * opponent, or push the caller. Gives the reply body and the queue to store.
   * Nothing compares the opponent with the caller.
   */
  function Pair(cleaned: seq<WaitingPlayer>, playerId: string, playerName: string, now: int, freshGameId: string)
    : (MatchBody, seq<WaitingPlayer>)
  {
    if |cleaned| > 0 then
      var opponent := cleaned[0];
      (Tentative(opponent.gameId, playerId, opponent.playerId, opponent.playerName), cleaned[1..])
    else
      (Waiting(freshGameId, playerId), cleaned + [WaitingPlayer(playerId, playerName, freshGameId, now)])
  }

  /**
   * `POST /api/game/find-match`. `cleanup` stands for `cleanupOldWaitingPlayers`,
   * whose definition is not part of this model; `freshGameId` stands for `uuidv4()`.
   */
  method FindMatch(store: MemoryCache<SessionValue>, playerId: Option<string>, playerName: Option<string>,
                   now: int, freshGameId: string, cleanup: (seq<WaitingPlayer>, int) -> seq<WaitingPlayer>)
    returns (reply: Reply<MatchBody>)
    requires SessionShaped(store.entries)
    modifies store
    ensures SessionShaped(store.entries)
    ensures !Present(playerId) ==> reply == BadRequest && store.entries == old(store.entries)
    ensures Present(playerId) ==>
      var cleaned := cleanup(WaitingOf(Read(old(store.entries), WaitingKey, now)), now);
      var step := Pair(cleaned, playerId.value, NameOrDefault(playerName), now, freshGameId);
      && reply == Ok(step.0)
      && store.entries == old(store.entries)[WaitingKey := CacheItem(WaitingList(step.1), ExpiryOf(now, WaitingTtlSeconds))]
    ensures Present(playerId) ==>
      var cleaned := cleanup(WaitingOf(Read(old(store.entries), WaitingKey, now)), now);
      && (|cleaned| > 0 ==> reply.body.Tentative? && reply.body.gameId == cleaned[0].gameId
                            && reply.body.opponentId == cleaned[0].playerId)
      && (|cleaned| == 0 ==> reply.body == Waiting(freshGameId, playerId.value))
  {
    if !Present(playerId) {
      return BadRequest;
    }
    var id := playerId.value;
    var name := NameOrDefault(playerName);
    var stored := store.Get(WaitingKey, now);
    var cleanedPlayers := cleanup(WaitingOf(stored), now);
    store.Set(WaitingKey, WaitingList(cleanedPlayers), now, WaitingTtlSeconds);

    if |cleanedPlayers| > 0 {
      var opponent := cleanedPlayers[0];
      cleanedPlayers := cleanedPlayers[1..];
      store.Set(WaitingKey, WaitingList(cleanedPlayers), now, WaitingTtlSeconds);
      return Ok(Tentative(opponent.gameId, id, opponent.playerId, opponent.playerName));
    }

    var newWaitingPlayer := WaitingPlayer(id, name, freshGameId, now);
    cleanedPlayers := cleanedPlayers + [newWaitingPlayer];
    store.Set(WaitingKey, WaitingList(cleanedPlayers), now, WaitingTtlSeconds);
    reply := Ok(Waiting(freshGameId, id));
  }

  // ------------------------------------------------------- queue behaviour

  /** One caller of the route: id, name, the time of the call and the id `uuidv4()` gives. */
  datatype Caller = Caller(playerId: string, playerName: string, at: int, freshGameId: string)

  /** Successive calls on a queue in which no entry goes stale: the replies and the final queue. */
  function Run(queue: seq<WaitingPlayer>, callers: seq<Caller>): (seq<MatchBody>, seq<WaitingPlayer>)
    decreases |callers|
  {
    if callers == [] then ([], queue)
    else
      var c := callers[0];
      var step := Pair(queue, c.playerId, c.playerName, c.at, c.freshGameId);
      var rest := Run(step.1, callers[1..]);
      ([step.0] + rest.0, rest.1)
  }

  /**
   * Strict FIFO: while the queue lasts, the k-th caller is paired with the k-th
   * queued player, in the game that player was given, and the remaining queue
   * is the untouched tail.
   */
  lemma {:induction false} PairingIsFifo(queue: seq<WaitingPlayer>, callers: seq<Caller>)
    requires |callers| <= |queue|
    ensures |Run(queue, callers).0| == |callers|
    ensures Run(queue, callers).1 == queue[|callers|..]
    ensures forall k :: 0 <= k < |callers| ==>
      Run(queue, callers).0[k] == Tentative(queue[k].gameId, callers[k].playerId, queue[k].playerId, queue[k].playerName)
    decreases |callers|
  {
    if callers != [] {
      PairingIsFifo(queue[1..], callers[1..]);
      assert queue[1..][|callers| - 1..] == queue[|callers|..];
      var r := Run(queue, callers).0;
      forall k | 0 < k < |callers|
        ensures r[k] == Tentative(queue[k].gameId, callers[k].playerId, queue[k].playerId, queue[k].playerName)
      {
        assert r[k] == Run(queue[1..], callers[1..]).0[k - 1];
      }
    }
  }

  /**
   * The queue never holds more than one player: a call either empties a
   * one-entry queue or fills an empty one. Holds as long as the stale-entry
   * sweep only removes entries.
   */
  lemma AtMostOneWaiting(cleaned: seq<WaitingPlayer>, playerId: string, playerName: string, now: int, freshGameId: string)
    requires |cleaned| <= 1
    ensures |Pair(cleaned, playerId, playerName, now, freshGameId).1| <= 1
    ensures |cleaned| == 1 <==> Pair(cleaned, playerId, playerName, now, freshGameId).1 == []
  {
  }

  /**
   * A queued player's game id is handed to the next caller: the first caller
   * waits in game `g`, and the second is told to join `g` against the first.
   */
  lemma {:induction false} QueuedGameIsReused(first: Caller, second: Caller)
    ensures Run([], [first, second]).0 == [
      Waiting(first.freshGameId, first.playerId),
      Tentative(first.freshGameId, second.playerId, first.playerId, first.playerName)]
    ensures Run([], [first, second]).1 == []
  {
    var q := [WaitingPlayer(first.playerId, first.playerName, first.freshGameId, first.at)];
    assert [] + q == q;
    assert Pair([], first.playerId, first.playerName, first.at, first.freshGameId)
      == (Waiting(first.freshGameId, first.playerId), q);
    assert Run([], []) == ([], []);
    assert Run(q, [second]) == ([Tentative(first.freshGameId, second.playerId, first.playerId, first.playerName)], []) by {
      assert [second][1..] == [] && q[1..] == [];
      var t := Tentative(first.freshGameId, second.playerId, first.playerId, first.playerName);
      assert Pair(q, second.playerId, second.playerName, second.at, second.freshGameId) == (t, []);
      assert [t] + [] == [t];
    }
    assert [first, second][1..] == [second];
  }

  /**
   * Nothing stops a player from being paired with their own earlier entry: the
   * same player calling twice gets a tentative match against itself.
   */
  lemma SelfPairing(playerId: string, playerName: string, t0: int, t1: int, g0: string, g1: string)
    ensures var replies := Run([], [Caller(playerId, playerName, t0, g0), Caller(playerId, playerName, t1, g1)]).0;
      |replies| == 2 && replies[1] == Tentative(g0, playerId, playerId, playerName)
  {
    QueuedGameIsReused(Caller(playerId, playerName, t0, g0), Caller(playerId, playerName, t1, g1));
  }
}
