/**
 * The leave route (app/api/game/leave/route.ts): drops the game from the active
 * games, announces the departure, and removes the player from the waiting queue.
 */
module Leave {
  import opened Wrappers
  import opened Cache
  import opened SessionTypes
  import opened Collections

  /** The success body `{ success: true }`. */
  datatype Ack = Ack

  /** The event handed to the broadcaster (`broadcastGameEvent.playerLeft`). */
  datatype Notice = PlayerLeft(gameId: string, playerId: string)

  /** `waitingPlayers.filter(player => player.player_id !== player_id)`. */
  function WithoutPlayer(queue: seq<WaitingPlayer>, playerId: string): (r: seq<WaitingPlayer>)
    ensures |r| <= |queue|
  {
    if queue == [] then []
    else (if queue[0].playerId != playerId then [queue[0]] else []) + WithoutPlayer(queue[1..], playerId)
  }

  /** No entry of the result belongs to the player, and every other entry is kept as often as it occurs. */
  lemma {:induction false} WithoutPlayerKeeps(queue: seq<WaitingPlayer>, playerId: string)
    ensures forall w :: w in WithoutPlayer(queue, playerId) ==> w.playerId != playerId
    ensures forall w: WaitingPlayer :: w.playerId != playerId ==>
      multiset(WithoutPlayer(queue, playerId))[w] == multiset(queue)[w]
  {
    if queue != [] {
      WithoutPlayerKeeps(queue[1..], playerId);
      assert queue == [queue[0]] + queue[1..];
    }
  }

  /** The filter keeps the relative order: it works piece by piece along the queue. */
  lemma {:induction false} WithoutPlayerSplits(a: seq<WaitingPlayer>, b: seq<WaitingPlayer>, playerId: string)
    ensures WithoutPlayer(a + b, playerId) == WithoutPlayer(a, playerId) + WithoutPlayer(b, playerId)
  {
    if a == [] {
      assert a + b == b;
    } else {
      var head := if a[0].playerId != playerId then [a[0]] else [];
      assert (a + b)[0] == a[0] && (a + b)[1..] == a[1..] + b;
      calc {
        WithoutPlayer(a + b, playerId);
        head + WithoutPlayer(a[1..] + b, playerId);
        { WithoutPlayerSplits(a[1..], b, playerId); }
        head + (WithoutPlayer(a[1..], playerId) + WithoutPlayer(b, playerId));
        { AppendAssoc(head, WithoutPlayer(a[1..], playerId), WithoutPlayer(b, playerId)); }
        (head + WithoutPlayer(a[1..], playerId)) + WithoutPlayer(b, playerId);
        WithoutPlayer(a, playerId) + WithoutPlayer(b, playerId);
      }
    }
  }

  /** The queue gets shorter exactly when the player had an entry in it. */
  lemma {:induction false} WithoutPlayerShrinks(queue: seq<WaitingPlayer>, playerId: string)
    ensures |WithoutPlayer(queue, playerId)| != |queue| <==> exists i :: 0 <= i < |queue| && queue[i].playerId == playerId
    ensures |WithoutPlayer(queue, playerId)| == |queue| ==> WithoutPlayer(queue, playerId) == queue
  {
    if queue != [] {
      WithoutPlayerShrinks(queue[1..], playerId);
      if queue[0].playerId != playerId {
        assert queue == [queue[0]] + queue[1..];
        if exists i :: 0 <= i < |queue[1..]| && queue[1..][i].playerId == playerId {
          var i :| 0 <= i < |queue[1..]| && queue[1..][i].playerId == playerId;
          assert queue[i + 1].playerId == playerId;
        }
        if exists i :: 0 <= i < |queue| && queue[i].playerId == playerId {
          var i :| 0 <= i < |queue| && queue[i].playerId == playerId;
          assert queue[1..][i - 1].playerId == playerId;
        }
      }
    }
  }

  /**
   * The entries after a leave by `pid` from `gid` at time `now`: both keys are
   * read, an active game is deleted and the map stored again, and the queue is
   * stored again only when the player was in it.
   */
  function LeaveEntries(m0: SessionEntries, gid: string, pid: string, now: int): SessionEntries {
    var games := GamesOf(Read(m0, ActiveKey, now));
    var m1 := AfterRead(m0, ActiveKey, now);
    var waiting := WaitingOf(Read(m1, WaitingKey, now));
    var m2 := AfterRead(m1, WaitingKey, now);
    var filtered := WithoutPlayer(waiting, pid);
    var m3 := if gid in games then m2[ActiveKey := CacheItem(ActiveGames(games - {gid}), ExpiryOf(now, ActiveTtlSeconds))] else m2;
    if |filtered| != |waiting| then m3[WaitingKey := CacheItem(WaitingList(filtered), ExpiryOf(now, WaitingTtlSeconds))] else m3
  }

  /**
   * `POST /api/game/leave`. Both fields must be present. The reply is success
   * whether or not the game was active; `notices` lists what is broadcast.
   */
  method Leave(store: MemoryCache<SessionValue>, gameId: Option<string>, playerId: Option<string>, now: int)
    returns (reply: Reply<Ack>, notices: seq<Notice>)
    requires SessionShaped(store.entries)
    modifies store
    ensures SessionShaped(store.entries)
    ensures !Present(gameId) || !Present(playerId) ==>
      reply == BadRequest && notices == [] && store.entries == old(store.entries)
    ensures Present(gameId) && Present(playerId) ==>
      var gid, pid := gameId.value, playerId.value;
      && reply == Ok(Ack)
      && notices == (if gid in GamesOf(Read(old(store.entries), ActiveKey, now)) then [PlayerLeft(gid, pid)] else [])
      && store.entries == LeaveEntries(old(store.entries), gid, pid, now)
  {
    notices := [];
    if !Present(gameId) || !Present(playerId) {
      return BadRequest, notices;
    }
    var gid, pid := gameId.value, playerId.value;
    var storedGames := store.Get(ActiveKey, now);
    var storedWaiting := store.Get(WaitingKey, now);
    var activeGames := GamesOf(storedGames);
    var waitingPlayers := WaitingOf(storedWaiting);

    if gid in activeGames {
      notices := notices + [PlayerLeft(gid, pid)];
      activeGames := activeGames - {gid};
      store.Set(ActiveKey, ActiveGames(activeGames), now, ActiveTtlSeconds);
    }

    var filteredWaitingPlayers := WithoutPlayer(waitingPlayers, pid);
    if |filteredWaitingPlayers| != |waitingPlayers| {
      store.Set(WaitingKey, WaitingList(filteredWaitingPlayers), now, WaitingTtlSeconds);
    }
    reply := Ok(Ack);
  }

  /**
   * Read back at the same moment, the store a leave leaves holds the live games
   * without `gid` (all others unchanged) and the queue without any entry of `pid`.
   */
  lemma LeaveForgetsPlayer(m0: SessionEntries, gid: string, pid: string, now: int)
    ensures var m := LeaveEntries(m0, gid, pid, now);
      GamesOf(Read(m, ActiveKey, now)) == GamesOf(Read(m0, ActiveKey, now)) - {gid}
    ensures var m := LeaveEntries(m0, gid, pid, now);
      WaitingOf(Read(m, WaitingKey, now)) == WithoutPlayer(WaitingOf(Read(m0, WaitingKey, now)), pid)
    ensures forall w :: w in WaitingOf(Read(LeaveEntries(m0, gid, pid, now), WaitingKey, now)) ==> w.playerId != pid
  {
    LeaveDropsGame(m0, gid, pid, now);
    LeaveDequeues(m0, gid, pid, now);
    WithoutPlayerKeeps(WaitingOf(Read(m0, WaitingKey, now)), pid);
  }

  lemma LeaveDropsGame(m0: SessionEntries, gid: string, pid: string, now: int)
    ensures GamesOf(Read(LeaveEntries(m0, gid, pid, now), ActiveKey, now)) == GamesOf(Read(m0, ActiveKey, now)) - {gid}
  {
    var games := GamesOf(Read(m0, ActiveKey, now));
    var m1 := AfterRead(m0, ActiveKey, now);
    var waiting := WaitingOf(Read(m1, WaitingKey, now));
    var m2 := AfterRead(m1, WaitingKey, now);
    var filtered := WithoutPlayer(waiting, pid);
    var item := CacheItem(ActiveGames(games - {gid}), ExpiryOf(now, ActiveTtlSeconds));
    var m3 := if gid in games then m2[ActiveKey := item] else m2;
    ReadAfterRead(m0, ActiveKey, ActiveKey, now);
    ReadAfterRead(m1, WaitingKey, ActiveKey, now);
    if gid in games {
      assert Read(m3, ActiveKey, now) == Some(ActiveGames(games - {gid}));
    } else {
      assert games - {gid} == games;
    }
    if |filtered| != |waiting| {
      ReadOtherKey(m3, WaitingKey, CacheItem(WaitingList(filtered), ExpiryOf(now, WaitingTtlSeconds)), ActiveKey, now);
    }
  }

  lemma LeaveDequeues(m0: SessionEntries, gid: string, pid: string, now: int)
    ensures WaitingOf(Read(LeaveEntries(m0, gid, pid, now), WaitingKey, now)) == WithoutPlayer(WaitingOf(Read(m0, WaitingKey, now)), pid)
  {
    var games := GamesOf(Read(m0, ActiveKey, now));
    var m1 := AfterRead(m0, ActiveKey, now);
    var waiting := WaitingOf(Read(m1, WaitingKey, now));
    var m2 := AfterRead(m1, WaitingKey, now);
    var filtered := WithoutPlayer(waiting, pid);
    var item := CacheItem(ActiveGames(games - {gid}), ExpiryOf(now, ActiveTtlSeconds));
    var m3 := if gid in games then m2[ActiveKey := item] else m2;
    ReadAfterRead(m0, ActiveKey, WaitingKey, now);
    ReadAfterRead(m1, WaitingKey, WaitingKey, now);
    if gid in games {
      ReadOtherKey(m2, ActiveKey, item, WaitingKey, now);
    }
    if |filtered| != |waiting| {
      assert Read(LeaveEntries(m0, gid, pid, now), WaitingKey, now) == Some(WaitingList(filtered));
    } else {
      WithoutPlayerShrinks(waiting, pid);
    }
  }
}
