/** The game lookup route (app/api/game/state/route.ts). */
module GameState {
  import opened Wrappers
  import opened Cache
  import opened SessionTypes

  /**
   * `GET /api/game/state?game_id=...`: 400 without an id, 404 when the id is not
   * an active game, the stored game otherwise. The route writes nothing; only the
   * read of "active_games" may drop that entry if it has expired.
   */
  method GetGameState(store: MemoryCache<SessionValue>, gameId: Option<string>, now: int) returns (reply: Reply<Game>)
    modifies store
    ensures !Present(gameId) ==> reply == BadRequest && store.entries == old(store.entries)
    ensures Present(gameId) ==> store.entries == AfterRead(old(store.entries), ActiveKey, now)
    ensures Present(gameId) ==>
      var games := GamesOf(Read(old(store.entries), ActiveKey, now));
      && (gameId.value !in games ==> reply == NotFound)
      && (gameId.value in games ==> reply == Ok(games[gameId.value]))
  {
    if !Present(gameId) {
      return BadRequest;
    }
    var stored := store.Get(ActiveKey, now);
    var activeGames := GamesOf(stored);
    if gameId.value !in activeGames {
      return NotFound;
    }
    reply := Ok(activeGames[gameId.value]);
  }
}
