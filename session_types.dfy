/**
 * What the game routes keep in the shared cache: the queue of waiting players
 * under "waiting_players" and the map of active games under "active_games", and
 * the request and reply shapes the routes share.
 */
module SessionTypes {
  import opened Wrappers
  import opened Cache

  /** A queued player; `gameId` is allocated when the player is queued. */
  datatype WaitingPlayer = WaitingPlayer(playerId: string, playerName: string, gameId: string, joinedAt: int)

  /**
   * A game as stored under "active_games". Its full shape is defined in a file
   * that is not part of this model; the routes here only test its presence.
   */
  datatype Game = Game(id: string, status: string)

  /** The two kinds of value the routes store. */
  datatype SessionValue = WaitingList(players: seq<WaitingPlayer>) | ActiveGames(games: map<string, Game>)

  const WaitingKey: string := "waiting_players"
  const ActiveKey: string := "active_games"
  const WaitingTtlSeconds: int := 30
  const ActiveTtlSeconds: int := 300

  type SessionEntries = map<string, CacheItem<SessionValue>>

  /** Every writer of the two keys stores a queue under one and a game map under the other. */
  predicate SessionShaped(m: SessionEntries) {
    && (WaitingKey in m ==> m[WaitingKey].value.WaitingList?)
    && (ActiveKey in m ==> m[ActiveKey].value.ActiveGames?)
  }

  /** `cache.get('waiting_players') || []`. */
  function WaitingOf(v: Option<SessionValue>): seq<WaitingPlayer> {
    match v
    case Some(WaitingList(players)) => players
    case _ => []
  }

  /** `cache.get('active_games') || {}`. */
  function GamesOf(v: Option<SessionValue>): map<string, Game> {
    match v
    case Some(ActiveGames(games)) => games
    case _ => map[]
  }

  /** A request field is missing when it is absent or the empty string (JavaScript falsiness). */
  predicate Present(field: Option<string>) {
    field.Some? && field.value != ""
  }

  /** The HTTP outcome of a route: 400, 404, 500 or success with a body. */
  datatype Reply<+T> = BadRequest | NotFound | ServerError | Ok(body: T)
}
