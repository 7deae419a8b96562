/** The `/back` store: one remembered position per player, written before
    every plugin teleport and swapped with the current position by `/back`. */
module Back {
  import opened Common

  datatype BackOutcome =
    | NoPosition
    | InvalidDimension
    | Returned(destination: Position)

  /** What `/back` reports and the store it leaves behind. */
  datatype BackResult = BackResult(outcome: BackOutcome, store: map<PlayerId, Position>)

  /** `recordPosition`: the player's entry becomes the current position. */
  function Record(store: map<PlayerId, Position>, player: PlayerId, current: Position): (r: map<PlayerId, Position>)
    ensures player in r && r[player] == current
    ensures r.Keys == store.Keys + {player}
    ensures forall p :: p in store && p != player ==> r[p] == store[p]
  {
    store[player := current]
  }

  /** `teleportBack` for a player standing at `current`, where `loaded` is the
      set of dimensions the server can resolve. */
  function BackStep(store: map<PlayerId, Position>, player: PlayerId, current: Position, loaded: set<Dimension>): (r: BackResult)
  {
    if player !in store then BackResult(NoPosition, store)
    else if store[player].dimension !in loaded then BackResult(InvalidDimension, store - {player})
    else BackResult(Returned(store[player]), Record(store, player, current))
  }

  /** `/back` without a stored position fails and changes nothing. */
  lemma BackWithoutPosition(store: map<PlayerId, Position>, player: PlayerId, current: Position, loaded: set<Dimension>)
    requires player !in store
    ensures BackStep(store, player, current, loaded) == BackResult(NoPosition, store)
  {
  }

  /** A stored position in a dimension the server cannot resolve is evicted,
      the command fails, and every other player's entry is kept. */
  lemma BackInvalidDimensionEvicts(store: map<PlayerId, Position>, player: PlayerId, current: Position, loaded: set<Dimension>)
    requires player in store && store[player].dimension !in loaded
    ensures BackStep(store, player, current, loaded).outcome == InvalidDimension
    ensures BackStep(store, player, current, loaded).store.Keys == store.Keys - {player}
    ensures forall p :: p in store && p != player ==> BackStep(store, player, current, loaded).store[p] == store[p]
  {
  }

  /** `/back` succeeds exactly when a position is stored in a loaded dimension,
      and then moves the player to it. */
  lemma BackSucceedsIff(store: map<PlayerId, Position>, player: PlayerId, current: Position, loaded: set<Dimension>)
    ensures BackStep(store, player, current, loaded).outcome.Returned?
            <==> player in store && store[player].dimension in loaded
    ensures BackStep(store, player, current, loaded).outcome.Returned?
            ==> BackStep(store, player, current, loaded).outcome.destination == store[player]
  {
  }

  /** `/back` swaps: a second `/back` from where the first one landed returns
      to the starting place and restores the store it started with. */
  lemma BackTwiceReturns(store: map<PlayerId, Position>, player: PlayerId, start: Position, loaded: set<Dimension>)
    requires player in store && store[player].dimension in loaded
    requires start.dimension in loaded
    ensures var first := BackStep(store, player, start, loaded);
            var second := BackStep(first.store, player, first.outcome.destination, loaded);
            second.outcome == Returned(start) && second.store == store
  {
    var first := BackStep(store, player, start, loaded);
    assert first.store == store[player := start];
    var second := BackStep(first.store, player, first.outcome.destination, loaded);
    assert second.store == store[player := start][player := store[player]];
  }

  class BackStore {
    var previousPositions: map<PlayerId, Position>

    constructor ()
      ensures previousPositions == map[]
    {
      previousPositions := map[];
    }

    /** `recordPosition(player)` with the player standing at `current`. */
    method RecordPosition(player: PlayerId, current: Position)
      modifies this
      ensures previousPositions == Record(old(previousPositions), player, current)
    {
      previousPositions := previousPositions[player := current];
    }

    /** `teleportBack(player)`; the teleport itself is the returned destination. */
    method TeleportBack(player: PlayerId, current: Position, loaded: set<Dimension>) returns (outcome: BackOutcome)
      modifies this
      ensures BackStep(old(previousPositions), player, current, loaded) == BackResult(outcome, previousPositions)
    {
      if player !in previousPositions {
        return NoPosition;
      }
      var pos := previousPositions[player];
      if pos.dimension !in loaded {
        previousPositions := previousPositions - {player};
        return InvalidDimension;
      }
      RecordPosition(player, current);
      outcome := Returned(pos);
    }
  }
}
