/** The `/grave` store: the last death position of every player. */
module Grave {
  import opened Common
  import opened Back

  /** The entity a death event reports: a player standing at `pos`, or any
      other living entity. */
  datatype Entity = PlayerEntity(id: PlayerId, pos: Position) | OtherEntity

  datatype GraveOutcome =
    | NoGrave
    | GraveInvalidDimension
    | AtGrave(destination: Position)

  /** What `/grave` reports, the graves it leaves and the `/back` store after it. */
  datatype GraveResult = GraveResult(outcome: GraveOutcome, graves: map<PlayerId, Position>, backs: map<PlayerId, Position>)

  /** `onPlayerDeath`: only a player's death is recorded. */
  function OnDeath(graves: map<PlayerId, Position>, entity: Entity): (r: map<PlayerId, Position>)
    ensures entity.OtherEntity? ==> r == graves
    ensures entity.PlayerEntity? ==> entity.id in r && r[entity.id] == entity.pos
    ensures entity.PlayerEntity? ==> r.Keys == graves.Keys + {entity.id}
    ensures entity.PlayerEntity? ==> forall p :: p in graves && p != entity.id ==> r[p] == graves[p]
  {
    match entity
    case PlayerEntity(id, pos) => graves[id := pos]
    case OtherEntity => graves
  }

  /** `teleportToGrave` for a player standing at `current`. */
  function GraveStep(graves: map<PlayerId, Position>, backs: map<PlayerId, Position>,
                     player: PlayerId, current: Position, loaded: set<Dimension>): (r: GraveResult)
  {
    if player !in graves then GraveResult(NoGrave, graves, backs)
    else if graves[player].dimension !in loaded then GraveResult(GraveInvalidDimension, graves - {player}, backs)
    else GraveResult(AtGrave(graves[player]), graves, Record(backs, player, current))
  }

  /** Without a grave the command fails and nothing changes. */
  lemma GraveWithoutEntry(graves: map<PlayerId, Position>, backs: map<PlayerId, Position>,
                          player: PlayerId, current: Position, loaded: set<Dimension>)
    requires player !in graves
    ensures GraveStep(graves, backs, player, current, loaded) == GraveResult(NoGrave, graves, backs)
  {
  }

  /** A grave in an unloadable dimension is evicted and the command fails;
      other graves and the `/back` store are untouched. */
  lemma GraveInvalidDimensionEvicts(graves: map<PlayerId, Position>, backs: map<PlayerId, Position>,
                                    player: PlayerId, current: Position, loaded: set<Dimension>)
    requires player in graves && graves[player].dimension !in loaded
    ensures var r := GraveStep(graves, backs, player, current, loaded);
            r.outcome == GraveInvalidDimension && r.backs == backs
            && r.graves.Keys == graves.Keys - {player}
            && forall p :: p in r.graves ==> r.graves[p] == graves[p]
  {
  }

  /** Success keeps the grave, so the command can be repeated from anywhere
      and lands on the same spot. */
  lemma GraveRepeatable(graves: map<PlayerId, Position>, backs: map<PlayerId, Position>,
                        player: PlayerId, current: Position, later: Position, loaded: set<Dimension>)
    requires player in graves && graves[player].dimension in loaded
    ensures var first := GraveStep(graves, backs, player, current, loaded);
            var second := GraveStep(first.graves, first.backs, player, later, loaded);
            first.graves == graves && second.outcome == first.outcome == AtGrave(graves[player])
  {
  }

  /** Success records the spot the player left, so `/back` right after `/grave`
      returns there. */
  lemma GraveThenBack(graves: map<PlayerId, Position>, backs: map<PlayerId, Position>,
                      player: PlayerId, current: Position, loaded: set<Dimension>)
    requires player in graves && graves[player].dimension in loaded
    requires current.dimension in loaded
    ensures var g := GraveStep(graves, backs, player, current, loaded);
            g.outcome.AtGrave? &&
            BackStep(g.backs, player, g.outcome.destination, loaded).outcome == Returned(current)
  {
  }

  /** A player's death followed by `/grave` lands exactly where the player died. */
  lemma DeathThenGrave(graves: map<PlayerId, Position>, backs: map<PlayerId, Position>,
                       player: PlayerId, died: Position, current: Position, loaded: set<Dimension>)
    requires died.dimension in loaded
    ensures GraveStep(OnDeath(graves, PlayerEntity(player, died)), backs, player, current, loaded).outcome
            == AtGrave(died)
  {
  }

  class GraveStore {
    var gravePositions: map<PlayerId, Position>

    constructor ()
      ensures gravePositions == map[]
    {
      gravePositions := map[];
    }

    /** `onPlayerDeath`; saving the graves to disk is not modelled. */
    method OnPlayerDeath(entity: Entity)
      modifies this
      ensures gravePositions == OnDeath(old(gravePositions), entity)
    {
      if entity.PlayerEntity? {
        gravePositions := gravePositions[entity.id := entity.pos];
      }
    }

    /** `teleportToGrave`; `back` is the `/back` store the success path writes. */
    method TeleportToGrave(player: PlayerId, current: Position, loaded: set<Dimension>, back: BackStore)
      returns (outcome: GraveOutcome)
      modifies this, back
      ensures GraveStep(old(gravePositions), old(back.previousPositions), player, current, loaded)
              == GraveResult(outcome, gravePositions, back.previousPositions)
    {
      if player !in gravePositions {
        return NoGrave;
      }
      var pos := gravePositions[player];
      if pos.dimension !in loaded {
        gravePositions := gravePositions - {player};
        return GraveInvalidDimension;
      }
      back.RecordPosition(player, current);
      outcome := AtGrave(pos);
    }
  }
}
