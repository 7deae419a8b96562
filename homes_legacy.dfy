/** The older home registry. Homes and share lists work as in the newer one,
    but the public index is a single map keyed by home name, so one public
    home name is taken server-wide and every lookup by name sees whichever
    owner holds it. */
module LegacyHomes {
  import opened Common
  import opened Back
  import opened Homes

  /** An entry of the older public index: the owner and the owner's name. */
  datatype LegacyPublicInfo = LegacyPublicInfo(ownerUuid: PlayerId, ownerName: string)

  /** `playerHomes` and the name-keyed `publicHomes`. */
  datatype LegacyState = LegacyState(
    homes: map<PlayerId, map<string, Home>>,
    publicHomes: map<string, LegacyPublicInfo>)

  /** The homes of the older registry seen through the newer registry's
      operations, which treat them identically. */
  function HomesOnly(st: LegacyState): (h: HomeState)
    ensures h.homes == st.homes && h.publicHomes == map[]
  {
    HomeState(st.homes, map[])
  }

  /** Whether `owner` holds the public entry for `name`. */
  predicate PublicFor(st: LegacyState, owner: PlayerId, name: string)
  {
    name in st.publicHomes && st.publicHomes[name].ownerUuid == owner
  }

  /** The older registry's invariant: every public entry names a home its
      owner has, and no share list holds a player twice. */
  ghost predicate LegacyConsistent(st: LegacyState)
  {
    (forall n | n in st.publicHomes :: HasHome(HomesOnly(st), st.publicHomes[n].ownerUuid, n))
    && (forall o | o in st.homes :: SharesValid(st.homes[o]))
  }

  /** `setHome`: only the homes are involved, exactly as in the newer registry. */
  function LegacySetHomeStep(st: LegacyState, owner: PlayerId, name: string, position: Position, maxHomes: int): (r: (HomeOutcome, LegacyState))
    ensures r.1.publicHomes == st.publicHomes
  {
    var h := SetHomeStep(HomesOnly(st), owner, name, position, maxHomes);
    (h.outcome, st.(homes := h.state.homes))
  }

  /** `shareHome`, on the homes only. */
  function LegacyShareHomeStep(st: LegacyState, owner: PlayerId, name: string, target: PlayerId): (r: (HomeOutcome, LegacyState))
    ensures r.1.publicHomes == st.publicHomes
  {
    var h := ShareHomeStep(HomesOnly(st), owner, name, target);
    (h.outcome, st.(homes := h.state.homes))
  }

  /** `unshareHome`, on the homes only. */
  function LegacyUnshareHomeStep(st: LegacyState, owner: PlayerId, name: string, who: Option<string>,
                                 profiles: map<string, PlayerId>): (r: (HomeOutcome, LegacyState))
    ensures r.1.publicHomes == st.publicHomes
  {
    var h := UnshareHomeStep(HomesOnly(st), owner, name, who, profiles);
    (h.outcome, st.(homes := h.state.homes))
  }

  /** `removeHome`: the home goes, and so does the public entry of that name,
      whoever holds it. */
  function LegacyRemoveHomeStep(st: LegacyState, owner: PlayerId, name: string): (r: (HomeOutcome, LegacyState))
  {
    if !HasHome(HomesOnly(st), owner, name) then (HomeNotFound, st)
    else (Done, LegacyState(StoreInner(st.homes, owner, st.homes[owner] - {name}), st.publicHomes - {name}))
  }

  /** `renameHome`: the home moves to the new name, and the public entry of
      the old name, whoever holds it, moves to the new name with its owner. */
  function LegacyRenameHomeStep(st: LegacyState, owner: PlayerId, oldName: string, newName: string): (r: (HomeOutcome, LegacyState))
  {
    if !HasHome(HomesOnly(st), owner, oldName) then (HomeNotFound, st)
    else if newName in st.homes[owner] then (NameExists, st)
    else
      var homes := st.homes[owner];
      var publicHomes := if oldName in st.publicHomes
                         then (st.publicHomes - {oldName})[newName := st.publicHomes[oldName]]
                         else st.publicHomes;
      (Done, LegacyState(st.homes[owner := (homes - {oldName})[newName := homes[oldName]]], publicHomes))
  }

  /** `setPublicHome`: fails when anybody's home of that name is public. */
  function LegacySetPublicStep(st: LegacyState, owner: PlayerId, ownerName: string, name: string): (r: (HomeOutcome, LegacyState))
  {
    if !HasHome(HomesOnly(st), owner, name) then (HomeNotFound, st)
    else if name in st.publicHomes then (AlreadyPublic, st)
    else (Done, st.(publicHomes := st.publicHomes[name := LegacyPublicInfo(owner, ownerName)]))
  }

  /** `setPrivateHome`: fails when no public entry has that name, then when
      the entry belongs to someone else. */
  function LegacySetPrivateStep(st: LegacyState, owner: PlayerId, name: string): (r: (HomeOutcome, LegacyState))
  {
    if !HasHome(HomesOnly(st), owner, name) then (HomeNotFound, st)
    else if name !in st.publicHomes then (NotPublic, st)
    else if st.publicHomes[name].ownerUuid != owner then (NotOwner, st)
    else (Done, st.(publicHomes := st.publicHomes - {name}))
  }

  /** The name is taken server-wide: a home cannot be made public while any
      player's home of that name is; otherwise making an existing home public
      succeeds and gives its owner the entry. */
  lemma LegacySetPublicRule(st: LegacyState, owner: PlayerId, ownerName: string, name: string)
    ensures var (o, st') := LegacySetPublicStep(st, owner, ownerName, name);
            (o == Done <==> HasHome(HomesOnly(st), owner, name) && name !in st.publicHomes)
            && (o != Done ==> st' == st)
            && (o == Done ==> PublicFor(st', owner, name) && st'.homes == st.homes
                              && forall n | n != name :: n in st'.publicHomes <==> n in st.publicHomes)
  {
  }

  /** Making a home private succeeds exactly for the owner of its public
      entry, and removes that entry only. */
  lemma LegacySetPrivateRule(st: LegacyState, owner: PlayerId, name: string)
    ensures var (o, st') := LegacySetPrivateStep(st, owner, name);
            (o == Done <==> HasHome(HomesOnly(st), owner, name) && PublicFor(st, owner, name))
            && (o == NotOwner <==> HasHome(HomesOnly(st), owner, name) && name in st.publicHomes && !PublicFor(st, owner, name))
            && (o != Done ==> st' == st)
            && (o == Done ==> name !in st'.publicHomes && st'.homes == st.homes
                              && forall n | n != name :: n in st'.publicHomes <==> n in st.publicHomes)
  {
  }

  /** Private undoes public, and public under the same owner name undoes
      private. */
  lemma LegacyPublicPrivateInverse(st: LegacyState, owner: PlayerId, ownerName: string, name: string)
    ensures LegacySetPublicStep(st, owner, ownerName, name).0 == Done ==>
              LegacySetPrivateStep(LegacySetPublicStep(st, owner, ownerName, name).1, owner, name) == (Done, st)
    ensures LegacySetPrivateStep(st, owner, name).0 == Done && st.publicHomes[name].ownerName == ownerName ==>
              LegacySetPublicStep(LegacySetPrivateStep(st, owner, name).1, owner, ownerName, name) == (Done, st)
  {
    if LegacySetPublicStep(st, owner, ownerName, name).0 == Done {
      assert st.publicHomes[name := LegacyPublicInfo(owner, ownerName)] - {name} == st.publicHomes;
    }
    if LegacySetPrivateStep(st, owner, name).0 == Done && st.publicHomes[name].ownerName == ownerName {
      assert (st.publicHomes - {name})[name := LegacyPublicInfo(owner, ownerName)] == st.publicHomes;
    }
  }

  // ---------------------------------------------------------------------
  // The invariant

  /** The older invariant implies the newer one on the homes alone. */
  lemma HomesOnlyConsistent(st: LegacyState)
    requires LegacyConsistent(st)
    ensures Consistent(HomesOnly(st))
  {
    var h := HomesOnly(st);
    forall o
      ensures OwnerConsistent(h, o)
    {
    }
  }

  lemma LegacySetHomeKeepsConsistent(st: LegacyState, owner: PlayerId, name: string, position: Position, maxHomes: int)
    requires LegacyConsistent(st)
    ensures LegacyConsistent(LegacySetHomeStep(st, owner, name, position, maxHomes).1)
  {
    var h := HomesOnly(st);
    HomesOnlyConsistent(st);
    SetHomeKeepsConsistent(h, owner, name, position, maxHomes);
    HomesKeptByEdit(st, LegacySetHomeStep(st, owner, name, position, maxHomes).1, SetHomeStep(h, owner, name, position, maxHomes).state);
  }

  lemma LegacyShareKeepsConsistent(st: LegacyState, owner: PlayerId, name: string, target: PlayerId)
    requires LegacyConsistent(st)
    ensures LegacyConsistent(LegacyShareHomeStep(st, owner, name, target).1)
  {
    var h := HomesOnly(st);
    HomesOnlyConsistent(st);
    ShareKeepsConsistent(h, owner, name, target);
    HomesKeptByEdit(st, LegacyShareHomeStep(st, owner, name, target).1, ShareHomeStep(h, owner, name, target).state);
  }

  lemma LegacyUnshareKeepsConsistent(st: LegacyState, owner: PlayerId, name: string, who: Option<string>, profiles: map<string, PlayerId>)
    requires LegacyConsistent(st)
    ensures LegacyConsistent(LegacyUnshareHomeStep(st, owner, name, who, profiles).1)
  {
    var h := HomesOnly(st);
    HomesOnlyConsistent(st);
    UnshareKeepsConsistent(h, owner, name, who, profiles);
    HomesKeptByEdit(st, LegacyUnshareHomeStep(st, owner, name, who, profiles).1, UnshareHomeStep(h, owner, name, who, profiles).state);
  }

  /** An edit of the homes alone that keeps every home and keeps the newer
      registry's invariant keeps the older one. */
  lemma HomesKeptByEdit(st: LegacyState, st': LegacyState, h': HomeState)
    requires LegacyConsistent(st) && Consistent(h') && st'.homes == h'.homes && st'.publicHomes == st.publicHomes
    requires forall o, n | HasHome(HomesOnly(st), o, n) :: HasHome(HomesOnly(st'), o, n)
    ensures LegacyConsistent(st')
  {
    forall o | o in st'.homes
      ensures SharesValid(st'.homes[o])
    {
      assert OwnerConsistent(h', o);
    }
  }

  lemma LegacyRemoveKeepsConsistent(st: LegacyState, owner: PlayerId, name: string)
    requires LegacyConsistent(st)
    ensures LegacyConsistent(LegacyRemoveHomeStep(st, owner, name).1)
  {
    var st' := LegacyRemoveHomeStep(st, owner, name).1;
    if HasHome(HomesOnly(st), owner, name) {
      forall n | n in st'.publicHomes
        ensures HasHome(HomesOnly(st'), st'.publicHomes[n].ownerUuid, n)
      {
        var o := st.publicHomes[n].ownerUuid;
        assert HasHome(HomesOnly(st), o, n);
        if o == owner {
          assert n in st.homes[owner] - {name};
        }
      }
    }
  }

  lemma LegacyPublicPrivateKeepConsistent(st: LegacyState, owner: PlayerId, ownerName: string, name: string)
    requires LegacyConsistent(st)
    ensures LegacyConsistent(LegacySetPublicStep(st, owner, ownerName, name).1)
    ensures LegacyConsistent(LegacySetPrivateStep(st, owner, name).1)
  {
  }

  // ---------------------------------------------------------------------
  // Findings of the name-keyed index

  /** A player, Bob, and another player, Alice, both have a home called "x";
      Bob's is public. */
  function TwoOwnersState(alice: PlayerId, bob: PlayerId, h: Home): (st: LegacyState)
    requires alice != bob
    ensures st.publicHomes == map["x" := LegacyPublicInfo(bob, "Bob")]
  {
    LegacyState(map[alice := map["x" := h], bob := map["x" := h]], map["x" := LegacyPublicInfo(bob, "Bob")])
  }

  /** As written, Alice renaming her private home "x" to "y" moves Bob's
      public entry to "y", a name under which Bob has no home: the invariant
      breaks. The per-owner index keeps it through every rename. */
  lemma LegacyRenameBreaksInvariant(alice: PlayerId, bob: PlayerId, h: Home)
    requires alice != bob && NoDuplicates(h.sharedPlayers)
    ensures LegacyConsistent(TwoOwnersState(alice, bob, h))
    ensures var (o, st') := LegacyRenameHomeStep(TwoOwnersState(alice, bob, h), alice, "x", "y");
            o == Done && PublicFor(st', bob, "y") && !HasHome(HomesOnly(st'), bob, "y")
            && !LegacyConsistent(st')
  {
    var st := TwoOwnersState(alice, bob, h);
    assert HasHome(HomesOnly(st), bob, "x");
    var st' := LegacyRenameHomeStep(st, alice, "x", "y").1;
    assert "y" !in st.homes[alice];
    assert st'.publicHomes == map["y" := LegacyPublicInfo(bob, "Bob")];
    assert st'.homes[bob] == map["x" := h];
    assert "y" !in st'.homes[bob];
  }

  /** As written, Alice removing her own home "x" also withdraws Bob's public
      home "x": a third player who could visit it no longer can. The
      per-owner index leaves other owners' entries alone. */
  lemma LegacyRemoveWithdrawsOthersPublicHome(alice: PlayerId, bob: PlayerId, visitor: PlayerId,
                                              current: Position, profiles: map<string, PlayerId>)
    requires alice != bob && visitor != bob && visitor != alice
    requires "Bob" in profiles && profiles["Bob"] == bob
    ensures var h := Home(current, []);
            var st := TwoOwnersState(alice, bob, h);
            var (o, st') := LegacyRemoveHomeStep(st, alice, "x");
            o == Done
            && LegacyVisitTarget(st, visitor, "Bob:x", {current.dimension}, profiles) == Teleported(current)
            && LegacyVisitTarget(st', visitor, "Bob:x", {current.dimension}, profiles) == NotAccessible
  {
    var h := Home(current, []);
    var st := TwoOwnersState(alice, bob, h);
    var st' := LegacyRemoveHomeStep(st, alice, "x").1;
    assert "Bob:x" == "Bob" + ":" + "x";
    SplitJoinRoundTrip("Bob", "x");
    assert st'.publicHomes == map[];
    assert st'.homes[bob] == map["x" := h];
  }

  // ---------------------------------------------------------------------
  // Visiting homes

  /** The older access rule: the owner holds the public entry of that name,
      or the home is shared with the visitor. */
  predicate LegacyCanVisit(st: LegacyState, visitor: PlayerId, owner: PlayerId, name: string)
  {
    HasHome(HomesOnly(st), owner, name)
    && (PublicFor(st, owner, name) || visitor in st.homes[owner][name].sharedPlayers)
  }

  /** `teleportToOtherHome` of the older handler: split, owner lookup,
      existence, access, dimension. */
  function LegacyVisitTarget(st: LegacyState, player: PlayerId, arg: string, loaded: set<Dimension>,
                             profiles: map<string, PlayerId>): (o: HomeOutcome)
    ensures o.Teleported? || o in {InvalidFormat, NotAccessible, HomeInvalidDimension}
  {
    match SplitOwnerHome(arg)
    case None => InvalidFormat
    case Some((ownerName, homeName)) =>
      if ownerName !in profiles then NotAccessible
      else
        var owner := profiles[ownerName];
        if !HasHome(HomesOnly(st), owner, homeName) then NotAccessible
        else
          var home := st.homes[owner][homeName];
          if !PublicFor(st, owner, homeName) && player !in home.sharedPlayers then NotAccessible
          else if home.position.dimension !in loaded then HomeInvalidDimension
          else Teleported(home.position)
  }

  /** Visiting succeeds exactly for a known owner's home that the visitor may
      use and whose dimension is loaded. */
  lemma LegacyVisitSucceedsIff(st: LegacyState, player: PlayerId, ownerName: string, homeName: string,
                               loaded: set<Dimension>, profiles: map<string, PlayerId>)
    requires ':' !in ownerName
    ensures var o := LegacyVisitTarget(st, player, ownerName + ":" + homeName, loaded, profiles);
            o.Teleported? <==>
              ownerName in profiles && LegacyCanVisit(st, player, profiles[ownerName], homeName)
              && st.homes[profiles[ownerName]][homeName].position.dimension in loaded
    ensures var o := LegacyVisitTarget(st, player, ownerName + ":" + homeName, loaded, profiles);
            o.Teleported? ==> o.destination == st.homes[profiles[ownerName]][homeName].position
  {
    SplitJoinRoundTrip(ownerName, homeName);
  }

  /** The two access rules agree once the name-keyed index is regrouped by
      owner: the older handler's check that the entry's owner is the named
      owner is the per-owner lookup of the newer one. */
  lemma AccessRulesAgree(st: LegacyState, visitor: PlayerId, owner: PlayerId, name: string)
    ensures LegacyCanVisit(st, visitor, owner, name)
            <==> CanVisit(HomeState(st.homes, PerOwnerIndex(st.publicHomes)), visitor, owner, name)
  {
  }

  /** The owners holding some public entry. */
  function Owners(publicHomes: map<string, LegacyPublicInfo>): (r: set<PlayerId>)
    ensures forall n | n in publicHomes :: publicHomes[n].ownerUuid in r
    ensures forall o | o in r :: exists n | n in publicHomes :: publicHomes[n].ownerUuid == o
  {
    set n | n in publicHomes :: publicHomes[n].ownerUuid
  }

  /** The name-keyed index regrouped by owner, as the newer registry keeps it. */
  function PerOwnerIndex(publicHomes: map<string, LegacyPublicInfo>): (r: map<PlayerId, map<string, PublicHomeInfo>>)
    ensures forall o, n :: (o in r && n in r[o]) <==> (n in publicHomes && publicHomes[n].ownerUuid == o)
  {
    map o | o in Owners(publicHomes) ::
      map n | n in publicHomes && publicHomes[n].ownerUuid == o :: PublicHomeInfo(o, publicHomes[n].ownerName, n)
  }

  /** The older visit as written, which records and turns the player the same
      way as the newer one. */
  function LegacyVisitAsWritten(st: LegacyState, backs: map<PlayerId, Position>, lastPositions: map<PlayerId, Position>,
                                player: PlayerId, arg: string, current: Position, loaded: set<Dimension>,
                                profiles: map<string, PlayerId>): (r: VisitResult)
    ensures r.backs == backs
    ensures r.outcome.Teleported? <==> LegacyVisitTarget(st, player, arg, loaded, profiles).Teleported?
    ensures r.outcome.Teleported? ==>
              r.outcome.destination == SwapRotation(LegacyVisitTarget(st, player, arg, loaded, profiles).destination)
  {
    match LegacyVisitTarget(st, player, arg, loaded, profiles)
    case Teleported(destination) =>
      VisitResult(Teleported(SwapRotation(destination)), backs, lastPositions[player := current])
    case failure => VisitResult(failure, backs, lastPositions)
  }

  /** The older visit as intended: `/back` is recorded and the facing kept. */
  function LegacyVisitStep(st: LegacyState, backs: map<PlayerId, Position>, player: PlayerId, arg: string,
                           current: Position, loaded: set<Dimension>, profiles: map<string, PlayerId>): (r: TeleportResult)
    ensures r.outcome == LegacyVisitTarget(st, player, arg, loaded, profiles)
    ensures r.outcome.Teleported? ==> r.backs == Record(backs, player, current)
    ensures !r.outcome.Teleported? ==> r.backs == backs
  {
    var o := LegacyVisitTarget(st, player, arg, loaded, profiles);
    if o.Teleported? then TeleportResult(o, Record(backs, player, current)) else TeleportResult(o, backs)
  }

  /** `teleportToHome` of the older handler: own home first, then a visit. */
  function LegacyTeleportHomeStep(st: LegacyState, backs: map<PlayerId, Position>, player: PlayerId, arg: string,
                                  current: Position, loaded: set<Dimension>, profiles: map<string, PlayerId>): (r: TeleportResult)
  {
    if HasHome(HomesOnly(st), player, arg) then
      var home := st.homes[player][arg];
      if home.position.dimension !in loaded then TeleportResult(HomeInvalidDimension, backs)
      else TeleportResult(Teleported(home.position), Record(backs, player, current))
    else LegacyVisitStep(st, backs, player, arg, current, loaded, profiles)
  }

  /** As in the newer handler, a successful `/home` can be undone with `/back`. */
  lemma LegacyHomeThenBackReturns(st: LegacyState, backs: map<PlayerId, Position>, player: PlayerId, arg: string,
                                  current: Position, loaded: set<Dimension>, profiles: map<string, PlayerId>)
    requires current.dimension in loaded
    ensures var r := LegacyTeleportHomeStep(st, backs, player, arg, current, loaded, profiles);
            (r.outcome.Teleported? ==> BackStep(r.backs, player, r.outcome.destination, loaded).outcome == Returned(current))
            && (!r.outcome.Teleported? ==> r.backs == backs)
  {
  }

  /** The older visit as written loses `/back` and the facing just as the
      newer one does. */
  lemma LegacyVisitAsWrittenLosesBackAndFacing(st: LegacyState, player: PlayerId, ownerName: string, homeName: string,
                                               current: Position, loaded: set<Dimension>, profiles: map<string, PlayerId>)
    requires ':' !in ownerName && ownerName in profiles
    requires LegacyCanVisit(st, player, profiles[ownerName], homeName)
    requires st.homes[profiles[ownerName]][homeName].position.dimension in loaded
    requires current.dimension in loaded
    ensures var saved := st.homes[profiles[ownerName]][homeName].position;
            var w := LegacyVisitAsWritten(st, map[], map[], player, ownerName + ":" + homeName, current, loaded, profiles);
            var c := LegacyVisitStep(st, map[], player, ownerName + ":" + homeName, current, loaded, profiles);
            w.outcome == Teleported(SwapRotation(saved))
            && (saved.yRot != saved.xRot ==> w.outcome.destination != saved)
            && BackStep(w.backs, player, w.outcome.destination, loaded).outcome == NoPosition
            && c.outcome == Teleported(saved)
            && BackStep(c.backs, player, saved, loaded).outcome == Returned(current)
  {
    LegacyVisitSucceedsIff(st, player, ownerName, homeName, loaded, profiles);
  }

  // ---------------------------------------------------------------------
  // Suggestions for `/home private`

  /** `publicHomes.get(name).equals(player.getUUID())`: a public-home entry is
      never equal to a UUID, since `PublicHomeInfo` keeps the identity
      equality it inherits from `Object`. */
  predicate InfoEqualsUuid(info: LegacyPublicInfo, id: PlayerId)
  {
    false
  }

  /** The suggestions offered for `/home private` as written. */
  function PrivateCandidatesAsWritten(st: LegacyState, player: PlayerId): (r: set<string>)
  {
    set n | n in Inner(st.homes, player) && n in st.publicHomes && InfoEqualsUuid(st.publicHomes[n], player)
  }

  /** The suggestions as intended: the player's homes whose public entry the
      player holds. */
  function PrivateCandidates(st: LegacyState, player: PlayerId): (r: set<string>)
  {
    set n | n in Inner(st.homes, player) && PublicFor(st, player, n)
  }

  /** The intended suggestions are exactly the names `/home private`
      accepts from the player. */
  lemma PrivateCandidatesAreAccepted(st: LegacyState, player: PlayerId, name: string)
    ensures name in PrivateCandidates(st, player) <==> LegacySetPrivateStep(st, player, name).0 == Done
  {
  }

  /** As written nothing is ever suggested, even to a player with a home
      that `/home private` would accept. */
  lemma PrivateCandidatesAsWrittenEmpty(st: LegacyState, player: PlayerId, position: Position)
    ensures PrivateCandidatesAsWritten(st, player) == {}
    ensures var st1 := LegacyState(map[player := map["x" := Home(position, [])]], map["x" := LegacyPublicInfo(player, "Alice")]);
            PrivateCandidatesAsWritten(st1, player) == {} && LegacySetPrivateStep(st1, player, "x").0 == Done
            && PrivateCandidates(st1, player) == {"x"}
  {
    var st1 := LegacyState(map[player := map["x" := Home(position, [])]], map["x" := LegacyPublicInfo(player, "Alice")]);
    PrivateCandidatesAreAccepted(st1, player, "x");
    assert forall n | n in PrivateCandidates(st1, player) :: n == "x";
  }

  /** The suggestions for `/home public`: the player's homes whose name no
      public entry holds, which are exactly the names it accepts. */
  function PublicCandidates(st: LegacyState, player: PlayerId): (r: set<string>)
    ensures forall n :: n in r <==> LegacySetPublicStep(st, player, "", n).0 == Done
  {
    set n | n in Inner(st.homes, player) && n !in st.publicHomes
  }

  // ---------------------------------------------------------------------
  // The registry

  class LegacyHomeRegistry {
    var playerHomes: map<PlayerId, map<string, Home>>
    var publicHomes: map<string, LegacyPublicInfo>

    function State(): LegacyState
      reads this
    {
      LegacyState(playerHomes, publicHomes)
    }

    constructor ()
      ensures State() == LegacyState(map[], map[])
    {
      playerHomes := map[];
      publicHomes := map[];
    }

    method SetHome(owner: PlayerId, name: string, position: Position, maxHomes: int) returns (outcome: HomeOutcome)
      modifies this
      ensures LegacySetHomeStep(old(State()), owner, name, position, maxHomes) == (outcome, State())
    {
      var before := playerHomes;
      var homes := if owner in before then before[owner] else map[];
      playerHomes := before[owner := homes];
      if |homes| >= maxHomes {
        return HomeLimitReached;
      }
      if name in homes {
        return NameExists;
      }
      playerHomes := before[owner := homes[name := Home(position, [])]];
      outcome := Done;
    }

    method RemoveHome(owner: PlayerId, name: string) returns (outcome: HomeOutcome)
      modifies this
      ensures LegacyRemoveHomeStep(old(State()), owner, name) == (outcome, State())
    {
      if owner !in playerHomes || name !in playerHomes[owner] {
        return HomeNotFound;
      }
      var homes := playerHomes[owner] - {name};
      publicHomes := publicHomes - {name};
      if homes == map[] {
        playerHomes := playerHomes - {owner};
      } else {
        playerHomes := playerHomes[owner := homes];
      }
      outcome := Done;
    }

    method RenameHome(owner: PlayerId, oldName: string, newName: string) returns (outcome: HomeOutcome)
      modifies this
      ensures LegacyRenameHomeStep(old(State()), owner, oldName, newName) == (outcome, State())
    {
      if owner !in playerHomes || oldName !in playerHomes[owner] {
        return HomeNotFound;
      }
      var homes := playerHomes[owner];
      if newName in homes {
        return NameExists;
      }
      var home := homes[oldName];
      playerHomes := playerHomes[owner := (homes - {oldName})[newName := home]];
      if oldName in publicHomes {
        var info := publicHomes[oldName];
        publicHomes := (publicHomes - {oldName})[newName := info];
      }
      outcome := Done;
    }

    method ShareHome(owner: PlayerId, name: string, target: PlayerId) returns (outcome: HomeOutcome)
      modifies this
      ensures LegacyShareHomeStep(old(State()), owner, name, target) == (outcome, State())
    {
      if owner !in playerHomes || name !in playerHomes[owner] {
        return HomeNotFound;
      }
      var home := playerHomes[owner][name];
      if target in home.sharedPlayers {
        return AlreadyShared;
      }
      playerHomes := playerHomes[owner := playerHomes[owner][name := home.(sharedPlayers := home.sharedPlayers + [target])]];
      outcome := Done;
    }

    method UnshareHome(owner: PlayerId, name: string, who: Option<string>, profiles: map<string, PlayerId>)
      returns (outcome: HomeOutcome)
      modifies this
      ensures LegacyUnshareHomeStep(old(State()), owner, name, who, profiles) == (outcome, State())
    {
      if owner !in playerHomes || name !in playerHomes[owner] {
        return HomeNotFound;
      }
      var home := playerHomes[owner][name];
      if who.None? {
        if home.sharedPlayers == [] {
          return NotSharedWithAnyone;
        }
        playerHomes := playerHomes[owner := playerHomes[owner][name := home.(sharedPlayers := [])]];
        return Done;
      }
      if who.value !in profiles {
        return PlayerNotFound;
      }
      var targetId := profiles[who.value];
      if targetId !in home.sharedPlayers {
        return NotShared;
      }
      var rest := RemoveFirst(home.sharedPlayers, targetId);
      playerHomes := playerHomes[owner := playerHomes[owner][name := home.(sharedPlayers := rest)]];
      outcome := Done;
    }

    method SetPublicHome(owner: PlayerId, ownerName: string, name: string) returns (outcome: HomeOutcome)
      modifies this
      ensures LegacySetPublicStep(old(State()), owner, ownerName, name) == (outcome, State())
    {
      if owner !in playerHomes || name !in playerHomes[owner] {
        return HomeNotFound;
      }
      if name in publicHomes {
        return AlreadyPublic;
      }
      publicHomes := publicHomes[name := LegacyPublicInfo(owner, ownerName)];
      outcome := Done;
    }

    method SetPrivateHome(owner: PlayerId, name: string) returns (outcome: HomeOutcome)
      modifies this
      ensures LegacySetPrivateStep(old(State()), owner, name) == (outcome, State())
    {
      if owner !in playerHomes || name !in playerHomes[owner] {
        return HomeNotFound;
      }
      if name !in publicHomes {
        return NotPublic;
      }
      if publicHomes[name].ownerUuid != owner {
        return NotOwner;
      }
      publicHomes := publicHomes - {name};
      outcome := Done;
    }

    /** `teleportToHome`, with the visit as intended. */
    method TeleportToHome(player: PlayerId, arg: string, current: Position, loaded: set<Dimension>,
                          profiles: map<string, PlayerId>, back: BackStore) returns (outcome: HomeOutcome)
      modifies back
      ensures LegacyTeleportHomeStep(State(), old(back.previousPositions), player, arg, current, loaded, profiles)
              == TeleportResult(outcome, back.previousPositions)
    {
      if player in playerHomes && arg in playerHomes[player] {
        var home := playerHomes[player][arg];
        if home.position.dimension !in loaded {
          return HomeInvalidDimension;
        }
        back.RecordPosition(player, current);
        return Teleported(home.position);
      }
      outcome := LegacyVisitTarget(State(), player, arg, loaded, profiles);
      if outcome.Teleported? {
        back.RecordPosition(player, current);
      }
    }
  }
}
