/** The home registry: every player's named homes, each with the players it
    is shared with, and an index of public homes kept per owner. */
module Homes {
  import opened Common
  import opened Back

  /** A saved home and the ids of the players it is shared with, in the order
      they were added. */
  datatype Home = Home(position: Position, sharedPlayers: seq<PlayerId>)

  /** An entry of the public index: who owns the home, the owner's name when
      it was made public, and the home's name. */
  datatype PublicHomeInfo = PublicHomeInfo(ownerUuid: PlayerId, ownerName: string, homeName: string)

  /** `playerHomes` and `publicHomesByOwner`. The index is keyed by the
      owner's UUID string in the source; the owner's id stands for it here. */
  datatype HomeState = HomeState(
    homes: map<PlayerId, map<string, Home>>,
    publicHomes: map<PlayerId, map<string, PublicHomeInfo>>)

  /** What the commands report. `Done` is the success of every editing
      command; `NotOwner` is reported only by the older handler. */
  datatype HomeOutcome =
    | Done
    | HomeNotFound
    | HomeLimitReached
    | NameExists
    | AlreadyShared
    | NotSharedWithAnyone
    | PlayerNotFound
    | NotShared
    | AlreadyPublic
    | NotPublic
    | NotOwner
    | InvalidFormat
    | NotAccessible
    | HomeInvalidDimension
    | Teleported(destination: Position)

  datatype HomeResult = HomeResult(outcome: HomeOutcome, state: HomeState)

  predicate NoDuplicates(s: seq<PlayerId>)
  {
    forall i, j | 0 <= i < j < |s| :: s[i] != s[j]
  }

  predicate HasHome(st: HomeState, owner: PlayerId, name: string)
  {
    owner in st.homes && name in st.homes[owner]
  }

  predicate IsPublic(st: HomeState, owner: PlayerId, name: string)
  {
    owner in st.publicHomes && name in st.publicHomes[owner]
  }

  /** The public index of one owner names only homes of that owner, and each
      entry agrees with the keys it is filed under. */
  predicate PublicIndexValid(homes: map<string, Home>, publicHomes: map<string, PublicHomeInfo>, owner: PlayerId)
  {
    forall n | n in publicHomes :: n in homes && publicHomes[n].ownerUuid == owner && publicHomes[n].homeName == n
  }

  /** No share list of these homes holds a player twice. */
  predicate SharesValid(homes: map<string, Home>)
  {
    forall n | n in homes :: NoDuplicates(homes[n].sharedPlayers)
  }

  /** One owner's part of the registry's invariant: a kept public index is
      not empty and is valid against the owner's homes. */
  predicate OwnerConsistent(st: HomeState, owner: PlayerId)
  {
    (owner in st.publicHomes ==>
       st.publicHomes[owner] != map[] && owner in st.homes
       && PublicIndexValid(st.homes[owner], st.publicHomes[owner], owner))
    && (owner in st.homes ==> SharesValid(st.homes[owner]))
  }

  /** The registry's invariant: every owner's part holds. */
  ghost predicate Consistent(st: HomeState)
  {
    forall o :: OwnerConsistent(st, o)
  }

  /** st' differs from st at most in the entries of `owner`. */
  ghost predicate OthersUnchanged(st: HomeState, st': HomeState, owner: PlayerId)
  {
    forall o | o != owner ::
      (o in st'.homes <==> o in st.homes) && (o in st.homes ==> st'.homes[o] == st.homes[o])
      && (o in st'.publicHomes <==> o in st.publicHomes) && (o in st.publicHomes ==> st'.publicHomes[o] == st.publicHomes[o])
  }

  /** A change confined to one owner keeps the invariant when that owner's
      part still holds. */
  lemma OwnerChangeKeepsConsistent(st: HomeState, st': HomeState, owner: PlayerId)
    requires Consistent(st) && OthersUnchanged(st, st', owner) && OwnerConsistent(st', owner)
    ensures Consistent(st')
  {
    forall o
      ensures OwnerConsistent(st', o)
    {
      if o != owner {
        assert OwnerConsistent(st, o);
      }
    }
  }

  /** `map.get(owner)` with a missing entry read as empty. */
  function Inner<V>(m: map<PlayerId, map<string, V>>, owner: PlayerId): (r: map<string, V>)
    ensures owner in m ==> r == m[owner]
    ensures owner !in m ==> r == map[]
  {
    if owner in m then m[owner] else map[]
  }

  /** Writes an owner's inner map back, dropping the owner once it is empty. */
  function StoreInner<V>(m: map<PlayerId, map<string, V>>, owner: PlayerId, inner: map<string, V>): (r: map<PlayerId, map<string, V>>)
    ensures inner == map[] ==> r == m - {owner}
    ensures inner != map[] ==> r == m[owner := inner]
  {
    if inner == map[] then m - {owner} else m[owner := inner]
  }

  /** `list.remove(id)`: the first occurrence of x goes. */
  function RemoveFirst(s: seq<PlayerId>, x: PlayerId): (r: seq<PlayerId>)
    ensures x !in s ==> r == s
    ensures x in s ==> |r| == |s| - 1 && multiset(r) + multiset{x} == multiset(s)
  {
    if s == [] then []
    else
      assert s == [s[0]] + s[1..];
      if s[0] == x then s[1..]
      else [s[0]] + RemoveFirst(s[1..], x)
  }

  /** On a list without duplicates, removing x leaves every other player and
      x no more. */
  lemma {:induction false} RemoveFirstNoDuplicates(s: seq<PlayerId>, x: PlayerId)
    requires NoDuplicates(s)
    ensures NoDuplicates(RemoveFirst(s, x))
    ensures x !in RemoveFirst(s, x)
    ensures forall y :: y in RemoveFirst(s, x) <==> y in s && y != x
  {
    if s != [] && s[0] != x {
      assert NoDuplicates(s[1..]) by {
        forall i, j | 0 <= i < j < |s[1..]| ensures s[1..][i] != s[1..][j] {
          assert s[1..][i] == s[i + 1] && s[1..][j] == s[j + 1];
        }
      }
      RemoveFirstNoDuplicates(s[1..], x);
      var rest := RemoveFirst(s[1..], x);
      assert s[0] !in s[1..] by {
        forall k | 0 <= k < |s[1..]| ensures s[1..][k] != s[0] {
          assert s[1..][k] == s[k + 1];
        }
      }
      assert RemoveFirst(s, x) == [s[0]] + rest;
    } else if s != [] {
      assert s[0] !in s[1..] by {
        forall k | 0 <= k < |s[1..]| ensures s[1..][k] != s[0] {
          assert s[1..][k] == s[k + 1];
        }
      }
      assert forall y :: y in s <==> y == s[0] || y in s[1..];
    }
  }

  /** Removing a player appended to a list that did not hold it gives the
      list back. */
  lemma {:induction false} RemoveFirstAppended(s: seq<PlayerId>, x: PlayerId)
    requires x !in s
    ensures RemoveFirst(s + [x], x) == s
  {
    if s != [] {
      assert (s + [x])[1..] == s[1..] + [x];
      RemoveFirstAppended(s[1..], x);
    }
  }

  // ---------------------------------------------------------------------
  // Editing commands

  /** `setHome`: the owner's map is created if missing; the command fails when
      the owner has `maxHomes` homes or more, then when the name is taken;
      otherwise the home is added with an empty share list. */
  function SetHomeStep(st: HomeState, owner: PlayerId, name: string, position: Position, maxHomes: int): (r: HomeResult)
  {
    var homes := Inner(st.homes, owner);
    var created := st.(homes := st.homes[owner := homes]);
    if |homes| >= maxHomes then HomeResult(HomeLimitReached, created)
    else if name in homes then HomeResult(NameExists, created)
    else HomeResult(Done, st.(homes := st.homes[owner := homes[name := Home(position, [])]]))
  }

  /** The limit is checked before the name; with the configured limit of at
      least one a refused `setHome` changes nothing, and a successful one adds
      exactly the new home, never going over the limit. */
  lemma SetHomeRule(st: HomeState, owner: PlayerId, name: string, position: Position, maxHomes: int)
    requires maxHomes >= 1
    ensures var r := SetHomeStep(st, owner, name, position, maxHomes);
            var homes := Inner(st.homes, owner);
            (r.outcome == HomeLimitReached <==> |homes| >= maxHomes)
            && (r.outcome == NameExists <==> |homes| < maxHomes && name in homes)
            && (r.outcome != Done ==> r.state == st)
            && (r.outcome == Done ==>
                  r.state.homes[owner] == homes[name := Home(position, [])]
                  && |r.state.homes[owner]| == |homes| + 1 <= maxHomes
                  && r.state.publicHomes == st.publicHomes
                  && forall o | o != owner :: (o in r.state.homes <==> o in st.homes)
                                            && (o in st.homes ==> r.state.homes[o] == st.homes[o]))
  {
    var homes := Inner(st.homes, owner);
    if |homes| >= maxHomes || name in homes {
      assert owner in st.homes;
      assert st.homes[owner := homes] == st.homes;
    }
  }

  /** `removeHome`: the home and the owner's public entry for that name go;
      emptied maps are dropped. */
  function RemoveHomeStep(st: HomeState, owner: PlayerId, name: string): (r: HomeResult)
  {
    if !HasHome(st, owner, name) then HomeResult(HomeNotFound, st)
    else
      var publicHomes := if owner in st.publicHomes
                         then StoreInner(st.publicHomes, owner, st.publicHomes[owner] - {name})
                         else st.publicHomes;
      HomeResult(Done, HomeState(StoreInner(st.homes, owner, st.homes[owner] - {name}), publicHomes))
  }

  /** Removal deletes the home and its public entry, keeps the owner's other
      homes and public entries, and touches no other owner. */
  lemma RemoveHomeRule(st: HomeState, owner: PlayerId, name: string)
    ensures var r := RemoveHomeStep(st, owner, name);
            (r.outcome == HomeNotFound <==> !HasHome(st, owner, name))
            && (r.outcome == HomeNotFound ==> r.state == st)
            && (r.outcome == Done ==>
                  !HasHome(r.state, owner, name) && !IsPublic(r.state, owner, name)
                  && (forall n | n != name :: (HasHome(r.state, owner, n) <==> HasHome(st, owner, n))
                                            && (IsPublic(r.state, owner, n) <==> IsPublic(st, owner, n)))
                  && OthersUnchanged(st, r.state, owner))
  {
    if HasHome(st, owner, name) {
      var r := RemoveHomeStep(st, owner, name);
      forall n | n != name
        ensures (HasHome(r.state, owner, n) <==> HasHome(st, owner, n))
                && (IsPublic(r.state, owner, n) <==> IsPublic(st, owner, n))
      {
        assert n in st.homes[owner] <==> n in st.homes[owner] - {name};
        if owner in st.publicHomes {
          assert n in st.publicHomes[owner] <==> n in st.publicHomes[owner] - {name};
        }
      }
    }
  }

  /** `renameHome`: fails when the old name is missing or the new one taken;
      otherwise the same home moves to the new name and a public entry follows
      it with its `homeName` updated. */
  function RenameHomeStep(st: HomeState, owner: PlayerId, oldName: string, newName: string): (r: HomeResult)
  {
    if !HasHome(st, owner, oldName) then HomeResult(HomeNotFound, st)
    else if newName in st.homes[owner] then HomeResult(NameExists, st)
    else
      var homes := st.homes[owner];
      var renamed := (homes - {oldName})[newName := homes[oldName]];
      var publicHomes :=
        if IsPublic(st, owner, oldName) then
          var info := st.publicHomes[owner][oldName];
          st.publicHomes[owner := (st.publicHomes[owner] - {oldName})[newName := PublicHomeInfo(info.ownerUuid, info.ownerName, newName)]]
        else st.publicHomes;
      HomeResult(Done, HomeState(st.homes[owner := renamed], publicHomes))
  }

  /** Renaming a home to its own name fails; a successful rename keeps the
      home and its public status under the new name, and nothing remains
      under the old one. */
  lemma RenameHomeRule(st: HomeState, owner: PlayerId, oldName: string, newName: string)
    requires Consistent(st)
    ensures RenameHomeStep(st, owner, oldName, oldName).outcome != Done
    ensures var r := RenameHomeStep(st, owner, oldName, newName);
            (r.outcome == Done <==> HasHome(st, owner, oldName) && !HasHome(st, owner, newName))
            && (r.outcome != Done ==> r.state == st)
            && (r.outcome == Done ==>
                  !HasHome(r.state, owner, oldName) && HasHome(r.state, owner, newName)
                  && r.state.homes[owner][newName] == st.homes[owner][oldName]
                  && (IsPublic(r.state, owner, newName) <==> IsPublic(st, owner, oldName))
                  && !IsPublic(r.state, owner, oldName)
                  && OthersUnchanged(st, r.state, owner))
  {
    assert OwnerConsistent(st, owner);
  }

  /** Renaming back undoes a rename. */
  lemma RenameTwiceRestores(st: HomeState, owner: PlayerId, oldName: string, newName: string)
    requires Consistent(st)
    requires RenameHomeStep(st, owner, oldName, newName).outcome == Done
    ensures RenameHomeStep(RenameHomeStep(st, owner, oldName, newName).state, owner, newName, oldName)
            == HomeResult(Done, st)
  {
    assert OwnerConsistent(st, owner);
    var mid := RenameHomeStep(st, owner, oldName, newName).state;
    var homes := st.homes[owner];
    var back := RenameHomeStep(mid, owner, newName, oldName);
    assert back.outcome == Done;
    assert ((homes - {oldName})[newName := homes[oldName]] - {newName})[oldName := homes[oldName]] == homes;
    assert back.state.homes == st.homes;
    if IsPublic(st, owner, oldName) {
      var pub := st.publicHomes[owner];
      var info := pub[oldName];
      var moved := PublicHomeInfo(info.ownerUuid, info.ownerName, newName);
      assert mid.publicHomes[owner] == (pub - {oldName})[newName := moved];
      assert ((pub - {oldName})[newName := moved] - {newName})[oldName := PublicHomeInfo(moved.ownerUuid, moved.ownerName, oldName)] == pub;
    } else {
      assert !IsPublic(mid, owner, newName);
    }
    assert back.state.publicHomes == st.publicHomes;
  }

  /** Rewrites one home of the owner, who has it. */
  function UpdateHome(st: HomeState, owner: PlayerId, name: string, home: Home): (st': HomeState)
    requires HasHome(st, owner, name)
  {
    st.(homes := st.homes[owner := st.homes[owner][name := home]])
  }

  lemma AppendNoDuplicates(s: seq<PlayerId>, x: PlayerId)
    requires NoDuplicates(s) && x !in s
    ensures NoDuplicates(s + [x])
  {
    forall i, j | 0 <= i < j < |s + [x]|
      ensures (s + [x])[i] != (s + [x])[j]
    {
      assert (s + [x])[i] == s[i];
      if j < |s| {
        assert (s + [x])[j] == s[j];
      }
    }
  }

  /** `shareHome`: fails for a missing home and for a player already on the
      share list; otherwise the player is appended. */
  function ShareHomeStep(st: HomeState, owner: PlayerId, name: string, target: PlayerId): (r: HomeResult)
  {
    if !HasHome(st, owner, name) then HomeResult(HomeNotFound, st)
    else
      var home := st.homes[owner][name];
      if target in home.sharedPlayers then HomeResult(AlreadyShared, st)
      else HomeResult(Done, UpdateHome(st, owner, name, home.(sharedPlayers := home.sharedPlayers + [target])))
  }

  /** Sharing never puts a player on a list twice: the second share of the
      same player fails, and a share list without duplicates stays so. */
  lemma ShareNeverDuplicates(st: HomeState, owner: PlayerId, name: string, target: PlayerId)
    requires HasHome(st, owner, name) && NoDuplicates(st.homes[owner][name].sharedPlayers)
    ensures var r := ShareHomeStep(st, owner, name, target);
            (r.outcome == Done <==> target !in st.homes[owner][name].sharedPlayers)
            && NoDuplicates(r.state.homes[owner][name].sharedPlayers)
            && target in r.state.homes[owner][name].sharedPlayers
            && ShareHomeStep(r.state, owner, name, target).outcome == AlreadyShared
  {
    var shared := st.homes[owner][name].sharedPlayers;
    if target !in shared {
      AppendNoDuplicates(shared, target);
    }
  }

  /** `unshareHome`: without a player name the list is cleared, which fails
      when it is already empty; with a name the player is looked up in
      `profiles` and removed, which fails when nobody has that name or that
      player is not on the list. */
  function UnshareHomeStep(st: HomeState, owner: PlayerId, name: string, who: Option<string>,
                           profiles: map<string, PlayerId>): (r: HomeResult)
  {
    if !HasHome(st, owner, name) then HomeResult(HomeNotFound, st)
    else
      var home := st.homes[owner][name];
      match who
      case None =>
        if home.sharedPlayers == [] then HomeResult(NotSharedWithAnyone, st)
        else HomeResult(Done, UpdateHome(st, owner, name, home.(sharedPlayers := [])))
      case Some(playerName) =>
        if playerName !in profiles then HomeResult(PlayerNotFound, st)
        else if profiles[playerName] !in home.sharedPlayers then HomeResult(NotShared, st)
        else HomeResult(Done, UpdateHome(st, owner, name,
                                         home.(sharedPlayers := RemoveFirst(home.sharedPlayers, profiles[playerName]))))
  }

  /** After a successful unshare of one player that player has no share left
      and everybody else keeps theirs; unsharing everybody empties the list. */
  lemma UnshareRule(st: HomeState, owner: PlayerId, name: string, who: Option<string>, profiles: map<string, PlayerId>)
    requires Consistent(st) && HasHome(st, owner, name)
    ensures var r := UnshareHomeStep(st, owner, name, who, profiles);
            var shared := st.homes[owner][name].sharedPlayers;
            HasHome(r.state, owner, name)
            && (r.outcome != Done ==> r.state == st)
            && (who.None? ==> (r.outcome == Done <==> shared != [])
                              && r.state.homes[owner][name].sharedPlayers == [])
            && (who.Some? && r.outcome == Done ==>
                  who.value in profiles
                  && forall p :: p in r.state.homes[owner][name].sharedPlayers
                                 <==> p in shared && p != profiles[who.value])
            && (who.Some? ==> (r.outcome == Done <==> who.value in profiles && profiles[who.value] in shared))
  {
    assert OwnerConsistent(st, owner);
    if who.Some? && who.value in profiles {
      RemoveFirstNoDuplicates(st.homes[owner][name].sharedPlayers, profiles[who.value]);
    }
  }

  /** Unsharing a player right after sharing with them restores the registry. */
  lemma ShareThenUnshareRestores(st: HomeState, owner: PlayerId, name: string, target: PlayerId,
                                 targetName: string, profiles: map<string, PlayerId>)
    requires targetName in profiles && profiles[targetName] == target
    requires ShareHomeStep(st, owner, name, target).outcome == Done
    ensures UnshareHomeStep(ShareHomeStep(st, owner, name, target).state, owner, name, Some(targetName), profiles)
            == HomeResult(Done, st)
  {
    var home := st.homes[owner][name];
    var shared := home.(sharedPlayers := home.sharedPlayers + [target]);
    var mid := ShareHomeStep(st, owner, name, target).state;
    assert mid == UpdateHome(st, owner, name, shared);
    assert mid.homes[owner][name] == shared;
    RemoveFirstAppended(home.sharedPlayers, target);
    assert shared.(sharedPlayers := RemoveFirst(shared.sharedPlayers, target)) == home;
    assert mid.homes[owner][name := home] == st.homes[owner];
    assert UpdateHome(mid, owner, name, home).homes == st.homes;
  }

  /** `setPublicHome`: fails for a missing home and for one the owner already
      made public; otherwise the owner's index gets the entry. */
  function SetPublicStep(st: HomeState, owner: PlayerId, ownerName: string, name: string): (r: HomeResult)
  {
    if !HasHome(st, owner, name) then HomeResult(HomeNotFound, st)
    else if IsPublic(st, owner, name) then HomeResult(AlreadyPublic, st)
    else HomeResult(Done, st.(publicHomes := st.publicHomes[owner := Inner(st.publicHomes, owner)[name := PublicHomeInfo(owner, ownerName, name)]]))
  }

  /** `setPrivateHome`: fails for a missing home and for one that is not
      public; otherwise the entry goes and an emptied index is dropped. */
  function SetPrivateStep(st: HomeState, owner: PlayerId, name: string): (r: HomeResult)
  {
    if !HasHome(st, owner, name) then HomeResult(HomeNotFound, st)
    else if !IsPublic(st, owner, name) then HomeResult(NotPublic, st)
    else HomeResult(Done, st.(publicHomes := StoreInner(st.publicHomes, owner, st.publicHomes[owner] - {name})))
  }

  /** Making a home public succeeds exactly for an existing private home, and
      making it private exactly for an existing public one; neither touches
      the homes themselves. */
  lemma PublicPrivateSucceedIff(st: HomeState, owner: PlayerId, ownerName: string, name: string)
    ensures SetPublicStep(st, owner, ownerName, name).outcome == Done <==> HasHome(st, owner, name) && !IsPublic(st, owner, name)
    ensures SetPrivateStep(st, owner, name).outcome == Done <==> HasHome(st, owner, name) && IsPublic(st, owner, name)
    ensures SetPublicStep(st, owner, ownerName, name).outcome == Done ==> IsPublic(SetPublicStep(st, owner, ownerName, name).state, owner, name)
    ensures SetPrivateStep(st, owner, name).outcome == Done ==> !IsPublic(SetPrivateStep(st, owner, name).state, owner, name)
    ensures SetPublicStep(st, owner, ownerName, name).state.homes == st.homes
    ensures SetPrivateStep(st, owner, name).state.homes == st.homes
  {
  }

  /** Private undoes public. */
  lemma PublicThenPrivateRestores(st: HomeState, owner: PlayerId, ownerName: string, name: string)
    requires Consistent(st)
    requires SetPublicStep(st, owner, ownerName, name).outcome == Done
    ensures SetPrivateStep(SetPublicStep(st, owner, ownerName, name).state, owner, name) == HomeResult(Done, st)
  {
    assert OwnerConsistent(st, owner);
    var pub := Inner(st.publicHomes, owner);
    var mid := SetPublicStep(st, owner, ownerName, name).state;
    assert mid.publicHomes[owner] == pub[name := PublicHomeInfo(owner, ownerName, name)];
    assert pub[name := PublicHomeInfo(owner, ownerName, name)] - {name} == pub;
    if owner in st.publicHomes {
      assert st.publicHomes[owner := pub] == st.publicHomes;
    } else {
      assert pub == map[];
      assert mid.publicHomes - {owner} == st.publicHomes;
    }
  }

  /** Public, under the owner name the entry had, undoes private. */
  lemma PrivateThenPublicRestores(st: HomeState, owner: PlayerId, ownerName: string, name: string)
    requires Consistent(st)
    requires SetPrivateStep(st, owner, name).outcome == Done
    requires st.publicHomes[owner][name].ownerName == ownerName
    ensures SetPublicStep(SetPrivateStep(st, owner, name).state, owner, ownerName, name) == HomeResult(Done, st)
  {
    assert OwnerConsistent(st, owner);
    var pub := st.publicHomes[owner];
    var mid := SetPrivateStep(st, owner, name).state;
    assert Inner(mid.publicHomes, owner) == pub - {name};
    assert (pub - {name})[name := PublicHomeInfo(owner, ownerName, name)] == pub;
  }

  // ---------------------------------------------------------------------
  // The invariant

  lemma SetHomeKeepsConsistent(st: HomeState, owner: PlayerId, name: string, position: Position, maxHomes: int)
    requires Consistent(st)
    ensures Consistent(SetHomeStep(st, owner, name, position, maxHomes).state)
  {
    assert OwnerConsistent(st, owner);
    var r := SetHomeStep(st, owner, name, position, maxHomes);
    var homes := Inner(st.homes, owner);
    assert forall n | n in homes :: n in r.state.homes[owner];
    assert SharesValid(r.state.homes[owner]) by {
      forall n | n in r.state.homes[owner]
        ensures NoDuplicates(r.state.homes[owner][n].sharedPlayers)
      {
        if n in homes && (r.outcome != Done || n != name) {
          assert r.state.homes[owner][n] == homes[n];
        }
      }
    }
    OwnerChangeKeepsConsistent(st, r.state, owner);
  }

  lemma RemoveHomeKeepsConsistent(st: HomeState, owner: PlayerId, name: string)
    requires Consistent(st)
    ensures Consistent(RemoveHomeStep(st, owner, name).state)
  {
    if HasHome(st, owner, name) {
      assert OwnerConsistent(st, owner);
      var r := RemoveHomeStep(st, owner, name);
      var homes := st.homes[owner];
      if owner in r.state.publicHomes {
        var pub := r.state.publicHomes[owner];
        assert pub == st.publicHomes[owner] - {name};
        var n :| n in pub;
        assert n in homes - {name};
        assert r.state.homes[owner] == homes - {name};
      }
      OwnerChangeKeepsConsistent(st, r.state, owner);
    }
  }

  lemma RenameHomeKeepsConsistent(st: HomeState, owner: PlayerId, oldName: string, newName: string)
    requires Consistent(st)
    ensures Consistent(RenameHomeStep(st, owner, oldName, newName).state)
  {
    var r := RenameHomeStep(st, owner, oldName, newName);
    if r.outcome == Done {
      assert OwnerConsistent(st, owner);
      var homes := st.homes[owner];
      var renamed := r.state.homes[owner];
      assert renamed == (homes - {oldName})[newName := homes[oldName]];
      assert SharesValid(renamed) by {
        forall n | n in renamed
          ensures NoDuplicates(renamed[n].sharedPlayers)
        {
          if n != newName {
            assert renamed[n] == homes[n];
          }
        }
      }
      if owner in st.publicHomes {
        var pub := st.publicHomes[owner];
        var pub' := r.state.publicHomes[owner];
        assert PublicIndexValid(renamed, pub', owner) by {
          forall n | n in pub'
            ensures n in renamed && pub'[n].ownerUuid == owner && pub'[n].homeName == n
          {
            if n != newName {
              assert n in pub && n != oldName;
            }
          }
        }
        if oldName in pub {
          assert newName in pub';
        } else {
          assert pub' == pub;
        }
      }
      assert OwnerConsistent(r.state, owner);
      assert OthersUnchanged(st, r.state, owner);
      OwnerChangeKeepsConsistent(st, r.state, owner);
    }
  }

  /** Replacing a home by one whose share list has no duplicates keeps the
      invariant. */
  lemma UpdateHomeKeepsConsistent(st: HomeState, owner: PlayerId, name: string, home: Home)
    requires Consistent(st) && HasHome(st, owner, name) && NoDuplicates(home.sharedPlayers)
    ensures Consistent(UpdateHome(st, owner, name, home))
  {
    assert OwnerConsistent(st, owner);
    var st' := UpdateHome(st, owner, name, home);
    assert SharesValid(st'.homes[owner]) by {
      forall n | n in st'.homes[owner]
        ensures NoDuplicates(st'.homes[owner][n].sharedPlayers)
      {
        if n != name {
          assert st'.homes[owner][n] == st.homes[owner][n];
        }
      }
    }
    OwnerChangeKeepsConsistent(st, st', owner);
  }

  lemma ShareKeepsConsistent(st: HomeState, owner: PlayerId, name: string, target: PlayerId)
    requires Consistent(st)
    ensures Consistent(ShareHomeStep(st, owner, name, target).state)
  {
    if HasHome(st, owner, name) {
      assert OwnerConsistent(st, owner);
      var home := st.homes[owner][name];
      if target !in home.sharedPlayers {
        AppendNoDuplicates(home.sharedPlayers, target);
        UpdateHomeKeepsConsistent(st, owner, name, home.(sharedPlayers := home.sharedPlayers + [target]));
      }
    }
  }

  lemma UnshareKeepsConsistent(st: HomeState, owner: PlayerId, name: string, who: Option<string>,
                               profiles: map<string, PlayerId>)
    requires Consistent(st)
    ensures Consistent(UnshareHomeStep(st, owner, name, who, profiles).state)
  {
    if HasHome(st, owner, name) {
      assert OwnerConsistent(st, owner);
      var home := st.homes[owner][name];
      if who.None? {
        if home.sharedPlayers != [] {
          UpdateHomeKeepsConsistent(st, owner, name, home.(sharedPlayers := []));
        }
      } else if who.value in profiles && profiles[who.value] in home.sharedPlayers {
        RemoveFirstNoDuplicates(home.sharedPlayers, profiles[who.value]);
        UpdateHomeKeepsConsistent(st, owner, name, home.(sharedPlayers := RemoveFirst(home.sharedPlayers, profiles[who.value])));
      }
    }
  }

  lemma SetPublicKeepsConsistent(st: HomeState, owner: PlayerId, ownerName: string, name: string)
    requires Consistent(st)
    ensures Consistent(SetPublicStep(st, owner, ownerName, name).state)
  {
    var r := SetPublicStep(st, owner, ownerName, name);
    if r.outcome == Done {
      assert OwnerConsistent(st, owner);
      var pub' := r.state.publicHomes[owner];
      assert PublicIndexValid(st.homes[owner], pub', owner) by {
        forall n | n in pub'
          ensures n in st.homes[owner] && pub'[n].ownerUuid == owner && pub'[n].homeName == n
        {
          if n != name {
            assert n in st.publicHomes[owner];
          }
        }
      }
      OwnerChangeKeepsConsistent(st, r.state, owner);
    }
  }

  lemma SetPrivateKeepsConsistent(st: HomeState, owner: PlayerId, name: string)
    requires Consistent(st)
    ensures Consistent(SetPrivateStep(st, owner, name).state)
  {
    var r := SetPrivateStep(st, owner, name);
    if r.outcome == Done {
      assert OwnerConsistent(st, owner);
      OwnerChangeKeepsConsistent(st, r.state, owner);
    }
  }

  // ---------------------------------------------------------------------
  // Visiting homes

  /** The first index of ':' in s. */
  function IndexOfColon(s: string): (r: Option<nat>)
    ensures r.None? <==> ':' !in s
    ensures r.Some? ==> r.value < |s| && s[r.value] == ':' && ':' !in s[..r.value]
  {
    if s == [] then None
    else if s[0] == ':' then Some(0)
    else match IndexOfColon(s[1..])
      case None => None
      case Some(i) =>
        assert s[..i + 1] == [s[0]] + s[1..][..i];
        Some(i + 1)
  }

  /** `homeArg.split(":", 2)` when it yields two parts: the text before the
      first ':' and everything after it, either possibly empty. */
  function SplitOwnerHome(arg: string): (r: Option<(string, string)>)
    ensures r.None? <==> ':' !in arg
    ensures r.Some? ==> arg == r.value.0 + ":" + r.value.1 && ':' !in r.value.0
  {
    match IndexOfColon(arg)
    case None => None
    case Some(i) =>
      assert arg == arg[..i] + [':'] + arg[i + 1..];
      Some((arg[..i], arg[i + 1..]))
  }

  /** The split inverts joining an owner name (which has no ':') to a home name. */
  lemma SplitJoinRoundTrip(ownerName: string, homeName: string)
    requires ':' !in ownerName
    ensures SplitOwnerHome(ownerName + ":" + homeName) == Some((ownerName, homeName))
  {
    var arg := ownerName + ":" + homeName;
    assert arg[|ownerName|] == ':';
    var i := IndexOfColon(arg).value;
    assert i == |ownerName|;
    assert arg[..i] == ownerName;
    assert arg[i + 1..] == homeName;
  }

  /** A visitor may use another player's home exactly when it exists and is
      public or shared with the visitor. */
  predicate CanVisit(st: HomeState, visitor: PlayerId, owner: PlayerId, name: string)
  {
    HasHome(st, owner, name) && (IsPublic(st, owner, name) || visitor in st.homes[owner][name].sharedPlayers)
  }

  /** Where `teleportToOtherHome` would take the player, or why it refuses:
      the argument is split, the owner looked up by name, then existence,
      access and the dimension are checked in that order. */
  function VisitTarget(st: HomeState, player: PlayerId, arg: string, loaded: set<Dimension>,
                       profiles: map<string, PlayerId>): (o: HomeOutcome)
    ensures o.Teleported? || o in {InvalidFormat, NotAccessible, HomeInvalidDimension}
  {
    match SplitOwnerHome(arg)
    case None => InvalidFormat
    case Some((ownerName, homeName)) =>
      if ownerName !in profiles then NotAccessible
      else
        var owner := profiles[ownerName];
        var isPublic := IsPublic(st, owner, homeName);
        if !HasHome(st, owner, homeName) then NotAccessible
        else
          var home := st.homes[owner][homeName];
          if !isPublic && player !in home.sharedPlayers then NotAccessible
          else if home.position.dimension !in loaded then HomeInvalidDimension
          else Teleported(home.position)
  }

  /** Visiting succeeds exactly for a well-formed argument naming a known
      player's home that the visitor may use and whose dimension is loaded. */
  lemma VisitSucceedsIff(st: HomeState, player: PlayerId, ownerName: string, homeName: string,
                         loaded: set<Dimension>, profiles: map<string, PlayerId>)
    requires ':' !in ownerName
    ensures var o := VisitTarget(st, player, ownerName + ":" + homeName, loaded, profiles);
            o.Teleported? <==>
              ownerName in profiles && CanVisit(st, player, profiles[ownerName], homeName)
              && st.homes[profiles[ownerName]][homeName].position.dimension in loaded
    ensures var o := VisitTarget(st, player, ownerName + ":" + homeName, loaded, profiles);
            o.Teleported? ==> o.destination == st.homes[profiles[ownerName]][homeName].position
  {
    SplitJoinRoundTrip(ownerName, homeName);
  }

  /** An argument without ':' is reported as malformed. */
  lemma VisitNeedsColon(st: HomeState, player: PlayerId, arg: string, loaded: set<Dimension>,
                        profiles: map<string, PlayerId>)
    requires ':' !in arg
    ensures VisitTarget(st, player, arg, loaded, profiles) == InvalidFormat
  {
  }

  /** The rotations exchanged: `teleportTo` takes the yaw before the pitch,
      and the visiting code passes the stored pitch first. */
  function SwapRotation(p: Position): (q: Position)
    ensures q.dimension == p.dimension && q.x == p.x && q.y == p.y && q.z == p.z
    ensures q.yRot == p.xRot && q.xRot == p.yRot
  {
    p.(yRot := p.xRot, xRot := p.yRot)
  }

  /** What visiting does as written: on success the spot the player left goes
      to the registry's own `lastPositions` map, which nothing reads, the
      `/back` store is untouched, and the player arrives with pitch and yaw
      exchanged. */
  datatype VisitResult = VisitResult(outcome: HomeOutcome, backs: map<PlayerId, Position>, lastPositions: map<PlayerId, Position>)

  function VisitAsWritten(st: HomeState, backs: map<PlayerId, Position>, lastPositions: map<PlayerId, Position>,
                          player: PlayerId, arg: string, current: Position, loaded: set<Dimension>,
                          profiles: map<string, PlayerId>): (r: VisitResult)
    ensures r.backs == backs
  {
    match VisitTarget(st, player, arg, loaded, profiles)
    case Teleported(destination) =>
      VisitResult(Teleported(SwapRotation(destination)), backs, lastPositions[player := current])
    case failure => VisitResult(failure, backs, lastPositions)
  }

  datatype TeleportResult = TeleportResult(outcome: HomeOutcome, backs: map<PlayerId, Position>)

  /** Visiting as intended: the spot left is recorded for `/back`, as every
      other teleport of the plugin does, and the home's facing is kept. */
  function VisitStep(st: HomeState, backs: map<PlayerId, Position>, player: PlayerId, arg: string,
                     current: Position, loaded: set<Dimension>, profiles: map<string, PlayerId>): (r: TeleportResult)
    ensures r.outcome == VisitTarget(st, player, arg, loaded, profiles)
    ensures r.outcome.Teleported? ==> r.backs == Record(backs, player, current)
    ensures !r.outcome.Teleported? ==> r.backs == backs
  {
    var o := VisitTarget(st, player, arg, loaded, profiles);
    if o.Teleported? then TeleportResult(o, Record(backs, player, current)) else TeleportResult(o, backs)
  }

  /** `teleportToHome`: the player's own home of that name wins; otherwise the
      argument is read as `owner:home`. */
  function TeleportHomeStep(st: HomeState, backs: map<PlayerId, Position>, player: PlayerId, arg: string,
                            current: Position, loaded: set<Dimension>, profiles: map<string, PlayerId>): (r: TeleportResult)
  {
    if HasHome(st, player, arg) then
      var home := st.homes[player][arg];
      if home.position.dimension !in loaded then TeleportResult(HomeInvalidDimension, backs)
      else TeleportResult(Teleported(home.position), Record(backs, player, current))
    else VisitStep(st, backs, player, arg, current, loaded, profiles)
  }

  /** Every successful `/home` can be undone with `/back`, and a failed one
      leaves the `/back` store alone. */
  lemma HomeThenBackReturns(st: HomeState, backs: map<PlayerId, Position>, player: PlayerId, arg: string,
                            current: Position, loaded: set<Dimension>, profiles: map<string, PlayerId>)
    requires current.dimension in loaded
    ensures var r := TeleportHomeStep(st, backs, player, arg, current, loaded, profiles);
            (r.outcome.Teleported? ==> BackStep(r.backs, player, r.outcome.destination, loaded).outcome == Returned(current))
            && (!r.outcome.Teleported? ==> r.backs == backs)
  {
  }

  /** As written, a visit to another player's home cannot be undone with
      `/back` (starting from an empty `/back` store), and a home saved with
      different yaw and pitch is arrived at facing another way; the corrected
      visit lands on the saved position and `/back` returns from it. */
  lemma VisitAsWrittenLosesBackAndFacing(st: HomeState, player: PlayerId, ownerName: string, homeName: string,
                                         current: Position, loaded: set<Dimension>, profiles: map<string, PlayerId>)
    requires ':' !in ownerName && ownerName in profiles
    requires CanVisit(st, player, profiles[ownerName], homeName)
    requires st.homes[profiles[ownerName]][homeName].position.dimension in loaded
    requires current.dimension in loaded
    ensures var saved := st.homes[profiles[ownerName]][homeName].position;
            var w := VisitAsWritten(st, map[], map[], player, ownerName + ":" + homeName, current, loaded, profiles);
            var c := VisitStep(st, map[], player, ownerName + ":" + homeName, current, loaded, profiles);
            w.outcome == Teleported(SwapRotation(saved))
            && (saved.yRot != saved.xRot ==> w.outcome.destination != saved)
            && BackStep(w.backs, player, w.outcome.destination, loaded).outcome == NoPosition
            && c.outcome == Teleported(saved)
            && BackStep(c.backs, player, saved, loaded).outcome == Returned(current)
  {
    VisitSucceedsIff(st, player, ownerName, homeName, loaded, profiles);
  }

  // ---------------------------------------------------------------------
  // The registry

  class HomeRegistry {
    var playerHomes: map<PlayerId, map<string, Home>>
    var publicHomesByOwner: map<PlayerId, map<string, PublicHomeInfo>>

    function State(): HomeState
      reads this
    {
      HomeState(playerHomes, publicHomesByOwner)
    }

    ghost predicate Valid()
      reads this
    {
      Consistent(State())
    }

    constructor ()
      ensures Valid() && State() == HomeState(map[], map[])
    {
      playerHomes := map[];
      publicHomesByOwner := map[];
    }

    /** `setHome`; `maxHomes` is the configured limit. */
    method SetHome(owner: PlayerId, name: string, position: Position, maxHomes: int) returns (outcome: HomeOutcome)
      requires Valid()
      modifies this
      ensures Valid()
      ensures SetHomeStep(old(State()), owner, name, position, maxHomes) == HomeResult(outcome, State())
    {
      SetHomeKeepsConsistent(State(), owner, name, position, maxHomes);
      var before := playerHomes;
      var homes := if owner in before then before[owner] else map[];
      playerHomes := before[owner := homes];
      if |homes| >= maxHomes {
        return HomeLimitReached;
      }
      if name in homes {
        return NameExists;
      }
      playerHomes := before[owner := homes[name := Home(position, [])]];
      outcome := Done;
    }

    /** `removeHome`. */
    method RemoveHome(owner: PlayerId, name: string) returns (outcome: HomeOutcome)
      requires Valid()
      modifies this
      ensures Valid()
      ensures RemoveHomeStep(old(State()), owner, name) == HomeResult(outcome, State())
    {
      RemoveHomeKeepsConsistent(State(), owner, name);
      if owner !in playerHomes || name !in playerHomes[owner] {
        return HomeNotFound;
      }
      var homes := playerHomes[owner] - {name};
      if owner in publicHomesByOwner {
        var ownerPublic := publicHomesByOwner[owner] - {name};
        if ownerPublic == map[] {
          publicHomesByOwner := publicHomesByOwner - {owner};
        } else {
          publicHomesByOwner := publicHomesByOwner[owner := ownerPublic];
        }
      }
      if homes == map[] {
        playerHomes := playerHomes - {owner};
      } else {
        playerHomes := playerHomes[owner := homes];
      }
      outcome := Done;
    }

    /** `renameHome`. */
    method RenameHome(owner: PlayerId, oldName: string, newName: string) returns (outcome: HomeOutcome)
      requires Valid()
      modifies this
      ensures Valid()
      ensures RenameHomeStep(old(State()), owner, oldName, newName) == HomeResult(outcome, State())
    {
      RenameHomeKeepsConsistent(State(), owner, oldName, newName);
      if owner !in playerHomes || oldName !in playerHomes[owner] {
        return HomeNotFound;
      }
      var homes := playerHomes[owner];
      if newName in homes {
        return NameExists;
      }
      var home := homes[oldName];
      playerHomes := playerHomes[owner := (homes - {oldName})[newName := home]];
      if owner in publicHomesByOwner && oldName in publicHomesByOwner[owner] {
        var ownerPublic := publicHomesByOwner[owner];
        var info := ownerPublic[oldName];
        publicHomesByOwner := publicHomesByOwner[owner := (ownerPublic - {oldName})[newName := PublicHomeInfo(info.ownerUuid, info.ownerName, newName)]];
      }
      outcome := Done;
    }

    /** `shareHome`. */
    method ShareHome(owner: PlayerId, name: string, target: PlayerId) returns (outcome: HomeOutcome)
      requires Valid()
      modifies this
      ensures Valid()
      ensures ShareHomeStep(old(State()), owner, name, target) == HomeResult(outcome, State())
    {
      ShareKeepsConsistent(State(), owner, name, target);
      if owner !in playerHomes || name !in playerHomes[owner] {
        return HomeNotFound;
      }
      var home := playerHomes[owner][name];
      if target in home.sharedPlayers {
        return AlreadyShared;
      }
      playerHomes := playerHomes[owner := playerHomes[owner][name := home.(sharedPlayers := home.sharedPlayers + [target])]];
      outcome := Done;
    }

    /** `unshareHome`; `profiles` is the server's name-to-id profile cache. */
    method UnshareHome(owner: PlayerId, name: string, who: Option<string>, profiles: map<string, PlayerId>)
      returns (outcome: HomeOutcome)
      requires Valid()
      modifies this
      ensures Valid()
      ensures UnshareHomeStep(old(State()), owner, name, who, profiles) == HomeResult(outcome, State())
    {
      UnshareKeepsConsistent(State(), owner, name, who, profiles);
      if owner !in playerHomes || name !in playerHomes[owner] {
        return HomeNotFound;
      }
      var home := playerHomes[owner][name];
      if who.None? {
        if home.sharedPlayers == [] {
          return NotSharedWithAnyone;
        }
        playerHomes := playerHomes[owner := playerHomes[owner][name := home.(sharedPlayers := [])]];
        return Done;
      }
      if who.value !in profiles {
        return PlayerNotFound;
      }
      var targetId := profiles[who.value];
      if targetId !in home.sharedPlayers {
        return NotShared;
      }
      var rest := RemoveFirst(home.sharedPlayers, targetId);
      playerHomes := playerHomes[owner := playerHomes[owner][name := home.(sharedPlayers := rest)]];
      outcome := Done;
    }

    /** `setPublicHome`; `ownerName` is the owner's current name. */
    method SetPublicHome(owner: PlayerId, ownerName: string, name: string) returns (outcome: HomeOutcome)
      requires Valid()
      modifies this
      ensures Valid()
      ensures SetPublicStep(old(State()), owner, ownerName, name) == HomeResult(outcome, State())
    {
      SetPublicKeepsConsistent(State(), owner, ownerName, name);
      if owner !in playerHomes || name !in playerHomes[owner] {
        return HomeNotFound;
      }
      if owner in publicHomesByOwner && name in publicHomesByOwner[owner] {
        return AlreadyPublic;
      }
      var ownerPublic := if owner in publicHomesByOwner then publicHomesByOwner[owner] else map[];
      publicHomesByOwner := publicHomesByOwner[owner := ownerPublic[name := PublicHomeInfo(owner, ownerName, name)]];
      outcome := Done;
    }

    /** `setPrivateHome`. */
    method SetPrivateHome(owner: PlayerId, name: string) returns (outcome: HomeOutcome)
      requires Valid()
      modifies this
      ensures Valid()
      ensures SetPrivateStep(old(State()), owner, name) == HomeResult(outcome, State())
    {
      SetPrivateKeepsConsistent(State(), owner, name);
      if owner !in playerHomes || name !in playerHomes[owner] {
        return HomeNotFound;
      }
      if owner !in publicHomesByOwner || name !in publicHomesByOwner[owner] {
        return NotPublic;
      }
      var ownerPublic := publicHomesByOwner[owner] - {name};
      if ownerPublic == map[] {
        publicHomesByOwner := publicHomesByOwner - {owner};
      } else {
        publicHomesByOwner := publicHomesByOwner[owner := ownerPublic];
      }
      outcome := Done;
    }

    /** `teleportToHome` for a player standing at `current`; `back` is the
      `/back` store. */
    method TeleportToHome(player: PlayerId, arg: string, current: Position, loaded: set<Dimension>,
                          profiles: map<string, PlayerId>, back: BackStore) returns (outcome: HomeOutcome)
      requires Valid()
      modifies back
      ensures TeleportHomeStep(State(), old(back.previousPositions), player, arg, current, loaded, profiles)
              == TeleportResult(outcome, back.previousPositions)
    {
      if player in playerHomes && arg in playerHomes[player] {
        var home := playerHomes[player][arg];
        if home.position.dimension !in loaded {
          return HomeInvalidDimension;
        }
        back.RecordPosition(player, current);
        return Teleported(home.position);
      }
      outcome := VisitTarget(State(), player, arg, loaded, profiles);
      if outcome.Teleported? {
        back.RecordPosition(player, current);
      }
    }
  }
}
