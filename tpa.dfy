/** The teleport-request tracker: pending requests per target, the time of
    every sender's last request, the "do not disturb" flag, and the senders
    each player has locked out. */
module Tpa {
  import opened Common
  import opened Config
  import opened Back

  /** A pending request; `isTpHere` asks the target to come to the sender.
      `timestamp` is the wall clock in milliseconds when it was made. */
  datatype Request = Request(sender: PlayerId, target: PlayerId, isTpHere: bool, timestamp: int)

  /** The four maps of the tracker. */
  datatype TpaState = TpaState(
    requests: map<PlayerId, seq<Request>>,
    cooldowns: map<PlayerId, int>,
    toggles: map<PlayerId, bool>,
    locks: map<PlayerId, set<PlayerId>>)

  /** What every operation keeps: a listed target has at least one request,
      every request in a target's list is addressed to that target by somebody
      else, and nobody keeps an empty set of locked senders. */
  predicate WellFormed(st: TpaState)
  {
    (forall t | t in st.requests :: st.requests[t] != [])
    && (forall t | t in st.requests :: forall r | r in st.requests[t] :: r.target == t && r.sender != t)
    && (forall p | p in st.locks :: st.locks[p] != {})
  }

  /** The list `requests.get(target)` yields, with a missing list read as empty. */
  function Pending(reqs: map<PlayerId, seq<Request>>, target: PlayerId): (list: seq<Request>)
    ensures target !in reqs ==> list == []
    ensures target in reqs ==> list == reqs[target]
  {
    if target in reqs then reqs[target] else []
  }

  /** Writes a target's list back, dropping the key once the list is empty. */
  function StoreList(reqs: map<PlayerId, seq<Request>>, target: PlayerId, list: seq<Request>): (r: map<PlayerId, seq<Request>>)
    ensures list == [] ==> r == reqs - {target}
    ensures list != [] ==> r == reqs[target := list]
  {
    if list == [] then reqs - {target} else reqs[target := list]
  }

  // ---------------------------------------------------------------------
  // Sequences: removal at an index and order-keeping filters

  /** `list.remove(request)` of the request found at index i; requests are
      compared by identity, so exactly that occurrence goes. */
  function RemoveAt<T>(s: seq<T>, i: nat): (r: seq<T>)
    requires i < |s|
    ensures |r| == |s| - 1
    ensures forall j :: 0 <= j < i ==> r[j] == s[j]
    ensures forall j :: i <= j < |r| ==> r[j] == s[j + 1]
    ensures multiset(r) + multiset{s[i]} == multiset(s)
  {
    assert s == s[..i] + [s[i]] + s[i + 1..];
    s[..i] + s[i + 1..]
  }

  /** The requests of s that `keep` accepts, in their original order. */
  function Filter(s: seq<Request>, keep: Request -> bool): (r: seq<Request>)
    ensures |r| <= |s|
    ensures forall x :: x in r <==> x in s && keep(x)
  {
    if s == [] then []
    else
      var last := s[|s| - 1];
      Filter(s[..|s| - 1], keep) + (if keep(last) then [last] else [])
  }

  /** Filtering distributes over concatenation: kept requests stay in order. */
  lemma {:induction false} FilterAppend(a: seq<Request>, b: seq<Request>, keep: Request -> bool)
    ensures Filter(a + b, keep) == Filter(a, keep) + Filter(b, keep)
    decreases |b|
  {
    if b == [] {
      assert a + b == a;
    } else {
      var last := b[|b| - 1];
      assert (a + b)[..|a + b| - 1] == a + b[..|b| - 1];
      FilterAppend(a, b[..|b| - 1], keep);
    }
  }

  /** A filter that keeps everything returns the list unchanged. */
  lemma {:induction false} FilterKeepsAll(s: seq<Request>, keep: Request -> bool)
    requires forall x | x in s :: keep(x)
    ensures Filter(s, keep) == s
    decreases |s|
  {
    if s != [] {
      var init, last := s[..|s| - 1], s[|s| - 1];
      assert s == init + [last];
      assert forall x | x in init :: x in s;
      FilterKeepsAll(init, keep);
      assert keep(last);
    }
  }

  /** Filtering a second time with the same test removes nothing more. */
  lemma FilterIdempotent(s: seq<Request>, keep: Request -> bool)
    ensures Filter(Filter(s, keep), keep) == Filter(s, keep)
  {
    FilterKeepsAll(Filter(s, keep), keep);
  }

  /** The filter shortens the list exactly when some element fails the test. */
  lemma {:induction false} FilterShortensIff(s: seq<Request>, keep: Request -> bool)
    ensures |Filter(s, keep)| < |s| <==> exists x | x in s :: !keep(x)
    decreases |s|
  {
    if s != [] {
      var init := s[..|s| - 1];
      assert s == init + [s[|s| - 1]];
      FilterShortensIff(init, keep);
      assert forall x | x in init :: x in s;
    }
  }

  /** Filtering one more element of a prefix. */
  lemma FilterExtend(list: seq<Request>, i: int, keep: Request -> bool)
    requires 0 <= i < |list|
    ensures Filter(list[..i + 1], keep) == Filter(list[..i], keep) + (if keep(list[i]) then [list[i]] else [])
  {
    assert list[..i + 1][..i] == list[..i];
  }

  /** Some request of the list fails the test. */
  predicate Drops(list: seq<Request>, keep: Request -> bool)
  {
    exists r | r in list :: !keep(r)
  }

  /** Some list among those of `targets` drops a request. */
  predicate AnyDrops(reqs: map<PlayerId, seq<Request>>, targets: set<PlayerId>, keep: Request -> bool)
  {
    exists t | t in targets && t in reqs :: Drops(reqs[t], keep)
  }

  lemma AnyDropsOneMore(reqs: map<PlayerId, seq<Request>>, targets: set<PlayerId>, t: PlayerId, keep: Request -> bool)
    requires t in reqs
    ensures AnyDrops(reqs, targets + {t}, keep) <==> AnyDrops(reqs, targets, keep) || Drops(reqs[t], keep)
  {
  }

  /** The iterator loop of `cancelTPARequest` and `tick` over one list: the
      kept requests in order, and whether any was removed. */
  method FilterList(list: seq<Request>, keep: Request -> bool) returns (kept: seq<Request>, removedAny: bool)
    ensures kept == Filter(list, keep)
    ensures removedAny <==> Drops(list, keep)
  {
    kept := [];
    removedAny := false;
    var i := 0;
    while i < |list|
      invariant 0 <= i <= |list|
      invariant kept == Filter(list[..i], keep)
      invariant removedAny <==> |kept| < i
    {
      FilterExtend(list, i, keep);
      if keep(list[i]) {
        kept := kept + [list[i]];
      } else {
        removedAny := true;
      }
      i := i + 1;
    }
    assert list[..i] == list;
    FilterShortensIff(list, keep);
  }

  /** Every list of the map filtered, and the emptied lists dropped. */
  function FilterAll(reqs: map<PlayerId, seq<Request>>, keep: Request -> bool): (r: map<PlayerId, seq<Request>>)
    ensures forall t :: t in r <==> t in reqs && Filter(reqs[t], keep) != []
    ensures forall t | t in r :: r[t] == Filter(reqs[t], keep)
  {
    map t | t in reqs && Filter(reqs[t], keep) != [] :: Filter(reqs[t], keep)
  }

  /** The map without its empty lists. */
  function DropEmpty(reqs: map<PlayerId, seq<Request>>): (r: map<PlayerId, seq<Request>>)
    ensures forall t :: t in r <==> t in reqs && reqs[t] != []
    ensures forall t | t in r :: r[t] == reqs[t]
  {
    map t | t in reqs && reqs[t] != [] :: reqs[t]
  }

  /** Filtering every list and then dropping the empty ones is `FilterAll`. */
  lemma PruneAfterFilter(before: map<PlayerId, seq<Request>>, after: map<PlayerId, seq<Request>>, keep: Request -> bool)
    requires after.Keys == before.Keys
    requires forall t | t in after :: after[t] == Filter(before[t], keep)
    ensures DropEmpty(after) == FilterAll(before, keep)
  {
    var pruned := DropEmpty(after);
    assert pruned.Keys == FilterAll(before, keep).Keys;
  }

  // ---------------------------------------------------------------------
  // Sending

  datatype SendOutcome =
    | Sent
    | SelfTarget
    | OnCooldown(remainingSeconds: int)
    | TargetDead
    | TargetToggledOff
    | SenderLocked

  datatype SendResult = SendResult(outcome: SendOutcome, state: TpaState)

  /** The sender made a request less than `cooldownMs` ago. */
  predicate CooldownBlocks(cooldowns: map<PlayerId, int>, sender: PlayerId, now: int, cooldownMs: int)
  {
    sender in cooldowns && now - cooldowns[sender] < cooldownMs
  }

  /** The target has locked the sender out. */
  predicate LockedOut(locks: map<PlayerId, set<PlayerId>>, target: PlayerId, sender: PlayerId)
  {
    target in locks && sender in locks[target]
  }

  /** `sendTPARequest`: the checks in the order the command makes them, then
      the request appended to the target's list and the cooldown stamped. */
  function SendStep(st: TpaState, sender: PlayerId, target: PlayerId, isTpHere: bool,
                    now: int, cooldownMs: int, alive: set<PlayerId>): (r: SendResult)
  {
    if sender == target then SendResult(SelfTarget, st)
    else if CooldownBlocks(st.cooldowns, sender, now, cooldownMs) then
      SendResult(OnCooldown(JavaDiv(cooldownMs - (now - st.cooldowns[sender]), 1000)), st)
    else if target !in alive then SendResult(TargetDead, st)
    else if FlagOf(st.toggles, target) then SendResult(TargetToggledOff, st)
    else if LockedOut(st.locks, target, sender) then SendResult(SenderLocked, st)
    else
      var request := Request(sender, target, isTpHere, now);
      SendResult(Sent, st.(requests := st.requests[target := Pending(st.requests, target) + [request]],
                           cooldowns := st.cooldowns[sender := now]))
  }

  /** A send succeeds exactly when every check passes. */
  lemma SendSucceedsIff(st: TpaState, sender: PlayerId, target: PlayerId, isTpHere: bool,
                        now: int, cooldownMs: int, alive: set<PlayerId>)
    ensures SendStep(st, sender, target, isTpHere, now, cooldownMs, alive).outcome == Sent
            <==> sender != target && !CooldownBlocks(st.cooldowns, sender, now, cooldownMs)
                 && target in alive && !FlagOf(st.toggles, target) && !LockedOut(st.locks, target, sender)
  {
  }

  /** The checks run in a fixed order: each failure is reported only when all
      the earlier checks passed. */
  lemma SendCheckOrder(st: TpaState, sender: PlayerId, target: PlayerId, isTpHere: bool,
                       now: int, cooldownMs: int, alive: set<PlayerId>)
    ensures var o := SendStep(st, sender, target, isTpHere, now, cooldownMs, alive).outcome;
            (o == SelfTarget <==> sender == target)
            && (o.OnCooldown? <==> sender != target && CooldownBlocks(st.cooldowns, sender, now, cooldownMs))
            && (o == TargetDead <==> sender != target && !CooldownBlocks(st.cooldowns, sender, now, cooldownMs)
                                     && target !in alive)
            && (o == TargetToggledOff <==> sender != target && !CooldownBlocks(st.cooldowns, sender, now, cooldownMs)
                                           && target in alive && FlagOf(st.toggles, target))
            && (o == SenderLocked <==> sender != target && !CooldownBlocks(st.cooldowns, sender, now, cooldownMs)
                                       && target in alive && !FlagOf(st.toggles, target)
                                       && LockedOut(st.locks, target, sender))
  {
  }

  /** A refused send changes none of the four maps. */
  lemma SendFailureChangesNothing(st: TpaState, sender: PlayerId, target: PlayerId, isTpHere: bool,
                                  now: int, cooldownMs: int, alive: set<PlayerId>)
    requires SendStep(st, sender, target, isTpHere, now, cooldownMs, alive).outcome != Sent
    ensures SendStep(st, sender, target, isTpHere, now, cooldownMs, alive).state == st
  {
  }

  /** A successful send appends exactly one request at the end of the
      target's list and stamps the sender's cooldown; nothing else changes. */
  lemma SendSuccessAppends(st: TpaState, sender: PlayerId, target: PlayerId, isTpHere: bool,
                           now: int, cooldownMs: int, alive: set<PlayerId>)
    requires SendStep(st, sender, target, isTpHere, now, cooldownMs, alive).outcome == Sent
    ensures var st' := SendStep(st, sender, target, isTpHere, now, cooldownMs, alive).state;
            st'.requests.Keys == st.requests.Keys + {target}
            && st'.requests[target] == Pending(st.requests, target) + [Request(sender, target, isTpHere, now)]
            && (forall t | t in st.requests && t != target :: st'.requests[t] == st.requests[t])
            && st'.cooldowns == st.cooldowns[sender := now]
            && st'.toggles == st.toggles && st'.locks == st.locks
  {
  }

  /** The remaining time reported on a cooldown is the whole number of seconds
      left, rounded down: the truncating division of the source sees only a
      positive dividend here. */
  lemma CooldownRemainingSeconds(st: TpaState, sender: PlayerId, target: PlayerId, isTpHere: bool,
                                 now: int, cooldownMs: int, alive: set<PlayerId>)
    requires SendStep(st, sender, target, isTpHere, now, cooldownMs, alive).outcome.OnCooldown?
    ensures var k := SendStep(st, sender, target, isTpHere, now, cooldownMs, alive).outcome.remainingSeconds;
            var left := cooldownMs - (now - st.cooldowns[sender]);
            0 <= k && k * 1000 <= left < k * 1000 + 1000
  {
  }

  /** Right after a successful send, another send by the same player is held
      back by a positive cooldown. */
  lemma SendStartsCooldown(st: TpaState, sender: PlayerId, target: PlayerId, other: PlayerId, isTpHere: bool,
                           now: int, cooldownMs: int, alive: set<PlayerId>)
    requires cooldownMs > 0 && sender != other
    requires SendStep(st, sender, target, isTpHere, now, cooldownMs, alive).outcome == Sent
    ensures var st' := SendStep(st, sender, target, isTpHere, now, cooldownMs, alive).state;
            SendStep(st', sender, other, isTpHere, now, cooldownMs, alive).outcome.OnCooldown?
  {
  }

  /** Sending keeps the tracker well formed. */
  lemma SendPreservesWellFormed(st: TpaState, sender: PlayerId, target: PlayerId, isTpHere: bool,
                                now: int, cooldownMs: int, alive: set<PlayerId>)
    requires WellFormed(st)
    ensures WellFormed(SendStep(st, sender, target, isTpHere, now, cooldownMs, alive).state)
  {
  }

  // ---------------------------------------------------------------------
  // Choosing the request to accept or deny

  datatype Selection = NoPendingRequest | NoRequestFromSender | Selected(index: nat)

  /** `stream().filter(sender matches).findFirst()`: the first index whose
      request comes from `sender`. */
  function FirstFrom(list: seq<Request>, sender: PlayerId): (r: Option<nat>)
    ensures r.Some? ==> r.value < |list| && list[r.value].sender == sender
    ensures r.Some? ==> forall j :: 0 <= j < r.value ==> list[j].sender != sender
    ensures r.None? ==> forall j :: 0 <= j < |list| ==> list[j].sender != sender
  {
    if list == [] then None
    else if list[0].sender == sender then Some(0)
    else match FirstFrom(list[1..], sender)
      case None => None
      case Some(i) => Some(i + 1)
  }

  /** The request `/tpaccept` and `/tpadeny` act on: the last one when no
      sender is named, otherwise the first one from the named sender. */
  function Select(reqs: map<PlayerId, seq<Request>>, target: PlayerId, from: Option<PlayerId>): (s: Selection)
    ensures s.Selected? ==> s.index < |Pending(reqs, target)|
  {
    var list := Pending(reqs, target);
    if list == [] then NoPendingRequest
    else match from
      case None => Selected(|list| - 1)
      case Some(sender) =>
        match FirstFrom(list, sender)
        case None => NoRequestFromSender
        case Some(i) => Selected(i)
  }

  /** Without a name the latest request wins; with a name the earliest
      request from that player wins, and there is none exactly when that
      player has no pending request to this target. */
  lemma SelectRule(reqs: map<PlayerId, seq<Request>>, target: PlayerId, from: Option<PlayerId>)
    ensures var list := Pending(reqs, target);
            var s := Select(reqs, target, from);
            (s == NoPendingRequest <==> list == [])
            && (list != [] && from.None? ==> s == Selected(|list| - 1))
            && (list != [] && from.Some? ==>
                  (s == NoRequestFromSender <==> forall r | r in list :: r.sender != from.value))
            && (from.Some? && s.Selected? ==>
                  list[s.index].sender == from.value
                  && forall j :: 0 <= j < s.index ==> list[j].sender != from.value)
  {
    var list := Pending(reqs, target);
    if list != [] && from.Some? && Select(reqs, target, from) == NoRequestFromSender {
      forall r | r in list
        ensures r.sender != from.value
      {
        var j :| 0 <= j < |list| && list[j] == r;
      }
    }
  }

  /** The state after the selected request is taken out of the target's list. */
  function Resolve(st: TpaState, target: PlayerId, index: nat): (st': TpaState)
    requires index < |Pending(st.requests, target)|
  {
    st.(requests := StoreList(st.requests, target, RemoveAt(Pending(st.requests, target), index)))
  }

  /** Taking one request out removes exactly that occurrence and drops an
      emptied list; every other target, the cooldowns, the flags and the locks
      are untouched. */
  lemma ResolveRemovesExactlyOne(st: TpaState, target: PlayerId, index: nat)
    requires index < |Pending(st.requests, target)|
    ensures var list := Pending(st.requests, target);
            var st' := Resolve(st, target, index);
            multiset(Pending(st'.requests, target)) + multiset{list[index]} == multiset(list)
            && (target in st'.requests <==> |list| > 1)
            && (forall t | t != target :: t in st'.requests <==> t in st.requests)
            && (forall t | t in st.requests && t != target :: st'.requests[t] == st.requests[t])
            && st'.cooldowns == st.cooldowns && st'.toggles == st.toggles && st'.locks == st.locks
  {
  }

  /** Resolving a request keeps the tracker well formed. */
  lemma ResolvePreservesWellFormed(st: TpaState, target: PlayerId, index: nat)
    requires WellFormed(st) && index < |Pending(st.requests, target)|
    ensures WellFormed(Resolve(st, target, index))
  {
    var rest := RemoveAt(Pending(st.requests, target), index);
    assert forall r | r in rest :: r in Pending(st.requests, target);
  }

  // ---------------------------------------------------------------------
  // Accepting and denying

  datatype AcceptOutcome =
    | AcceptFailed(reason: Selection)
    | SenderDead(request: Request)
    | Accepted(request: Request, mover: PlayerId, destination: Position)

  /** What `/tpaccept` reports, the tracker after it and the `/back` store. */
  datatype AcceptResult = AcceptResult(outcome: AcceptOutcome, state: TpaState, backs: map<PlayerId, Position>)

  /** `acceptTPARequest`; `alive` is the set of living players and `positionOf`
      where each player stands before the teleport. The player who moves is
      the target of a tpahere request and the sender otherwise; that player's
      spot is recorded for `/back` before the move. */
  function AcceptStep(st: TpaState, backs: map<PlayerId, Position>, target: PlayerId, from: Option<PlayerId>,
                      alive: set<PlayerId>, positionOf: PlayerId -> Position): (r: AcceptResult)
  {
    match Select(st.requests, target, from)
    case NoPendingRequest => AcceptResult(AcceptFailed(NoPendingRequest), st, backs)
    case NoRequestFromSender => AcceptResult(AcceptFailed(NoRequestFromSender), st, backs)
    case Selected(i) =>
      var request := Pending(st.requests, target)[i];
      var st' := Resolve(st, target, i);
      if request.sender !in alive then AcceptResult(SenderDead(request), st', backs)
      else
        var mover := if request.isTpHere then target else request.sender;
        var anchor := if request.isTpHere then request.sender else target;
        AcceptResult(Accepted(request, mover, positionOf(anchor)), st', Record(backs, mover, positionOf(mover)))
  }

  /** Accepting removes the selected request whether or not its sender is
      still alive, and only an accepted request writes the `/back` store. */
  lemma AcceptRemovesSelected(st: TpaState, backs: map<PlayerId, Position>, target: PlayerId, from: Option<PlayerId>,
                              alive: set<PlayerId>, positionOf: PlayerId -> Position)
    ensures var r := AcceptStep(st, backs, target, from, alive, positionOf);
            var s := Select(st.requests, target, from);
            (r.outcome.AcceptFailed? <==> !s.Selected?)
            && (r.outcome.AcceptFailed? ==> r.state == st && r.backs == backs && r.outcome.reason == s)
            && (s.Selected? ==> r.state == Resolve(st, target, s.index)
                                && r.outcome.request == Pending(st.requests, target)[s.index])
            && (r.outcome.SenderDead? <==> s.Selected? && r.outcome.request.sender !in alive)
            && (r.outcome.SenderDead? ==> r.backs == backs)
  {
  }

  /** A successful accept moves the target for tpahere and the sender for tpa,
      to where the other player stands, after recording the mover's spot. */
  lemma AcceptMovesAndRecordsBack(st: TpaState, backs: map<PlayerId, Position>, target: PlayerId, from: Option<PlayerId>,
                                  alive: set<PlayerId>, positionOf: PlayerId -> Position)
    requires AcceptStep(st, backs, target, from, alive, positionOf).outcome.Accepted?
    ensures var r := AcceptStep(st, backs, target, from, alive, positionOf);
            var req := r.outcome.request;
            req.sender in alive
            && r.outcome.mover == (if req.isTpHere then target else req.sender)
            && r.outcome.destination == positionOf(if req.isTpHere then req.sender else target)
            && r.backs == Record(backs, r.outcome.mover, positionOf(r.outcome.mover))
  {
  }

  datatype DenyOutcome = DenyFailed(reason: Selection) | Denied(request: Request)

  datatype DenyResult = DenyResult(outcome: DenyOutcome, state: TpaState)

  /** `denyTPARequest`: the same selection as accept, then the request goes. */
  function DenyStep(st: TpaState, target: PlayerId, from: Option<PlayerId>): (r: DenyResult)
  {
    match Select(st.requests, target, from)
    case NoPendingRequest => DenyResult(DenyFailed(NoPendingRequest), st)
    case NoRequestFromSender => DenyResult(DenyFailed(NoRequestFromSender), st)
    case Selected(i) => DenyResult(Denied(Pending(st.requests, target)[i]), Resolve(st, target, i))
  }

  /** Denying removes exactly the selected request; a failed deny changes nothing. */
  lemma DenyRemovesSelected(st: TpaState, target: PlayerId, from: Option<PlayerId>)
    ensures var r := DenyStep(st, target, from);
            var s := Select(st.requests, target, from);
            (r.outcome.Denied? <==> s.Selected?)
            && (!s.Selected? ==> r.state == st && r.outcome == DenyFailed(s))
            && (s.Selected? ==> r.state == Resolve(st, target, s.index)
                                && r.outcome.request == Pending(st.requests, target)[s.index])
  {
  }

  /** A request just sent is the one a plain `/tpadeny` of its target takes
      back, and denying it restores the pending requests. */
  lemma SendThenDenyRestores(st: TpaState, sender: PlayerId, target: PlayerId, isTpHere: bool,
                                                now: int, cooldownMs: int, alive: set<PlayerId>)
    requires WellFormed(st)
    requires SendStep(st, sender, target, isTpHere, now, cooldownMs, alive).outcome == Sent
    ensures var st' := SendStep(st, sender, target, isTpHere, now, cooldownMs, alive).state;
            var d := DenyStep(st', target, None);
            d.outcome == Denied(Request(sender, target, isTpHere, now))
            && d.state.requests == st.requests
  {
    var req := Request(sender, target, isTpHere, now);
    var st' := SendStep(st, sender, target, isTpHere, now, cooldownMs, alive).state;
    assert st'.requests == st.requests[target := Pending(st.requests, target) + [req]];
    DenyAppendedRestores(st', st.requests, target, req);
  }

  /** A plain deny on a list that just had `req` appended takes `req` and
      leaves the lists as they were before the append. */
  lemma DenyAppendedRestores(st': TpaState, reqs: map<PlayerId, seq<Request>>, target: PlayerId, req: Request)
    requires forall t | t in reqs :: reqs[t] != []
    requires st'.requests == reqs[target := Pending(reqs, target) + [req]]
    ensures DenyStep(st', target, None).outcome == Denied(req)
    ensures DenyStep(st', target, None).state.requests == reqs
  {
    var prior := Pending(reqs, target);
    var list := prior + [req];
    assert Pending(st'.requests, target) == list;
    assert Select(st'.requests, target, None) == Selected(|list| - 1);
    assert RemoveAt(list, |list| - 1) == prior;
    var restored := StoreList(st'.requests, target, prior);
    assert restored == reqs by {
      if prior == [] {
        assert target !in reqs;
      }
    }
  }

  // ---------------------------------------------------------------------
  // Cancelling

  /** The requests `/tpacancel [target]` withdraws: those made by `sender`,
      and when a target is named only those addressed to it. */
  predicate CancelMatches(r: Request, sender: PlayerId, target: Option<PlayerId>)
  {
    r.sender == sender && (target.None? || r.target == target.value)
  }

  function CancelKeep(sender: PlayerId, target: Option<PlayerId>): Request -> bool
  {
    r => !CancelMatches(r, sender, target)
  }

  /** Some pending request matches. */
  predicate AnyMatch(reqs: map<PlayerId, seq<Request>>, sender: PlayerId, target: Option<PlayerId>)
  {
    exists t | t in reqs :: exists r | r in reqs[t] :: CancelMatches(r, sender, target)
  }

  datatype CancelResult = CancelResult(cancelled: bool, state: TpaState)

  /** `cancelTPARequest`: every matching request of every list goes, emptied
      lists are dropped, and the command fails when nothing matched. */
  function CancelStep(st: TpaState, sender: PlayerId, target: Option<PlayerId>): (r: CancelResult)
  {
    CancelResult(AnyMatch(st.requests, sender, target),
                 st.(requests := FilterAll(st.requests, CancelKeep(sender, target))))
  }

  /** After a cancel no matching request is left, every other request is kept
      in its list in its order, and only the request map changes. */
  lemma CancelRemovesExactlyMatching(st: TpaState, sender: PlayerId, target: Option<PlayerId>)
    ensures var st' := CancelStep(st, sender, target).state;
            (forall t | t in st'.requests :: forall r | r in st'.requests[t] :: !CancelMatches(r, sender, target))
            && (forall t, r | t in st.requests && r in st.requests[t] && !CancelMatches(r, sender, target) ::
                  t in st'.requests && r in st'.requests[t])
            && (forall t | t in st'.requests :: st'.requests[t] == Filter(st.requests[t], CancelKeep(sender, target)))
            && st'.cooldowns == st.cooldowns && st'.toggles == st.toggles && st'.locks == st.locks
  {
  }

  /** Cancel fails exactly when it finds nothing to remove, and then the
      tracker is left as it was. */
  lemma CancelFailsIffNothingRemoved(st: TpaState, sender: PlayerId, target: Option<PlayerId>)
    requires WellFormed(st)
    ensures var r := CancelStep(st, sender, target);
            (!r.cancelled <==> r.state == st)
  {
    var r := CancelStep(st, sender, target);
    var keep := CancelKeep(sender, target);
    if !r.cancelled {
      forall t | t in st.requests
        ensures Filter(st.requests[t], keep) == st.requests[t]
      {
        FilterKeepsAll(st.requests[t], keep);
      }
      assert r.state.requests == st.requests;
    } else {
      var t, x :| t in st.requests && x in st.requests[t] && CancelMatches(x, sender, target);
      FilterShortensIff(st.requests[t], keep);
      if t in r.state.requests {
        assert r.state.requests[t] != st.requests[t];
      }
    }
  }

  /** Cancelling keeps the tracker well formed. */
  lemma CancelPreservesWellFormed(st: TpaState, sender: PlayerId, target: Option<PlayerId>)
    requires WellFormed(st)
    ensures WellFormed(CancelStep(st, sender, target).state)
  {
  }

  // ---------------------------------------------------------------------
  // Expiry

  /** A request is expired once `thresholdMs` have passed since it was made. */
  predicate Expired(r: Request, now: int, thresholdMs: int)
  {
    now - r.timestamp >= thresholdMs
  }

  function LiveKeep(now: int, thresholdMs: int): Request -> bool
  {
    r => !Expired(r, now, thresholdMs)
  }

  /** `tick` as written: the threshold is the wrapped `int` product. */
  function TickAsWritten(reqs: map<PlayerId, seq<Request>>, now: int, timeoutTicks: int): (r: map<PlayerId, seq<Request>>)
    ensures forall t | t in r :: forall x | x in r[t] :: !Expired(x, now, TimeoutThresholdAsWritten(timeoutTicks))
  {
    FilterAll(reqs, LiveKeep(now, TimeoutThresholdAsWritten(timeoutTicks)))
  }

  /** `tick` with the threshold computed without overflow. */
  function TickStep(reqs: map<PlayerId, seq<Request>>, now: int, timeoutTicks: int): (r: map<PlayerId, seq<Request>>)
  {
    FilterAll(reqs, LiveKeep(now, TimeoutMs(timeoutTicks)))
  }

  /** Expiry removes exactly the timed-out requests, keeps the others in their
      lists in order, and drops the emptied lists. */
  lemma TickRemovesExactlyExpired(reqs: map<PlayerId, seq<Request>>, now: int, timeoutTicks: int)
    ensures var r := TickStep(reqs, now, timeoutTicks);
            (forall t | t in r :: forall x | x in r[t] :: !Expired(x, now, TimeoutMs(timeoutTicks)))
            && (forall t, x | t in reqs && x in reqs[t] && !Expired(x, now, TimeoutMs(timeoutTicks)) ::
                  t in r && x in r[t])
            && (forall t | t in r :: r[t] == Filter(reqs[t], LiveKeep(now, TimeoutMs(timeoutTicks))))
            && (forall t | t in r :: r[t] != [])
  {
  }

  /** A second tick at the same moment removes nothing. */
  lemma TickIdempotent(reqs: map<PlayerId, seq<Request>>, now: int, timeoutTicks: int)
    ensures TickStep(TickStep(reqs, now, timeoutTicks), now, timeoutTicks) == TickStep(reqs, now, timeoutTicks)
  {
    var once := TickStep(reqs, now, timeoutTicks);
    var keep := LiveKeep(now, TimeoutMs(timeoutTicks));
    forall t | t in once
      ensures Filter(once[t], keep) == once[t]
    {
      FilterIdempotent(reqs[t], keep);
    }
  }

  /** With a positive timeout a request survives the tick of the moment it was
      sent. */
  lemma FreshRequestSurvivesTick(reqs: map<PlayerId, seq<Request>>, target: PlayerId, req: Request, timeoutTicks: int)
    requires 0 < timeoutTicks <= IntMax
    requires target in reqs && req in reqs[target]
    ensures target in TickStep(reqs, req.timestamp, timeoutTicks)
    ensures req in TickStep(reqs, req.timestamp, timeoutTicks)[target]
  {
  }

  /** With the `int` product a timeout of 42949673 ticks, which the config
      admits, expires a request in the very tick it was sent. */
  lemma TickAsWrittenDropsFreshRequest(sender: PlayerId, target: PlayerId, now: int)
    requires sender != target
    ensures var reqs := map[target := [Request(sender, target, false, now)]];
            TickAsWritten(reqs, now, 42949673) == map[]
            && TickStep(reqs, now, 42949673) == reqs
  {
    TimeoutOverflowCounterexample();
    var reqs := map[target := [Request(sender, target, false, now)]];
    var x := Request(sender, target, false, now);
    assert Filter([x], LiveKeep(now, TimeoutMs(42949673))) == [x] by {
      assert [x][..0] == [];
    }
    assert Filter([x], LiveKeep(now, TimeoutThresholdAsWritten(42949673))) == [] by {
      assert [x][..0] == [];
    }
  }

  // ---------------------------------------------------------------------
  // Do-not-disturb flag and locks

  /** `/tpatoggle`: the flag flips, a missing flag counting as false. */
  function ToggleStep(toggles: map<PlayerId, bool>, player: PlayerId): (r: map<PlayerId, bool>)
    ensures FlagOf(r, player) == !FlagOf(toggles, player)
    ensures forall p | p != player :: FlagOf(r, p) == FlagOf(toggles, p)
    ensures r.Keys == toggles.Keys + {player}
  {
    toggles[player := !FlagOf(toggles, player)]
  }

  /** Toggling twice restores every player's flag, and the map itself when the
      player already had an entry. */
  lemma ToggleTwiceRestores(toggles: map<PlayerId, bool>, player: PlayerId)
    ensures forall p :: FlagOf(ToggleStep(ToggleStep(toggles, player), player), p) == FlagOf(toggles, p)
    ensures player in toggles ==> ToggleStep(ToggleStep(toggles, player), player) == toggles
  {
  }

  /** While the flag is on, every request to the player is refused once the
      earlier checks have passed. */
  lemma ToggledOffRefusesRequests(st: TpaState, sender: PlayerId, target: PlayerId, isTpHere: bool,
                                  now: int, cooldownMs: int, alive: set<PlayerId>)
    requires !FlagOf(st.toggles, target)
    requires sender != target && target in alive && !CooldownBlocks(st.cooldowns, sender, now, cooldownMs)
    ensures var st' := st.(toggles := ToggleStep(st.toggles, target));
            SendStep(st', sender, target, isTpHere, now, cooldownMs, alive).outcome == TargetToggledOff
  {
  }

  datatype LockResult = LockResult(ok: bool, locks: map<PlayerId, set<PlayerId>>)

  /** `/tpalock <target>`: locking yourself or a player already locked fails. */
  function LockStep(locks: map<PlayerId, set<PlayerId>>, player: PlayerId, target: PlayerId): (r: LockResult)
    ensures !r.ok ==> r.locks == locks
  {
    if player == target then LockResult(false, locks)
    else
      var locked := if player in locks then locks[player] else {};
      if target in locked then LockResult(false, locks)
      else LockResult(true, locks[player := locked + {target}])
  }

  /** `/tpaunlock <target>`: fails for yourself and for a player not locked;
      the set goes once it is empty. */
  function UnlockStep(locks: map<PlayerId, set<PlayerId>>, player: PlayerId, target: PlayerId): (r: LockResult)
    ensures !r.ok ==> r.locks == locks
  {
    if player == target then LockResult(false, locks)
    else if player !in locks || target !in locks[player] then LockResult(false, locks)
    else
      var rest := locks[player] - {target};
      LockResult(true, if rest == {} then locks - {player} else locks[player := rest])
  }

  /** Lock succeeds exactly for another player not yet locked, and unlock
      exactly for another player who is locked. */
  lemma LockUnlockSucceedIff(locks: map<PlayerId, set<PlayerId>>, player: PlayerId, target: PlayerId)
    ensures LockStep(locks, player, target).ok <==> player != target && !LockedOut(locks, player, target)
    ensures UnlockStep(locks, player, target).ok <==> player != target && LockedOut(locks, player, target)
    ensures LockStep(locks, player, target).ok ==> LockedOut(LockStep(locks, player, target).locks, player, target)
    ensures UnlockStep(locks, player, target).ok ==> !LockedOut(UnlockStep(locks, player, target).locks, player, target)
    ensures LockStep(locks, player, target).ok ==>
              forall p, q :: LockedOut(LockStep(locks, player, target).locks, p, q) <==> LockedOut(locks, p, q) || (p == player && q == target)
    ensures UnlockStep(locks, player, target).ok ==>
              forall p, q :: LockedOut(UnlockStep(locks, player, target).locks, p, q) <==> LockedOut(locks, p, q) && !(p == player && q == target)
    ensures forall p | p != player :: p in LockStep(locks, player, target).locks <==> p in locks
    ensures forall p | p != player && p in locks :: LockStep(locks, player, target).locks[p] == locks[p]
    ensures forall p | p != player :: p in UnlockStep(locks, player, target).locks <==> p in locks
    ensures forall p | p != player && p in locks :: UnlockStep(locks, player, target).locks[p] == locks[p]
  {
    if UnlockStep(locks, player, target).ok {
      var rest := locks[player] - {target};
      forall q | q in locks[player] && q != target
        ensures LockedOut(UnlockStep(locks, player, target).locks, player, q)
      {
        assert q in rest;
      }
    }
  }

  /** Unlock undoes a successful lock, and lock undoes a successful unlock,
      as long as no player keeps an empty set. */
  lemma LockUnlockInverse(locks: map<PlayerId, set<PlayerId>>, player: PlayerId, target: PlayerId)
    requires forall p | p in locks :: locks[p] != {}
    ensures LockStep(locks, player, target).ok ==>
              UnlockStep(LockStep(locks, player, target).locks, player, target) == LockResult(true, locks)
    ensures UnlockStep(locks, player, target).ok ==>
              LockStep(UnlockStep(locks, player, target).locks, player, target) == LockResult(true, locks)
  {
    if LockStep(locks, player, target).ok {
      var locked := if player in locks then locks[player] else {};
      assert locked + {target} - {target} == locked;
    }
    if UnlockStep(locks, player, target).ok {
      assert locks[player] - {target} + {target} == locks[player];
    }
  }

  /** A player who locked somebody never receives a request from them. */
  lemma LockRefusesRequests(st: TpaState, player: PlayerId, locked: PlayerId, isTpHere: bool,
                            now: int, cooldownMs: int, alive: set<PlayerId>)
    requires LockStep(st.locks, player, locked).ok
    ensures var st' := st.(locks := LockStep(st.locks, player, locked).locks);
            SendStep(st', locked, player, isTpHere, now, cooldownMs, alive).outcome != Sent
  {
  }

  // ---------------------------------------------------------------------
  // The tracker

  class Tracker {
    var requests: map<PlayerId, seq<Request>>
    var cooldowns: map<PlayerId, int>
    var toggleStates: map<PlayerId, bool>
    var lockedPlayers: map<PlayerId, set<PlayerId>>

    function State(): TpaState
      reads this
    {
      TpaState(requests, cooldowns, toggleStates, lockedPlayers)
    }

    ghost predicate Valid()
      reads this
    {
      WellFormed(State())
    }

    constructor ()
      ensures Valid() && State() == TpaState(map[], map[], map[], map[])
    {
      requests := map[];
      cooldowns := map[];
      toggleStates := map[];
      lockedPlayers := map[];
    }

    /** `sendTPARequest`; the three reads of the clock are `now`. */
    method Send(sender: PlayerId, target: PlayerId, isTpHere: bool, now: int, cooldownMs: int, alive: set<PlayerId>)
      returns (outcome: SendOutcome)
      requires Valid()
      modifies this
      ensures Valid()
      ensures SendStep(old(State()), sender, target, isTpHere, now, cooldownMs, alive) == SendResult(outcome, State())
    {
      if sender == target {
        return SelfTarget;
      }
      if sender in cooldowns && now - cooldowns[sender] < cooldownMs {
        var remainingSeconds := JavaDiv(cooldownMs - (now - cooldowns[sender]), 1000);
        return OnCooldown(remainingSeconds);
      }
      if target !in alive {
        return TargetDead;
      }
      if FlagOf(toggleStates, target) {
        return TargetToggledOff;
      }
      var lockedByTarget := if target in lockedPlayers then lockedPlayers[target] else {};
      if sender in lockedByTarget {
        return SenderLocked;
      }
      var request := Request(sender, target, isTpHere, now);
      var list := if target in requests then requests[target] else [];
      requests := requests[target := list + [request]];
      cooldowns := cooldowns[sender := now];
      outcome := Sent;
    }

    /** Takes the request at `index` out of the target's list. */
    method RemoveRequest(target: PlayerId, index: nat)
      requires Valid() && target in requests && index < |requests[target]|
      modifies this`requests
      ensures Valid()
      ensures State() == Resolve(old(State()), target, index)
    {
      ResolvePreservesWellFormed(State(), target, index);
      var rest := RemoveAt(requests[target], index);
      if rest == [] {
        requests := requests - {target};
      } else {
        requests := requests[target := rest];
      }
    }

    /** `acceptTPARequest`; `back` is the `/back` store. */
    method Accept(target: PlayerId, from: Option<PlayerId>, alive: set<PlayerId>,
                  positionOf: PlayerId -> Position, back: BackStore)
      returns (outcome: AcceptOutcome)
      requires Valid()
      modifies this, back
      ensures Valid()
      ensures AcceptStep(old(State()), old(back.previousPositions), target, from, alive, positionOf)
              == AcceptResult(outcome, State(), back.previousPositions)
    {
      var targetRequests := if target in requests then requests[target] else [];
      if targetRequests == [] {
        return AcceptFailed(NoPendingRequest);
      }
      var index: nat;
      if from.Some? {
        var found := FirstFrom(targetRequests, from.value);
        if found.None? {
          return AcceptFailed(NoRequestFromSender);
        }
        index := found.value;
      } else {
        index := |targetRequests| - 1;
      }
      var request := targetRequests[index];
      if request.sender !in alive {
        RemoveRequest(target, index);
        return SenderDead(request);
      }
      var mover := if request.isTpHere then target else request.sender;
      var anchor := if request.isTpHere then request.sender else target;
      back.RecordPosition(mover, positionOf(mover));
      RemoveRequest(target, index);
      outcome := Accepted(request, mover, positionOf(anchor));
    }

    /** `denyTPARequest`. */
    method Deny(target: PlayerId, from: Option<PlayerId>) returns (outcome: DenyOutcome)
      requires Valid()
      modifies this
      ensures Valid()
      ensures DenyStep(old(State()), target, from) == DenyResult(outcome, State())
    {
      var targetRequests := if target in requests then requests[target] else [];
      if targetRequests == [] {
        return DenyFailed(NoPendingRequest);
      }
      var index: nat;
      if from.Some? {
        var found := FirstFrom(targetRequests, from.value);
        if found.None? {
          return DenyFailed(NoRequestFromSender);
        }
        index := found.value;
      } else {
        index := |targetRequests| - 1;
      }
      var request := targetRequests[index];
      RemoveRequest(target, index);
      outcome := Denied(request);
    }

    /** The iterator loops over every list, each list filtered in place. */
    method FilterEachList(keep: Request -> bool) returns (removedAny: bool)
      modifies this`requests
      ensures requests.Keys == old(requests).Keys
      ensures forall t | t in requests :: requests[t] == Filter(old(requests)[t], keep)
      ensures removedAny <==> exists t | t in old(requests) :: Drops(old(requests)[t], keep)
    {
      ghost var original := requests;
      var todo := requests.Keys;
      ghost var done: set<PlayerId> := {};
      removedAny := false;
      while todo != {}
        invariant todo + done == original.Keys && todo !! done
        invariant requests.Keys == original.Keys
        invariant forall t | t in done :: requests[t] == Filter(original[t], keep)
        invariant forall t | t in todo :: requests[t] == original[t]
        invariant removedAny <==> AnyDrops(original, done, keep)
        decreases todo
      {
        var t :| t in todo;
        var kept, removedHere := FilterList(requests[t], keep);
        AnyDropsOneMore(original, done, t, keep);
        requests := requests[t := kept];
        removedAny := removedAny || removedHere;
        todo := todo - {t};
        done := done + {t};
      }
    }

    /** Runs `keep` over every list, then drops the emptied lists; reports
        whether any request was removed. */
    method FilterRequests(keep: Request -> bool) returns (removedAny: bool)
      modifies this`requests
      ensures requests == FilterAll(old(requests), keep)
      ensures removedAny <==> exists t | t in old(requests) :: Drops(old(requests)[t], keep)
    {
      ghost var original := requests;
      removedAny := FilterEachList(keep);
      PruneAfterFilter(original, requests, keep);
      requests := DropEmpty(requests);
    }

    /** `cancelTPARequest`; `target` is None for `/tpacancel` without a name. */
    method Cancel(sender: PlayerId, target: Option<PlayerId>) returns (cancelled: bool)
      requires Valid()
      modifies this
      ensures Valid()
      ensures CancelStep(old(State()), sender, target) == CancelResult(cancelled, State())
    {
      CancelPreservesWellFormed(State(), sender, target);
      cancelled := FilterRequests(CancelKeep(sender, target));
    }

    /** `tick`, run at the end of every server tick; the timeout is whatever `int`
        the config holds, negative after a wrapped `tpawaittime`. */
    method Tick(now: int, timeoutTicks: int)
      requires Valid() && IsInt32(timeoutTicks)
      modifies this
      ensures Valid()
      ensures requests == TickStep(old(requests), now, timeoutTicks)
      ensures cooldowns == old(cooldowns) && toggleStates == old(toggleStates) && lockedPlayers == old(lockedPlayers)
    {
      var thresholdMs := timeoutTicks * MsPerTick;
      var _ := FilterRequests(LiveKeep(now, thresholdMs));
    }

    /** `toggleTPA`. */
    method Toggle(player: PlayerId)
      requires Valid()
      modifies this`toggleStates
      ensures Valid()
      ensures toggleStates == ToggleStep(old(toggleStates), player)
    {
      var currentState := FlagOf(toggleStates, player);
      toggleStates := toggleStates[player := !currentState];
    }

    /** `lockTPA`. */
    method Lock(player: PlayerId, target: PlayerId) returns (ok: bool)
      requires Valid()
      modifies this`lockedPlayers
      ensures Valid()
      ensures LockStep(old(lockedPlayers), player, target) == LockResult(ok, lockedPlayers)
    {
      if player == target {
        return false;
      }
      var locked := if player in lockedPlayers then lockedPlayers[player] else {};
      if target in locked {
        return false;
      }
      lockedPlayers := lockedPlayers[player := locked + {target}];
      ok := true;
    }

    /** `unlockTPA`. */
    method Unlock(player: PlayerId, target: PlayerId) returns (ok: bool)
      requires Valid()
      modifies this`lockedPlayers
      ensures Valid()
      ensures UnlockStep(old(lockedPlayers), player, target) == LockResult(ok, lockedPlayers)
    {
      if player == target {
        return false;
      }
      if player !in lockedPlayers || target !in lockedPlayers[player] {
        return false;
      }
      var locked := lockedPlayers[player] - {target};
      if locked == {} {
        lockedPlayers := lockedPlayers - {player};
      } else {
        lockedPlayers := lockedPlayers[player := locked];
      }
      ok := true;
    }
  }
}
