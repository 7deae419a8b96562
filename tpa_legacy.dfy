/** The older copy of the teleport-request tracker. It keeps the same four
    maps and resolves, cancels, toggles, locks and expires requests the same
    way; sending differs in how the cooldown is checked and reported. */
module LegacyTpa {
  import opened Common
  import opened Tpa

  /** `canSendRequest`: no earlier request, or at least `cooldownMs` since it. */
  function CanSendRequest(cooldowns: map<PlayerId, int>, sender: PlayerId, now: int, cooldownMs: int): (ok: bool)
  {
    sender !in cooldowns || now - cooldowns[sender] >= cooldownMs
  }

  /** The older gate is the exact negation of the cooldown test of the newer
      send command. */
  lemma CanSendIffNotBlocked(cooldowns: map<PlayerId, int>, sender: PlayerId, now: int, cooldownMs: int)
    ensures CanSendRequest(cooldowns, sender, now, cooldownMs) <==> !CooldownBlocks(cooldowns, sender, now, cooldownMs)
    ensures sender !in cooldowns ==> CanSendRequest(cooldowns, sender, now, cooldownMs)
    ensures sender in cooldowns && now - cooldowns[sender] < cooldownMs ==> !CanSendRequest(cooldowns, sender, now, cooldownMs)
  {
  }

  /** The older send reports a cooldown without the time left. */
  datatype LegacySendOutcome =
    | LegacySent
    | LegacySelfTarget
    | CoolingDown
    | LegacyTargetDead
    | LegacyTargetToggledOff
    | LegacySenderLocked

  /** The older `sendTPARequest`: the same checks in the same order. */
  function LegacySendStep(st: TpaState, sender: PlayerId, target: PlayerId, isTpHere: bool,
                          now: int, cooldownMs: int, alive: set<PlayerId>): (r: (LegacySendOutcome, TpaState))
  {
    if sender == target then (LegacySelfTarget, st)
    else if !CanSendRequest(st.cooldowns, sender, now, cooldownMs) then (CoolingDown, st)
    else if target !in alive then (LegacyTargetDead, st)
    else if FlagOf(st.toggles, target) then (LegacyTargetToggledOff, st)
    else if LockedOut(st.locks, target, sender) then (LegacySenderLocked, st)
    else
      (LegacySent, st.(requests := st.requests[target := Pending(st.requests, target) + [Request(sender, target, isTpHere, now)]],
                       cooldowns := st.cooldowns[sender := now]))
  }

  /** Both send commands make the same decision and leave the same tracker;
      they differ only in the cooldown message. */
  lemma LegacySendAgrees(st: TpaState, sender: PlayerId, target: PlayerId, isTpHere: bool,
                         now: int, cooldownMs: int, alive: set<PlayerId>)
    ensures var (o, st') := LegacySendStep(st, sender, target, isTpHere, now, cooldownMs, alive);
            var r := SendStep(st, sender, target, isTpHere, now, cooldownMs, alive);
            st' == r.state
            && (o == LegacySent <==> r.outcome == Sent)
            && (o == LegacySelfTarget <==> r.outcome == SelfTarget)
            && (o == CoolingDown <==> r.outcome.OnCooldown?)
            && (o == LegacyTargetDead <==> r.outcome == TargetDead)
            && (o == LegacyTargetToggledOff <==> r.outcome == TargetToggledOff)
            && (o == LegacySenderLocked <==> r.outcome == SenderLocked)
  {
  }

  /** A refused older send changes nothing; a successful one appends the new
      request at the end of the target's list and stamps the cooldown. */
  lemma LegacySendEffect(st: TpaState, sender: PlayerId, target: PlayerId, isTpHere: bool,
                         now: int, cooldownMs: int, alive: set<PlayerId>)
    ensures var (o, st') := LegacySendStep(st, sender, target, isTpHere, now, cooldownMs, alive);
            (o != LegacySent ==> st' == st)
            && (o == LegacySent ==>
                  st'.requests == st.requests[target := Pending(st.requests, target) + [Request(sender, target, isTpHere, now)]]
                  && st'.cooldowns == st.cooldowns[sender := now]
                  && st'.toggles == st.toggles && st'.locks == st.locks)
  {
  }

  /** The older `sendTPARequest` acting on the tracker's maps. */
  method LegacySend(tracker: Tracker, sender: PlayerId, target: PlayerId, isTpHere: bool,
                    now: int, cooldownMs: int, alive: set<PlayerId>) returns (outcome: LegacySendOutcome)
    requires tracker.Valid()
    modifies tracker
    ensures tracker.Valid()
    ensures LegacySendStep(old(tracker.State()), sender, target, isTpHere, now, cooldownMs, alive) == (outcome, tracker.State())
  {
    if sender == target {
      return LegacySelfTarget;
    }
    if !CanSendRequest(tracker.cooldowns, sender, now, cooldownMs) {
      return CoolingDown;
    }
    if target !in alive {
      return LegacyTargetDead;
    }
    if FlagOf(tracker.toggleStates, target) {
      return LegacyTargetToggledOff;
    }
    var lockedByTarget := if target in tracker.lockedPlayers then tracker.lockedPlayers[target] else {};
    if sender in lockedByTarget {
      return LegacySenderLocked;
    }
    var list := if target in tracker.requests then tracker.requests[target] else [];
    tracker.requests := tracker.requests[target := list + [Request(sender, target, isTpHere, now)]];
    tracker.cooldowns := tracker.cooldowns[sender := now];
    outcome := LegacySent;
  }
}
