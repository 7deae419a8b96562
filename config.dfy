/** The runtime configuration: which commands need operator rights, the
    teleport-request cooldown and timeout, the message language, the home
    limit, debug logging, and the translation table messages are drawn from. */
module Config {
  import opened Common

  /** Permission level an operator has; `hasPermission(2)` is the OP test. */
  const OpLevel: nat := 2

  /** The commands `/tpatools needop` accepts. */
  const NeedOpCommands: set<string> := {"tpa", "home", "grave", "back"}

  /** The keys `initCommandPermissions` fills with `false` when absent. */
  const PermissionDefaults: seq<string> := ["tpa", "home", "grave", "back", "debug"]

  /** The keys the older loader fills with `false` when absent (no "debug"). */
  const LegacyPermissionDefaults: seq<string> := ["tpa", "home", "grave", "back"]

  const SupportedLanguages: set<string> := {"en_us", "zh_cn"}

  /** Milliseconds per server tick, the factor of the timeout check. */
  const MsPerTick: int := 50

  /** Ticks per second, the factor `/tpatools tpawaittime` uses. */
  const TicksPerSecond: int := 20

  // ---------------------------------------------------------------------
  // Permission checks

  /** A command source with level `level` passes `hasPermission(required)`. */
  predicate HasPermission(level: nat, required: nat)
  {
    level >= required
  }

  /** `checkCommandPermission`: a command whose flag is set needs OP level,
      one whose flag is false or missing is open to everybody. */
  function CheckCommandPermission(perms: map<string, bool>, command: string, level: nat): (allowed: bool)
    ensures !FlagOf(perms, command) ==> allowed
    ensures FlagOf(perms, command) ==> (allowed <==> level >= OpLevel)
  {
    var needOp := FlagOf(perms, command);
    if needOp then HasPermission(level, OpLevel) else true
  }

  /** The older handlers compute a level once when they register commands:
      a set flag requires level 2, a false or missing one level 0. */
  function LegacyPermissionLevel(perms: map<string, bool>, command: string): (required: nat)
    ensures required == OpLevel || required == 0
    ensures required == OpLevel <==> command in perms && perms[command]
  {
    if FlagOf(perms, command) then OpLevel else 0
  }

  /** Both ways of gating a command agree: the per-call check of
      `checkCommandPermission` and the older registration-time level. */
  lemma PermissionGatesAgree(perms: map<string, bool>, command: string, level: nat)
    ensures CheckCommandPermission(perms, command, level)
            == HasPermission(level, LegacyPermissionLevel(perms, command))
  {
  }

  // ---------------------------------------------------------------------
  // Default permission flags

  /** `putIfAbsent(key, false)` for every key of `keys`, in order. */
  function WithDefaults(perms: map<string, bool>, keys: seq<string>): (r: map<string, bool>)
    ensures forall k :: k in r <==> k in perms || k in keys
    ensures forall k :: k in perms ==> r[k] == perms[k]
    ensures forall k :: k in r && k !in perms ==> !r[k]
    decreases |keys|
  {
    if keys == [] then perms
    else
      var next := if keys[0] in perms then perms else perms[keys[0] := false];
      WithDefaults(next, keys[1..])
  }

  /** One `putIfAbsent` followed by the rest of the keys. */
  lemma WithDefaultsStep(perms: map<string, bool>, keys: seq<string>)
    requires keys != []
    ensures WithDefaults(perms, keys)
            == WithDefaults(if keys[0] in perms then perms else perms[keys[0] := false], keys[1..])
  {
  }

  /** Filling the defaults a second time changes nothing. */
  lemma WithDefaultsIdempotent(perms: map<string, bool>, keys: seq<string>)
    ensures WithDefaults(WithDefaults(perms, keys), keys) == WithDefaults(perms, keys)
  {
    var once := WithDefaults(perms, keys);
    var twice := WithDefaults(once, keys);
    assert twice.Keys == once.Keys;
    assert forall k :: k in twice ==> twice[k] == once[k];
  }

  /** After loading, every command has a flag and an unconfigured command is open. */
  lemma DefaultsOpenEveryCommand(perms: map<string, bool>, command: string, level: nat)
    requires command in PermissionDefaults
    requires command !in perms
    ensures command in WithDefaults(perms, PermissionDefaults)
    ensures CheckCommandPermission(WithDefaults(perms, PermissionDefaults), command, level)
  {
  }

  /** The older `loadCommandPermissions`: `file` is None when the permission
      file does not exist (the map in memory is kept), Some(None) when it holds
      JSON null (the map is cleared) and Some(Some(m)) when it holds `m` (the
      map becomes `m`); then the four command keys are filled with `false`. */
  function LegacyLoadPermissions(current: map<string, bool>, file: Option<Option<map<string, bool>>>): (r: map<string, bool>)
  {
    var base := match file
      case None => current
      case Some(None) => map[]
      case Some(Some(m)) => m;
    WithDefaults(base, LegacyPermissionDefaults)
  }

  /** After the older loader every command key has a flag, the file's flags
      win over the defaults, and a command the file does not mention is
      registered at level 0; "debug" gets no default there. */
  lemma LegacyLoadRule(current: map<string, bool>, m: map<string, bool>, command: string)
    requires command in LegacyPermissionDefaults
    ensures command in LegacyLoadPermissions(current, Some(Some(m)))
    ensures command in m ==> LegacyLoadPermissions(current, Some(Some(m)))[command] == m[command]
    ensures command !in m ==> LegacyPermissionLevel(LegacyLoadPermissions(current, Some(Some(m))), command) == 0
    ensures "debug" in LegacyLoadPermissions(current, Some(Some(m))) <==> "debug" in m
    ensures LegacyLoadPermissions(current, None).Keys == current.Keys + {"tpa", "home", "grave", "back"}
    ensures forall k | k in current :: LegacyLoadPermissions(current, None)[k] == current[k]
  {
  }

  // ---------------------------------------------------------------------
  // Administrator commands as pure steps

  /** `enable.equalsIgnoreCase("true")`: anything else reads as false. */
  predicate ParseEnable(enableStr: string)
  {
    EqualsIgnoreCase(enableStr, "true")
  }

  /** `/tpatools needop <command> <enable>`: None when the command is not one
      of the four, otherwise the permission map with that flag overwritten. */
  function NeedOpUpdate(perms: map<string, bool>, command: string, enableStr: string): (r: Option<map<string, bool>>)
    ensures r.None? <==> command !in NeedOpCommands
    ensures r.Some? ==> r.value.Keys == perms.Keys + {command}
    ensures r.Some? ==> r.value[command] == ParseEnable(enableStr)
    ensures r.Some? ==> forall k :: k in perms && k != command ==> r.value[k] == perms[k]
  {
    if command !in NeedOpCommands then None
    else Some(perms[command := ParseEnable(enableStr)])
  }

  /** "debug" is among the defaults but cannot be switched by needop, and
      "true" is recognised in any letter case. */
  lemma NeedOpExamples(perms: map<string, bool>)
    ensures NeedOpUpdate(perms, "debug", "true").None?
    ensures NeedOpUpdate(perms, "tpa", "TRUE") == Some(perms["tpa" := true])
    ensures NeedOpUpdate(perms, "home", "yes") == Some(perms["home" := false])
  {
    assert Lower("TRUE") == "true";
    assert Lower("true") == "true";
    assert Lower("yes") != Lower("true") by { assert Lower("yes")[0] == 'y'; }
  }

  /** The translation lookup of `translateWithFallback`: the stored template
      when the key is present, the caller's fallback otherwise. */
  function TranslationTemplate(translations: map<string, string>, key: string, fallback: string): (t: string)
    ensures key in translations ==> t == translations[key]
    ensures key !in translations ==> t == fallback
  {
    if key in translations then translations[key] else fallback
  }

  // ---------------------------------------------------------------------
  // Time conversions

  /** `(long) seconds * 1000`, the cooldown `/tpatools tpacdtime` stores. */
  function CooldownMsFor(seconds: int): (ms: int)
    requires 0 <= seconds <= IntMax
    ensures ms >= 0 && ms % 1000 == 0 && ms / 1000 == seconds
  {
    seconds * 1000
  }

  /** `seconds * 20` in Java `int` arithmetic, the tick count
      `/tpatools tpawaittime` stores. */
  function WaitTicksFor(seconds: int): (ticks: int)
    ensures IsInt32(ticks)
    ensures IsInt32(seconds * TicksPerSecond) ==> ticks == seconds * TicksPerSecond
  {
    JavaIntMul(seconds, TicksPerSecond)
  }

  /** The expiry threshold as the tick handler computes it:
      `TIMEOUT_TICKS.get() * 50` is a product of two `int`s and wraps. */
  function TimeoutThresholdAsWritten(timeoutTicks: int): (ms: int)
    ensures IsInt32(ms)
    ensures IsInt32(timeoutTicks * MsPerTick) ==> ms == timeoutTicks * MsPerTick
  {
    JavaIntMul(timeoutTicks, MsPerTick)
  }

  /** The expiry threshold with the multiplication done in `long`, as the
      configured range of the timeout (up to `Integer.MAX_VALUE` ticks) needs. */
  function TimeoutMs(timeoutTicks: int): (ms: int)
    ensures timeoutTicks >= 0 ==> ms >= 0
    ensures ms % MsPerTick == 0 && ms / MsPerTick == timeoutTicks
  {
    timeoutTicks * MsPerTick
  }

  /** A wait of s seconds set by tpawaittime expires requests after exactly
      s * 1000 ms whenever s * 20 still fits the `int` the value is kept in. */
  lemma WaitSecondsExpireAfterSecondsMs(seconds: int)
    requires 0 <= seconds && IsInt32(seconds * TicksPerSecond)
    ensures TimeoutMs(WaitTicksFor(seconds)) == seconds * 1000
  {
  }

  /** With the `int` product a configured timeout above 42949672 ticks wraps to
      a negative threshold: a request is already expired when it is made. */
  lemma TimeoutOverflowCounterexample()
    ensures IsInt32(42949673)
    ensures TimeoutThresholdAsWritten(42949673) < 0
    ensures TimeoutMs(42949673) == 2147483650
    ensures TimeoutThresholdAsWritten(WaitTicksFor(2147484)) < 0
  {
    assert WaitTicksFor(2147484) == 42949680;
  }

  /** The corrected threshold never lets a request with a positive timeout
      expire at the moment it was made, for every value the config admits. */
  lemma TimeoutNeverImmediate(timeoutTicks: int)
    requires 0 < timeoutTicks <= IntMax
    ensures TimeoutMs(timeoutTicks) > 0
  {
  }

  // ---------------------------------------------------------------------
  // The configuration store

  class ModConfig {
    var commandPermissions: map<string, bool>
    var cooldownMs: int
    var timeoutTicks: int
    var language: string
    var maxHomes: int
    var debugMode: bool
    var translations: map<string, string>

    /** The ranges the config specification admits. */
    ghost predicate Valid()
      reads this
    {
      cooldownMs >= 0 && IsInt32(timeoutTicks) && 1 <= maxHomes <= IntMax
    }

    /** The values the config specification defines as defaults. */
    constructor ()
      ensures Valid()
      ensures commandPermissions == map[] && translations == map[]
      ensures cooldownMs == 3000 && timeoutTicks == 600 && language == "zh_cn"
      ensures maxHomes == 2 && !debugMode
    {
      commandPermissions := map[];
      cooldownMs := 3 * 1000;
      timeoutTicks := 30 * 20;
      language := "zh_cn";
      maxHomes := 2;
      debugMode := false;
      translations := map[];
    }

    /** `initCommandPermissions`: five `putIfAbsent(…, false)` calls. */
    method InitCommandPermissions()
      requires Valid()
      modifies this`commandPermissions
      ensures Valid()
      ensures commandPermissions == WithDefaults(old(commandPermissions), PermissionDefaults)
    {
      PutDefaults(PermissionDefaults);
    }

    /** `putIfAbsent(key, false)` for each key in turn. */
    method PutDefaults(keys: seq<string>)
      requires Valid()
      modifies this`commandPermissions
      ensures Valid()
      ensures commandPermissions == WithDefaults(old(commandPermissions), keys)
    {
      var i := 0;
      while i < |keys|
        invariant 0 <= i <= |keys|
        invariant WithDefaults(commandPermissions, keys[i..]) == WithDefaults(old(commandPermissions), keys)
      {
        WithDefaultsStep(commandPermissions, keys[i..]);
        assert keys[i..][1..] == keys[i + 1..];
        if keys[i] !in commandPermissions {
          commandPermissions := commandPermissions[keys[i] := false];
        }
        i := i + 1;
      }
      assert keys[i..] == [];
    }

    /** `/tpatools needop <command> <enable>`. */
    method NeedOp(command: string, enableStr: string) returns (ok: bool)
      requires Valid()
      modifies this`commandPermissions
      ensures Valid()
      ensures ok <==> command in NeedOpCommands
      ensures ok ==> commandPermissions == NeedOpUpdate(old(commandPermissions), command, enableStr).value
      ensures !ok ==> commandPermissions == old(commandPermissions)
    {
      var enable := EqualsIgnoreCase(enableStr, "true");
      if command !in NeedOpCommands {
        return false;
      }
      commandPermissions := commandPermissions[command := enable];
      ok := true;
    }

    /** `/tpatools setlanguage <lang>`; `loaded` is what reading the language
        file yields (None when the file cannot be found or read, which leaves
        the cleared table empty). */
    method SetLanguage(lang: string, loaded: Option<map<string, string>>) returns (ok: bool)
      requires Valid()
      modifies this`language, this`translations
      ensures Valid()
      ensures ok <==> lang in SupportedLanguages
      ensures ok ==> language == lang && translations == (if loaded.Some? then loaded.value else map[])
      ensures !ok ==> language == old(language) && translations == old(translations)
    {
      if lang !in SupportedLanguages {
        return false;
      }
      language := lang;
      translations := map[];
      if loaded.Some? {
        translations := translations + loaded.value;
      }
      ok := true;
    }

    /** `/tpatools setmaxhome <count>`; the argument parser admits only count >= 1. */
    method SetMaxHome(count: int)
      requires Valid() && 1 <= count <= IntMax
      modifies this`maxHomes
      ensures Valid() && maxHomes == count
    {
      maxHomes := count;
    }

    /** `/tpatools tpacdtime <seconds>`; the argument parser admits only seconds >= 0. */
    method TpaCooldownTime(seconds: int)
      requires Valid() && 0 <= seconds <= IntMax
      modifies this`cooldownMs
      ensures Valid() && cooldownMs == CooldownMsFor(seconds)
    {
      cooldownMs := seconds * 1000;
    }

    /** `/tpatools tpawaittime <seconds>`: the `int` product is stored. */
    method TpaWaitTime(seconds: int)
      requires Valid() && 0 <= seconds <= IntMax
      modifies this`timeoutTicks
      ensures Valid() && timeoutTicks == WaitTicksFor(seconds)
    {
      timeoutTicks := JavaIntMul(seconds, TicksPerSecond);
    }

    /** `/tpatools debug <enable>`. */
    method SetDebug(enableStr: string)
      requires Valid()
      modifies this`debugMode
      ensures Valid() && debugMode == ParseEnable(enableStr)
    {
      debugMode := EqualsIgnoreCase(enableStr, "true");
    }
  }
}
