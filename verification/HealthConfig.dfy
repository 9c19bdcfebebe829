/** The health configuration: JSON sections merged over defaults, and validated changes (device/daemon/Health.m). */
module HealthConfig {
  import opened Common
  import HealthPolicy

  datatype Json =
    | Null
    | Number(value: real)
    | Text(text: string)
    | List(items: seq<Json>)
    | Object(members: map<string, Json>)

  /** A default that is a dictionary is merged key by key; any other is replaced unless by null. */
  function Merged(default: Json, override: Json): Json
    decreases default
  {
    if !default.Object? then (if override.Null? then default else override)
    else if !override.Object? then default
    else
      Object(map key | key in default.members.Keys +
        (set k | k in override.members.Keys && override.members[k] != Null) ::
        if key !in override.members then default.members[key]
        else if key !in default.members then override.members[key]
        else Merged(default.members[key], override.members[key]))
  }

  /**
   * `config` has a value wherever `default` has one, a dictionary wherever `default` has one, and
   * beyond that no nulls, at every depth `default` reaches.
   */
  predicate Covers(config: Json, default: Json)
    decreases default
  {
    if !default.Object? then config.Null? ==> default.Null?
    else
      && config.Object?
      && (forall key <- config.members :: key in default.members || config.members[key] != Null)
      && (forall key <- default.members :: key in config.members && Covers(config.members[key], default.members[key]))
  }

  /** Merging always yields something that covers the defaults. */
  lemma {:induction false} MergedCovers(default: Json, override: Json)
    ensures Covers(Merged(default, override), default)
    decreases default
  {
    if !default.Object? {
    } else {
      forall key <- default.members
        ensures Covers(Merged(default, override).members[key], default.members[key])
      {
        if !override.Object? || key !in override.members {
          CoversItself(default.members[key]);
        } else {
          MergedCovers(default.members[key], override.members[key]);
        }
      }
    }
  }

  lemma {:induction false} CoversItself(default: Json)
    ensures Covers(default, default)
    decreases default
  {
    if !default.Object? {
    } else {
      forall key <- default.members { CoversItself(default.members[key]); }
    }
  }

  /** Merging something that covers the defaults changes nothing. */
  lemma {:induction false} CoveringIsAbsorbed(default: Json, config: Json)
    requires Covers(config, default)
    ensures Merged(default, config) == config
    decreases default
  {
    if !default.Object? {
    } else {
      var merged := Merged(default, config).members;
      assert merged.Keys == config.members.Keys;
      forall key <- merged
        ensures merged[key] == config.members[key]
      {
        if key in default.members {
          CoveringIsAbsorbed(default.members[key], config.members[key]);
        }
      }
      assert merged == config.members;
    }
  }

  /** Further merges into a covering configuration keep it covering. */
  lemma {:induction false} MergeKeepsCovering(default: Json, config: Json, override: Json)
    requires Covers(config, default)
    ensures Covers(Merged(config, override), default)
    decreases default
  {
    if !default.Object? || !override.Object? {
    } else {
      var merged := Merged(config, override).members;
      forall key <- default.members
        ensures key in merged && Covers(merged[key], default.members[key])
      {
        if key in override.members {
          MergeKeepsCovering(default.members[key], config.members[key], override.members[key]);
        }
      }
    }
  }

  /** Merging is idempotent: what was merged once is not changed by merging it over the same defaults. */
  lemma MergeIsIdempotent(default: Json, override: Json)
    ensures Merged(default, Merged(default, override)) == Merged(default, override)
  {
    MergedCovers(default, override);
    CoveringIsAbsorbed(default, Merged(default, override));
  }

  /** What stands at the end of a path of keys. */
  function At(j: Json, path: seq<string>): Option<Json>
    decreases |path|
  {
    if path == [] then Some(j)
    else if j.Object? && path[0] in j.members then At(j.members[path[0]], path[1..])
    else None
  }

  /**
   * At every leaf of the defaults, however deep, a merge has the override if there is one that is not
   * null, else the default.
   */
  lemma {:induction false} LeafIsOverrideOrDefault(default: Json, override: Json, path: seq<string>)
    requires At(default, path).Some? && !At(default, path).value.Object?
    ensures At(Merged(default, override), path) ==
            if At(override, path).Some? && At(override, path) != Some(Null) then At(override, path)
            else At(default, path)
    decreases |path|
  {
    if path == [] {
    } else if override.Object? && path[0] in override.members {
      LeafIsOverrideOrDefault(default.members[path[0]], override.members[path[0]], path[1..]);
    }
  }

  // ---------------------------------------------------------------- configuring

  /** How `doubleValue` reads a text; a number reads as itself, and nothing else has one. */
  type TextValue = string -> real

  function NumberIn(section: Json, key: string, fallback: real, textValue: TextValue): real {
    if !section.Object? || key !in section.members then fallback
    else
      match section.members[key]
      case Number(value) => value
      case Text(text) => textValue(text)
      case _ => fallback
  }

  function Member(config: Json, key: string): Json {
    if config.Object? && key in config.members then config.members[key] else Null
  }

  /** The built-in defaults; a flag is the number 1. */
  const DEFAULTS: Json := Object(map[
    "chargeLimit" := Object(map["enabled" := Number(1.0), "low" := Number(50.0), "high" := Number(80.0)]),
    "chargeMode" := Text("auto"),
    "thermal" := Object(map["enabled" := Number(1.0), "pauseChargingC" := Number(40.0), "throttleC" := Number(43.0),
                            "dimC" := Number(45.0), "resumeC" := Number(37.0)]),
    "alerts" := Object(map["freeStorageMB" := Number(2048.0), "availableMemoryPercent" := Number(8.0),
                          "temperatureC" := Number(42.0)])
  ])

  /** The value the policy reads, the built-in default standing in for what is no number. */
  function ConfigValue(config: Json, section: string, key: string, textValue: TextValue): real {
    NumberIn(Member(config, section), key, NumberIn(Member(DEFAULTS, section), key, 0.0, textValue), textValue)
  }

  const SECTIONS: seq<string> := ["chargeLimit", "thermal", "alerts"]
  const MODES: set<string> := {"auto", "inhibit", "allow"}

  /** The sections of a request that are dictionaries; everything else in it is ignored. */
  function Overrides(params: map<string, Json>): Json {
    Object(map key | key in SECTIONS && key in params && params[key].Object? :: params[key])
  }

  function WithMode(config: Json, mode: Option<string>): Json
    requires config.Object?
  {
    if mode.Some? then Object(config.members["chargeMode" := Text(mode.value)]) else config
  }

  /** The configuration a request asks for; `mode` is its lower-cased charge mode, if it names one. */
  function Proposed(config: Json, params: map<string, Json>, mode: Option<string>): Json {
    WithMode(Merged(Merged(DEFAULTS, config), Overrides(params)), mode)
  }

  predicate LimitsInRange(config: Json, textValue: TextValue) {
    var low, high := ConfigValue(config, "chargeLimit", "low", textValue),
      ConfigValue(config, "chargeLimit", "high", textValue);
    5.0 <= low < high <= 100.0
  }

  /** The configuration after a request, and whether the request was accepted. */
  function Configured(config: Json, params: map<string, Json>, mode: Option<string>, textValue: TextValue)
    : (Json, bool)
  {
    if mode.Some? && mode.value !in MODES then (config, false)
    else
      var next := Proposed(config, params, mode);
      if LimitsInRange(next, textValue) then (next, true) else (config, false)
  }

  method CollectOverrides(params: map<string, Json>) returns (overrides: Json)
    ensures overrides == Overrides(params)
  {
    var sections: map<string, Json> := map[];
    for i := 0 to |SECTIONS|
      invariant sections == map key | key in SECTIONS[..i] && key in params && params[key].Object? :: params[key]
    {
      var key := SECTIONS[i];
      assert SECTIONS[..i + 1] == SECTIONS[..i] + [key];
      if key in params && params[key].Object? { sections := sections[key := params[key]]; }
    }
    assert SECTIONS[..|SECTIONS|] == SECTIONS;
    return Object(sections);
  }

  /** The check made on a request's numbers is about the very values the policy will read. */
  method CheckLimits(next: Json, textValue: TextValue) returns (valid: bool)
    ensures valid == LimitsInRange(next, textValue)
  {
    var low := NumberIn(Member(next, "chargeLimit"), "low", 50.0, textValue);
    var high := NumberIn(Member(next, "chargeLimit"), "high", 80.0, textValue);
    return !(low < 5.0 || high > 100.0 || low >= high);
  }

  class HealthStore {
    var config: Json
    const textValue: TextValue

    /** The load at start: whatever was stored, over the defaults. */
    constructor (stored: Json, textValue: TextValue)
      ensures config == Merged(DEFAULTS, stored) && this.textValue == textValue
    {
      config, this.textValue := Merged(DEFAULTS, stored), textValue;
    }

    method Configure(params: map<string, Json>, mode: Option<string>) returns (accepted: bool)
      modifies this`config
      ensures (config, accepted) == Configured(old(config), params, mode, textValue)
    {
      var overrides := CollectOverrides(params);
      if mode.Some? && mode.value !in MODES { return false; }
      var next := Merged(DEFAULTS, config);
      next := Merged(next, overrides);
      next := WithMode(next, mode);
      var valid := CheckLimits(next, textValue);
      if !valid { return false; }
      config := next;
      return true;
    }
  }

  datatype Change = Change(params: map<string, Json>, mode: Option<string>)

  function ConfiguredAll(config: Json, changes: seq<Change>, textValue: TextValue): Json
    decreases |changes|
  {
    if changes == [] then config
    else ConfiguredAll(Configured(config, changes[0].params, changes[0].mode, textValue).0, changes[1..], textValue)
  }

  /** Was any of the requests accepted? */
  predicate SomeAccepted(config: Json, changes: seq<Change>, textValue: TextValue)
    decreases |changes|
  {
    changes != [] &&
    var (next, accepted) := Configured(config, changes[0].params, changes[0].mode, textValue);
    accepted || SomeAccepted(next, changes[1..], textValue)
  }

  lemma ProposedCovers(config: Json, params: map<string, Json>, mode: Option<string>)
    ensures Covers(Proposed(config, params, mode), DEFAULTS)
  {
    MergedCovers(DEFAULTS, config);
    MergeKeepsCovering(DEFAULTS, Merged(DEFAULTS, config), Overrides(params));
    ModeKeepsCovering(Merged(Merged(DEFAULTS, config), Overrides(params)), mode);
  }

  lemma ModeKeepsCovering(config: Json, mode: Option<string>)
    requires Covers(config, DEFAULTS)
    ensures Covers(WithMode(config, mode), DEFAULTS)
  {
  }

  /**
   * One request: complete configurations stay complete, and the limits are in range after it exactly
   * when they were or it was accepted.
   */
  lemma RequestKeepsSound(config: Json, change: Change, textValue: TextValue)
    requires Covers(config, DEFAULTS)
    ensures var (next, accepted) := Configured(config, change.params, change.mode, textValue);
            Covers(next, DEFAULTS) && (LimitsInRange(next, textValue) <==> LimitsInRange(config, textValue) || accepted)
  {
    ProposedCovers(config, change.params, change.mode);
  }

  lemma {:induction false} RequestsKeepSound(config: Json, changes: seq<Change>, textValue: TextValue)
    requires Covers(config, DEFAULTS)
    ensures var end := ConfiguredAll(config, changes, textValue);
            Covers(end, DEFAULTS)
            && (LimitsInRange(end, textValue) <==>
                LimitsInRange(config, textValue) || SomeAccepted(config, changes, textValue))
    decreases |changes|
  {
    if changes == [] {
    } else {
      var next := Configured(config, changes[0].params, changes[0].mode, textValue).0;
      RequestKeepsSound(config, changes[0], textValue);
      RequestsKeepSound(next, changes[1..], textValue);
    }
  }

  /**
   * Whatever was stored, and over every sequence of requests: every default section stays a section
   * at every depth, and storing and loading the result again gives it back unchanged. The load does
   * not check the limits, so they are in range exactly when the loaded ones were or some request was
   * accepted.
   */
  lemma ConfigurationStaysSound(stored: Json, changes: seq<Change>, textValue: TextValue)
    ensures var loaded := Merged(DEFAULTS, stored);
            var end := ConfiguredAll(loaded, changes, textValue);
            && Covers(end, DEFAULTS) && Merged(DEFAULTS, end) == end
            && (LimitsInRange(end, textValue) <==>
                LimitsInRange(loaded, textValue) || SomeAccepted(loaded, changes, textValue))
  {
    var loaded := Merged(DEFAULTS, stored);
    MergedCovers(DEFAULTS, stored);
    RequestsKeepSound(loaded, changes, textValue);
    CoveringIsAbsorbed(DEFAULTS, ConfiguredAll(loaded, changes, textValue));
  }

  // ---------------------------------------------------------------- what the policy reads

  /** How `boolValue` reads a text. */
  type TextFlag = string -> bool

  /** A list or a dictionary has no `boolValue`: asking it for one raises. */
  predicate HasFlag(j: Json) { !j.List? && !j.Object? }

  /** What stands under a section's "enabled"; a missing one is no flag set. */
  function FlagOf(config: Json, section: string): Json { Member(Member(config, section), "enabled") }

  function Flag(config: Json, section: string, textFlag: TextFlag): bool
    requires HasFlag(FlagOf(config, section))
  {
    match FlagOf(config, section)
    case Number(value) => value != 0.0
    case Text(text) => textFlag(text)
    case Null => false
  }

  /** A tick reads both flags, so with either unreadable it ends in an exception before the policy has done anything. */
  predicate FlagsReadable(config: Json) {
    HasFlag(FlagOf(config, "chargeLimit")) && HasFlag(FlagOf(config, "thermal"))
  }

  function SettingsOf(config: Json, textValue: TextValue, textFlag: TextFlag): HealthPolicy.Settings
    requires FlagsReadable(config)
  {
    HealthPolicy.Settings(
      Flag(config, "chargeLimit", textFlag),
      ConfigValue(config, "chargeLimit", "low", textValue), ConfigValue(config, "chargeLimit", "high", textValue),
      if Member(config, "chargeMode").Text? then Member(config, "chargeMode").text else "auto",
      Flag(config, "thermal", textFlag),
      ConfigValue(config, "thermal", "pauseChargingC", textValue),
      ConfigValue(config, "thermal", "throttleC", textValue),
      ConfigValue(config, "thermal", "dimC", textValue), ConfigValue(config, "thermal", "resumeC", textValue))
  }

  // ---------------------------------------------------------------- what a request does

  /** The value a request asks for in a section; Null stands for none. */
  function Requested(params: map<string, Json>, section: string, key: string): Json {
    if section in params then Member(params[section], key) else Null
  }

  /** What stands in a section of the configuration. */
  function ValueAt(config: Json, section: string, key: string): Json { Member(Member(config, section), key) }

  predicate IsSection(key: string) { key == "chargeLimit" || key == "thermal" || key == "alerts" }

  /** Where the old value is a dictionary, a merge puts there what was asked for merged into it. */
  lemma MergedMember(config: Json, overrides: Json, key: string)
    requires config.Object? && overrides.Object?
    ensures Member(Merged(config, overrides), key) == Merged(Member(config, key), Member(overrides, key))
  {
  }

  lemma MergedWithNull(j: Json)
    ensures Merged(j, Null) == j
  {
  }

  lemma MergedValue(section: Json, override: Json, key: string)
    requires section.Object?
    ensures Member(Merged(section, override), key) == Merged(Member(section, key), Member(override, key))
  {
    if override.Object? {
      MergedMember(section, override, key);
    } else {
      MergedWithNull(Member(section, key));
    }
  }

  lemma CoveringHasMember(config: Json, default: Json, key: string)
    requires Covers(config, default) && default.Object? && key in default.members
    ensures config.Object? && key in config.members && Covers(config.members[key], default.members[key])
  {
  }

  lemma DefaultsHaveSections(section: string)
    requires IsSection(section)
    ensures section in DEFAULTS.members && DEFAULTS.members[section].Object?
  {
  }

  /** A complete configuration has every section. */
  lemma CoveringHasSections(config: Json, section: string)
    requires Covers(config, DEFAULTS) && IsSection(section)
    ensures config.Object? && section in config.members && config.members[section].Object?
  {
    DefaultsHaveSections(section);
    CoveringHasMember(config, DEFAULTS, section);
  }

  lemma CoveringHasFlags(config: Json, section: string)
    requires Covers(config, DEFAULTS) && IsFlagged(section)
    ensures FlagOf(config, section) != Null
  {
    CoveringHasSections(config, section);
    var default := Member(DEFAULTS, section);
    assert "enabled" in default.members && default.members["enabled"] != Null;
    assert Covers(config.members[section], default);
  }

  lemma ProposedMember(config: Json, params: map<string, Json>, mode: Option<string>, key: string)
    requires Merged(DEFAULTS, config) == config && config.Object?
    ensures key != "chargeMode" ==>
              Member(Proposed(config, params, mode), key) == Member(Merged(config, Overrides(params)), key)
    ensures key == "chargeMode" && mode.Some? ==> Member(Proposed(config, params, mode), key) == Text(mode.value)
    ensures mode.None? ==>
              Member(Proposed(config, params, mode), key) == Member(Merged(config, Overrides(params)), key)
  {
  }

  lemma OverrideMember(params: map<string, Json>, section: string, key: string)
    ensures IsSection(section) ==> Member(Member(Overrides(params), section), key) == Requested(params, section, key)
    ensures !IsSection(section) ==> Member(Overrides(params), section) == Null
  {
    assert SECTIONS[0] == "chargeLimit" && SECTIONS[1] == "thermal" && SECTIONS[2] == "alerts";
  }

  /**
   * In a section: what was there, with what was asked for merged in, so the asked-for value unless a
   * dictionary stands there.
   */
  lemma ProposedValue(config: Json, params: map<string, Json>, mode: Option<string>, section: string, key: string)
    requires Covers(config, DEFAULTS) && IsSection(section)
    ensures ValueAt(Proposed(config, params, mode), section, key) ==
            Merged(ValueAt(config, section, key), Requested(params, section, key))
  {
    CoveringIsAbsorbed(DEFAULTS, config);
    CoveringHasSections(config, section);
    ProposedMember(config, params, mode, section);
    MergedMember(config, Overrides(params), section);
    OverrideMember(params, section, key);
    MergedValue(config.members[section], Member(Overrides(params), section), key);
  }

  /** Outside the sections: the mode is the one asked for, if one is, and nothing else changes. */
  lemma ProposedElsewhere(config: Json, params: map<string, Json>, mode: Option<string>, key: string)
    requires Covers(config, DEFAULTS) && !IsSection(key)
    ensures Member(Proposed(config, params, mode), key) ==
            if key == "chargeMode" && mode.Some? then Text(mode.value) else Member(config, key)
  {
    CoveringIsAbsorbed(DEFAULTS, config);
    ProposedMember(config, params, mode, key);
    MergedMember(config, Overrides(params), key);
    OverrideMember(params, key, key);
    MergedWithNull(Member(config, key));
  }

  /** The number the policy takes a value for. */
  function NumberOf(j: Json, fallback: real, textValue: TextValue): real {
    match j
    case Number(value) => value
    case Text(text) => textValue(text)
    case _ => fallback
  }

  /** A limit as it will be after a request. */
  function LimitAfter(config: Json, params: map<string, Json>, key: string, fallback: real, textValue: TextValue)
    : real
  {
    var section := "chargeLimit";
    NumberOf(Merged(ValueAt(config, section, key), Requested(params, section, key)), fallback, textValue)
  }

  lemma ProposedLimits(config: Json, params: map<string, Json>, mode: Option<string>, textValue: TextValue)
    requires Covers(config, DEFAULTS)
    ensures var low, high := LimitAfter(config, params, "low", 50.0, textValue),
              LimitAfter(config, params, "high", 80.0, textValue);
            LimitsInRange(Proposed(config, params, mode), textValue) <==> 5.0 <= low < high <= 100.0
  {
    ProposedValue(config, params, mode, "chargeLimit", "low");
    ProposedValue(config, params, mode, "chargeLimit", "high");
    DefaultLimits(textValue);
  }

  lemma DefaultLimits(textValue: TextValue)
    ensures ConfigValue(DEFAULTS, "chargeLimit", "low", textValue) == 50.0
    ensures ConfigValue(DEFAULTS, "chargeLimit", "high", textValue) == 80.0
    ensures NumberIn(Member(DEFAULTS, "chargeLimit"), "low", 0.0, textValue) == 50.0
    ensures NumberIn(Member(DEFAULTS, "chargeLimit"), "high", 0.0, textValue) == 80.0
  {
  }

  predicate IsMode(mode: string) { mode == "auto" || mode == "inhibit" || mode == "allow" }

  lemma ModesAre(mode: string)
    ensures mode in MODES <==> IsMode(mode)
  {
  }

  /**
   * A request is accepted exactly when its mode, if it names one, is one of the three and the limits
   * it leads to are in range; otherwise nothing changes.
   */
  lemma AcceptedExactly(config: Json, params: map<string, Json>, mode: Option<string>, textValue: TextValue)
    requires Covers(config, DEFAULTS)
    ensures var (next, accepted) := Configured(config, params, mode, textValue);
            && (accepted <==>
                 && (mode.Some? ==> IsMode(mode.value))
                 && 5.0 <= LimitAfter(config, params, "low", 50.0, textValue)
                        < LimitAfter(config, params, "high", 80.0, textValue) <= 100.0)
            && (!accepted ==> next == config)
  {
    ProposedLimits(config, params, mode, textValue);
    if mode.Some? { ModesAre(mode.value); }
  }

  /** Whatever was there, what an accepted request asked for is merged into it, and nothing else changed. */
  ghost predicate IsEffect(config: Json, params: map<string, Json>, mode: Option<string>, next: Json) {
    && (forall section, key | IsSection(section) ::
          ValueAt(next, section, key) == Merged(ValueAt(config, section, key), Requested(params, section, key)))
    && (forall key | !IsSection(key) ::
          Member(next, key) == if key == "chargeMode" && mode.Some? then Text(mode.value) else Member(config, key))
  }

  /**
   * An accepted request takes effect as asked: every value of the three sections is what was asked for
   * merged into what was there, the mode is the one named if one was, and everything else is as before.
   */
  lemma RequestTakesEffect(config: Json, params: map<string, Json>, mode: Option<string>, textValue: TextValue)
    requires Covers(config, DEFAULTS)
    ensures var (next, accepted) := Configured(config, params, mode, textValue);
            accepted ==> IsEffect(config, params, mode, next)
  {
    ProposalIsEffect(config, params, mode);
  }

  lemma ProposalIsEffect(config: Json, params: map<string, Json>, mode: Option<string>)
    requires Covers(config, DEFAULTS)
    ensures IsEffect(config, params, mode, Proposed(config, params, mode))
  {
    forall section, key | IsSection(section) { ProposedValue(config, params, mode, section, key); }
    forall key | !IsSection(key) { ProposedElsewhere(config, params, mode, key); }
  }

  /** The sections whose flags are read. */
  predicate IsFlagged(section: string) { section == "chargeLimit" || section == "thermal" }

  /** What makes the flag readable after an accepted request. */
  predicate FlagStays(config: Json, params: map<string, Json>, section: string) {
    var requested, before := Requested(params, section, "enabled"), FlagOf(config, section);
    !before.Object? && HasFlag(if requested != Null then requested else before)
  }

  /**
   * An accepted request can leave a flag unreadable, and a later request cannot always mend it: a
   * section's flag is readable afterwards exactly when it was no dictionary before, and what the
   * request puts there, or if nothing, what was there, is readable.
   */
  lemma FlagAfterRequest(
    config: Json, params: map<string, Json>, mode: Option<string>, textValue: TextValue, section: string)
    requires Covers(config, DEFAULTS) && IsFlagged(section)
    ensures var (next, accepted) := Configured(config, params, mode, textValue);
            accepted ==> (HasFlag(FlagOf(next, section)) <==> FlagStays(config, params, section))
  {
    ProposedValue(config, params, mode, section, "enabled");
    CoveringHasFlags(config, section);
  }

  /** The mode the policy reads is the one of the last accepted request that named one. */
  lemma ModeIsRead(
    config: Json, params: map<string, Json>, mode: Option<string>, textValue: TextValue, textFlag: TextFlag)
    requires Covers(config, DEFAULTS)
    requires var (next, accepted) := Configured(config, params, mode, textValue); accepted && FlagsReadable(next)
    ensures var next := Configured(config, params, mode, textValue).0;
            var read := SettingsOf(next, textValue, textFlag).chargeMode;
            && (mode.Some? ==> read == mode.value)
            && (mode.None? && FlagsReadable(config) ==> read == SettingsOf(config, textValue, textFlag).chargeMode)
  {
    ProposedElsewhere(config, params, mode, "chargeMode");
  }

  /** The settings of the built-in defaults; they are ordered, so escalation is nested under them. */
  lemma DefaultSettings(textValue: TextValue, textFlag: TextFlag)
    ensures FlagsReadable(DEFAULTS)
    ensures var c := SettingsOf(DEFAULTS, textValue, textFlag);
            && c == HealthPolicy.Settings(true, 50.0, 80.0, "auto", true, 40.0, 43.0, 45.0, 37.0)
            && HealthPolicy.Ordered(c)
  {
  }

  /**
   * Whatever was stored, a policy at work on one configuration that a request was accepted for, or
   * that was loaded with limits in range, holds the charge exactly by its history.
   */
  lemma ConfiguredLimitHoldsByHistory(
    stored: Json, changes: seq<Change>, ticks: seq<HealthPolicy.Tick>, inhibited: bool,
    textValue: TextValue, textFlag: TextFlag)
    requires var loaded := Merged(DEFAULTS, stored);
             LimitsInRange(loaded, textValue) || SomeAccepted(loaded, changes, textValue)
    requires var config := ConfiguredAll(Merged(DEFAULTS, stored), changes, textValue);
             && FlagsReadable(config)
             && var settings := SettingsOf(config, textValue, textFlag);
                settings.limitEnabled && forall t <- ticks :: t.c == settings
    ensures var config := ConfiguredAll(Merged(DEFAULTS, stored), changes, textValue);
            var settings := SettingsOf(config, textValue, textFlag);
            HealthPolicy.Run(HealthPolicy.Initial(inhibited), ticks).limitHolding <==>
            HealthPolicy.ReachedAndStayed(HealthPolicy.Percents(ticks), settings.low, settings.high)
  {
    ConfigurationStaysSound(stored, changes, textValue);
    var settings := SettingsOf(ConfiguredAll(Merged(DEFAULTS, stored), changes, textValue), textValue, textFlag);
    HealthPolicy.RunHoldsByHistory(ticks, settings.low, settings.high, inhibited);
  }
}
