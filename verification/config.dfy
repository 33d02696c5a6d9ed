/** The configuration manager's in-memory state and its pure accessors. Loading and saving
    the JSON documents is file I/O and is not modelled: a manager value is the state those
    loads leave behind. */
module Config {
  import opened Types

  /** A value of the main configuration document (`config.json`). */
  datatype Value = Str(s: string) | Bool(b: bool)

  const DEFAULT_PROFILE: string := "figma_to_photoshop.json"

  /** Per-action native commands: target application name -> command string, plus an
      optional `"type"` entry (`"key"` or `"gesture"`). */
  type ActionDefs = map<string, string>

  /** The semantic action catalog, in document order: action name -> its definitions. */
  type Catalog = OrderedDict<ActionDefs>

  /** The `"system_definitions"` object; `actions` is None when the key is missing. */
  datatype SystemDefinitions = SystemDefinitions(actions: Option<Catalog>)

  /** One user profile; `settings` maps action name -> preference. */
  datatype UserProfile = UserProfile(settings: Option<map<string, string>>)

  /** The semantic configuration document. */
  datatype SemanticData = SemanticData(
    systemDefinitions: Option<SystemDefinitions>,
    profiles: Option<OrderedDict<UserProfile>>)

  /** The legacy per-profile document (`target_apps`, `mappings`). */
  datatype ProfileData = ProfileData(targetApps: Option<seq<string>>, mappings: Option<seq<Rule>>)

  datatype ConfigManager = ConfigManager(
    config: map<string, Value>,
    semantic: SemanticData,
    activeProfileData: ProfileData)

  /** The configuration used until `config.json` is read. */
  function DefaultConfig(): (c: map<string, Value>)
    ensures c.Keys == {"active_profile", "custom_overrides_enabled"}
    ensures c["active_profile"] == Str(DEFAULT_PROFILE)
    ensures c["custom_overrides_enabled"] == Bool(true)
  {
    map["active_profile" := Str(DEFAULT_PROFILE), "custom_overrides_enabled" := Bool(true)]
  }

  /** The manager as its constructor leaves it before any file is read: default config,
      empty definitions, a `"user_profile"` key (not `"profiles"`), no profile data. */
  function NewManager(): ConfigManager
  {
    ConfigManager(DefaultConfig(), SemanticData(Some(SystemDefinitions(None)), None), ProfileData(None, None))
  }

  /** `config.get("active_profile", "figma_to_photoshop.json")` */
  function ActiveProfileName(config: map<string, Value>): Value
  {
    MapGetOr(config, "active_profile", Str(DEFAULT_PROFILE))
  }

  /** `semantic_data.get("system_definitions", {})` */
  function GetSystemDefinitions(m: ConfigManager): (d: SystemDefinitions)
    ensures m.semantic.systemDefinitions.Some? ==> d == m.semantic.systemDefinitions.value
    ensures m.semantic.systemDefinitions.None? ==> d.actions.None?
  {
    match m.semantic.systemDefinitions
    case Some(d) => d
    case None => SystemDefinitions(None)
  }

  /** `definitions.get("actions", {})` */
  function Actions(d: SystemDefinitions): Catalog
  {
    match d.actions
    case Some(a) => a
    case None => []
  }

  /** `profile.get("settings", {})` */
  function Settings(p: UserProfile): map<string, string>
  {
    match p.settings
    case Some(s) => s
    case None => map[]
  }

  function Profiles(m: ConfigManager): OrderedDict<UserProfile>
  {
    match m.semantic.profiles
    case Some(p) => p
    case None => []
  }

  /** The active profile name, when it is a string (a non-string name matches no profile). */
  function ActiveName(m: ConfigManager): Option<string>
  {
    match ActiveProfileName(m.config)
    case Str(name) => Some(name)
    case Bool(_) => None
  }

  /** Whether a profile is stored under the active name. */
  predicate HasActiveProfile(m: ConfigManager)
  {
    ActiveName(m).Some? && DictGet(Profiles(m), ActiveName(m).value).Some?
  }

  /** The active profile if one is stored under the active name, else the first profile
      in document order, else the empty profile. */
  function GetUserProfile(m: ConfigManager): (p: UserProfile)
    ensures HasActiveProfile(m) ==>
              exists i :: 0 <= i < |Profiles(m)| && Profiles(m)[i] == (ActiveName(m).value, p)
    ensures !HasActiveProfile(m) && |Profiles(m)| > 0 ==> p == Profiles(m)[0].1
    ensures |Profiles(m)| == 0 ==> p == UserProfile(None)
  {
    var profiles := Profiles(m);
    var found := match ActiveName(m)
      case Some(name) => DictGet(profiles, name)
      case None => None;
    match found
    case Some(p) => p
    case None => if |profiles| > 0 then profiles[0].1 else UserProfile(None)
  }

  /** Every application name any action defines a command for (every key except "type"). */
  function AppsOf(actions: Catalog): (apps: set<string>)
    ensures forall a :: a in apps <==> a != "type" && exists i :: 0 <= i < |actions| && a in actions[i].1
  {
    if |actions| == 0 then {}
    else
      var rest := AppsOf(actions[1..]);
      assert forall i :: 1 <= i < |actions| ==> actions[i] == actions[1..][i - 1];
      rest + (set a | a in actions[0].1 && a != "type")
  }

  /** The applications the catalog supports (returned as a list in the source; the order
      there is that of a Python set, so the model keeps a set). */
  function GetSemanticTargets(m: ConfigManager): (apps: set<string>)
    ensures forall a :: a in apps <==>
              a != "type" && exists i :: 0 <= i < |Actions(GetSystemDefinitions(m))| && a in Actions(GetSystemDefinitions(m))[i].1
  {
    AppsOf(Actions(GetSystemDefinitions(m)))
  }

  /** Switching profile writes the new name under `"active_profile"` and nothing else. */
  function SetActiveProfile(m: ConfigManager, name: string): (m': ConfigManager)
    ensures ActiveProfileName(m'.config) == Str(name)
    ensures m'.config.Keys == m.config.Keys + {"active_profile"}
    ensures forall k :: k in m.config && k != "active_profile" ==> m'.config[k] == m.config[k]
    ensures m'.semantic == m.semantic && m'.activeProfileData == m.activeProfileData
  {
    m.(config := m.config["active_profile" := Str(name)])
  }

  /** `active_profile_data.get("target_apps", [])` */
  function GetActiveProfileTargets(m: ConfigManager): (targets: seq<string>)
    ensures m.activeProfileData.targetApps.Some? ==> targets == m.activeProfileData.targetApps.value
    ensures m.activeProfileData.targetApps.None? ==> targets == []
  {
    match m.activeProfileData.targetApps
    case Some(t) => t
    case None => []
  }

  /** `active_profile_data.get("mappings", [])` */
  function GetActiveMappings(m: ConfigManager): (rules: seq<Rule>)
    ensures m.activeProfileData.mappings.Some? ==> rules == m.activeProfileData.mappings.value
    ensures m.activeProfileData.mappings.None? ==> rules == []
  {
    match m.activeProfileData.mappings
    case Some(r) => r
    case None => []
  }

  /** Every rule counts as enabled: there is no per-rule switch. */
  function IsRuleEnabled(m: ConfigManager, ruleId: string): (enabled: bool)
    ensures enabled
  {
    true
  }

  /** After a profile switch, the user profile read back is the one stored under the new
      name whenever such a profile exists. */
  lemma SwitchThenRead(m: ConfigManager, name: string, p: UserProfile)
    requires DictGet(Profiles(m), name) == Some(p)
    ensures GetUserProfile(SetActiveProfile(m, name)) == p
  {
  }

  /** Switching profile does not touch the legacy profile data: the targets and mappings
      the observer reads stay those loaded before the switch. */
  lemma SwitchKeepsLegacyData(m: ConfigManager, name: string)
    ensures GetActiveProfileTargets(SetActiveProfile(m, name)) == GetActiveProfileTargets(m)
    ensures GetActiveMappings(SetActiveProfile(m, name)) == GetActiveMappings(m)
  {
  }

  /** A freshly constructed manager uses the default profile name, has no profiles, no
      catalog and no active-profile data, so it yields no targets and no mappings. */
  lemma FreshManager()
    ensures ActiveProfileName(NewManager().config) == Str(DEFAULT_PROFILE)
    ensures GetUserProfile(NewManager()) == UserProfile(None)
    ensures GetSemanticTargets(NewManager()) == {}
    ensures GetActiveProfileTargets(NewManager()) == [] && GetActiveMappings(NewManager()) == []
  {
  }
}
