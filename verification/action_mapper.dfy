/** The action mapper: builds the trigger -> output rule list for the focused application
    from the semantic action catalog and the user's per-action preferences. */
module ActionMapper {
  import opened Types
  import opened Strings
  import opened Config

  const CUSTOM_PREFIX: string := "custom:"
  const DEFAULT_PREFERENCE: string := "figma"
  const DEFAULT_KIND: string := "key"

  /** Normalises an application identifier to a catalog key: "photoshop" wins over
      "figma" when both occur; any other identifier has no key. */
  function ContextKey(contextApp: string): (k: Option<string>)
    ensures k == Some("photoshop") <==> Contains(Lower(contextApp), "photoshop")
    ensures k == Some("figma") <==> (!Contains(Lower(contextApp), "photoshop") && Contains(Lower(contextApp), "figma"))
    ensures k.None? <==> !Contains(Lower(contextApp), "photoshop") && !Contains(Lower(contextApp), "figma")
  {
    var context := Lower(contextApp);
    if Contains(context, "photoshop") then Some("photoshop")
    else if Contains(context, "figma") then Some("figma")
    else None
  }

  /** The user's preference for an action: an application name or `custom:<combo>`. */
  function Preference(settings: map<string, string>, action: string): string
  {
    MapGetOr(settings, action, DEFAULT_PREFERENCE)
  }

  /** The trigger a preference selects: the stripped text after the `custom:` prefix, or
      the named application's command for this action; None when that is missing or empty. */
  function ResolveTrigger(pref: string, defs: ActionDefs): (t: Option<string>)
    ensures t.Some? ==> t.value != ""
    ensures StartsWith(pref, CUSTOM_PREFIX) ==>
              t == (if Strip(pref[|CUSTOM_PREFIX|..]) == "" then None else Some(Strip(pref[|CUSTOM_PREFIX|..])))
    ensures !StartsWith(pref, CUSTOM_PREFIX) ==>
              (t.Some? <==> pref in defs && defs[pref] != "") && (t.Some? ==> t.value == defs[pref])
  {
    var trigger :=
      if StartsWith(pref, CUSTOM_PREFIX) then Some(Strip(pref[|CUSTOM_PREFIX|..]))
      else if pref in defs then Some(defs[pref])
      else None;
    if trigger == Some("") then None else trigger
  }

  /** The trigger of one catalog entry under the user's settings. */
  function TriggerOf(action: (string, ActionDefs), settings: map<string, string>): Option<string>
  {
    ResolveTrigger(Preference(settings, action.0), action.1)
  }

  /** The rule one catalog entry contributes in context `key`, if any. */
  function RuleFor(action: (string, ActionDefs), settings: map<string, string>, key: string): Option<Rule>
  {
    var defs := action.1;
    if key !in defs || defs[key] == "" then None
    else match TriggerOf(action, settings)
      case None => None
      case Some(trigger) => Some(Rule(trigger, defs[key], MapGetOr(defs, "type", DEFAULT_KIND)))
  }

  /** The rules of a catalog, in catalog order: one per action that has both a command for
      the context and a resolvable trigger, none for the others. */
  function BuildRules(actions: Catalog, settings: map<string, string>, key: string): (rules: seq<Rule>)
    ensures |rules| <= |actions|
    ensures forall r :: r in rules ==> exists i :: 0 <= i < |actions| && RuleFor(actions[i], settings, key) == Some(r)
    ensures forall i :: 0 <= i < |actions| && RuleFor(actions[i], settings, key).Some?
              ==> RuleFor(actions[i], settings, key).value in rules
  {
    if |actions| == 0 then []
    else
      var rest := BuildRules(actions[1..], settings, key);
      assert forall i :: 1 <= i < |actions| ==> actions[i] == actions[1..][i - 1];
      match RuleFor(actions[0], settings, key)
      case None => rest
      case Some(r) => [r] + rest
  }

  /** Rule building distributes over catalog concatenation, so an unresolvable action
      drops out and every other action keeps its place in catalog order. */
  lemma {:induction false} BuildRulesAppend(a: Catalog, b: Catalog, settings: map<string, string>, key: string)
    ensures BuildRules(a + b, settings, key) == BuildRules(a, settings, key) + BuildRules(b, settings, key)
  {
    if |a| == 0 {
      assert a + b == b;
    } else {
      assert (a + b)[0] == a[0];
      assert (a + b)[1..] == a[1..] + b;
      BuildRulesAppend(a[1..], b, settings, key);
    }
  }

  /** An action skipped for this context leaves the rules of the others unchanged. */
  lemma SkippedAction(a: Catalog, x: (string, ActionDefs), b: Catalog, settings: map<string, string>, key: string)
    requires RuleFor(x, settings, key).None?
    ensures BuildRules(a + [x] + b, settings, key) == BuildRules(a, settings, key) + BuildRules(b, settings, key)
  {
    BuildRulesAppend(a + [x], b, settings, key);
    BuildRulesAppend(a, [x], settings, key);
    assert [x][1..] == [];
    assert BuildRules([x], settings, key) == BuildRules([], settings, key);
    assert a + [x] + b == (a + [x]) + b;
  }

  /** Every emitted rule outputs the focused application's non-empty command for some
      action and is triggered by that action's non-empty resolved trigger; its kind is the
      action's "type", defaulting to "key". */
  lemma RulesShape(actions: Catalog, settings: map<string, string>, key: string)
    ensures forall r :: r in BuildRules(actions, settings, key) ==>
              exists i :: 0 <= i < |actions|
                && key in actions[i].1 && r.output == actions[i].1[key] && r.output != ""
                && TriggerOf(actions[i], settings) == Some(r.input) && r.input != ""
                && r.kind == MapGetOr(actions[i].1, "type", DEFAULT_KIND)
  {
  }

  /** An action the user has no preference for is triggered by its Figma command, and a
      rule is kept even when trigger and output coincide. */
  lemma DefaultPreferenceRule(action: (string, ActionDefs), settings: map<string, string>, key: string)
    requires action.0 !in settings
    requires key in action.1 && action.1[key] != ""
    requires "figma" in action.1 && action.1["figma"] != ""
    ensures RuleFor(action, settings, key) == Some(Rule(action.1["figma"], action.1[key], MapGetOr(action.1, "type", DEFAULT_KIND)))
  {
    assert !StartsWith("figma", CUSTOM_PREFIX);
  }

  /** The mapper's cache: the context key last built and the rules built for it. */
  datatype Cache = Cache(current: Option<string>, cached: seq<Rule>)

  /** The cache holds a non-empty rule list for the context's key. */
  predicate CacheHit(cache: Cache, contextApp: string)
  {
    ContextKey(contextApp).Some? && cache.current == ContextKey(contextApp) && |cache.cached| > 0
  }

  /** The rules for the focused application and the cache afterwards. An unknown context
      yields no rules and leaves the cache alone; a non-empty cache for the same context
      key is returned as it is (even if the configuration changed since); otherwise the
      rules are rebuilt from the manager's catalog and active profile and cached. */
  function GetMappingsForContext(cache: Cache, contextApp: string, m: ConfigManager): (res: (seq<Rule>, Cache))
    ensures ContextKey(contextApp).None? ==> res == ([], cache)
    ensures CacheHit(cache, contextApp) ==> res == (cache.cached, cache)
    ensures ContextKey(contextApp).Some? && !CacheHit(cache, contextApp) ==>
              && res.0 == BuildRules(Actions(GetSystemDefinitions(m)), Settings(GetUserProfile(m)), ContextKey(contextApp).value)
              && res.1 == Cache(ContextKey(contextApp), res.0)
  {
    match ContextKey(contextApp)
    case None => ([], cache)
    case Some(key) =>
      if cache.current == Some(key) && |cache.cached| > 0 then (cache.cached, cache)
      else
        var rules := BuildRules(Actions(GetSystemDefinitions(m)), Settings(GetUserProfile(m)), key);
        (rules, Cache(Some(key), rules))
  }

  /** Forgets the cached context and rules. */
  function ClearCache(cache: Cache): (c: Cache)
    ensures c.current.None? && c.cached == []
  {
    Cache(None, [])
  }

  /** After clearing, the next request for a known context rebuilds from the configuration. */
  lemma ClearedCacheRebuilds(cache: Cache, contextApp: string, m: ConfigManager)
    requires ContextKey(contextApp).Some?
    ensures GetMappingsForContext(ClearCache(cache), contextApp, m).0
              == BuildRules(Actions(GetSystemDefinitions(m)), Settings(GetUserProfile(m)), ContextKey(contextApp).value)
  {
  }

  /** Two consecutive requests for the same context, configuration unchanged, give the
      same rules, whether the second is served from the cache or rebuilt. */
  lemma RepeatedRequestStable(cache: Cache, contextApp: string, m: ConfigManager)
    ensures var (first, cache') := GetMappingsForContext(cache, contextApp, m);
            GetMappingsForContext(cache', contextApp, m).0 == first
  {
  }

  /** What hook registration records about a trigger. */
  datatype TriggerMeta = TriggerMeta(action: string, kind: string)

  /** The registration key of a catalog entry: its lower-cased trigger, if resolvable. */
  function TriggerKey(action: (string, ActionDefs), settings: map<string, string>): Option<string>
  {
    match TriggerOf(action, settings)
    case None => None
    case Some(t) => Some(Lower(t))
  }

  function Meta(action: (string, ActionDefs)): TriggerMeta
  {
    TriggerMeta(action.0, MapGetOr(action.1, "type", DEFAULT_KIND))
  }

  /** Registers each present key with its metadata, in order; a later entry overwrites
      an earlier one with the same key. */
  function InsertAll(entries: seq<(Option<string>, TriggerMeta)>): map<string, TriggerMeta>
  {
    if |entries| == 0 then map[]
    else
      var n := |entries| - 1;
      var earlier := InsertAll(entries[..n]);
      match entries[n].0
      case None => earlier
      case Some(k) => earlier[k := entries[n].1]
  }

  /** Entry `i` is the last whose key is `k`. */
  ghost predicate LastWithKey(entries: seq<(Option<string>, TriggerMeta)>, k: string, i: int)
  {
    && 0 <= i < |entries|
    && entries[i].0 == Some(k)
    && forall j :: i < j < |entries| ==> entries[j].0 != Some(k)
  }

  lemma {:induction false} InsertAllLastWins(entries: seq<(Option<string>, TriggerMeta)>, k: string)
    ensures k in InsertAll(entries) <==> exists i :: 0 <= i < |entries| && entries[i].0 == Some(k)
    ensures k in InsertAll(entries) ==> exists i :: LastWithKey(entries, k, i) && InsertAll(entries)[k] == entries[i].1
  {
    if |entries| > 0 {
      var n := |entries| - 1;
      var front := entries[..n];
      InsertAllLastWins(front, k);
      assert forall i :: 0 <= i < n ==> entries[i] == front[i];
      if entries[n].0 == Some(k) {
        assert LastWithKey(entries, k, n);
      } else if k in InsertAll(entries) {
        var i :| LastWithKey(front, k, i) && InsertAll(front)[k] == front[i].1;
        assert LastWithKey(entries, k, i);
      }
    }
  }

  /** Each catalog entry's registration key and metadata, in catalog order. */
  function Entries(actions: Catalog, settings: map<string, string>): (e: seq<(Option<string>, TriggerMeta)>)
    ensures |e| == |actions|
    ensures forall i :: 0 <= i < |actions| ==> e[i] == (TriggerKey(actions[i], settings), Meta(actions[i]))
  {
    seq(|actions|, i requires 0 <= i < |actions| => (TriggerKey(actions[i], settings), Meta(actions[i])))
  }

  /** Every configured trigger, whatever the context, lower-cased, registered in catalog
      order. */
  function AllTriggers(actions: Catalog, settings: map<string, string>): map<string, TriggerMeta>
  {
    InsertAll(Entries(actions, settings))
  }

  /** Entry `i` is the last in the catalog whose trigger lower-cases to `k`. */
  ghost predicate LastResolvingTo(actions: Catalog, settings: map<string, string>, k: string, i: int)
  {
    && 0 <= i < |actions|
    && TriggerKey(actions[i], settings) == Some(k)
    && forall j :: i < j < |actions| ==> TriggerKey(actions[j], settings) != Some(k)
  }

  /** A key is registered exactly when some action's trigger lower-cases to it, and it
      carries the metadata of the last such action (last write wins). */
  lemma AllTriggersLastWins(actions: Catalog, settings: map<string, string>, k: string)
    ensures k in AllTriggers(actions, settings) <==> exists i :: 0 <= i < |actions| && TriggerKey(actions[i], settings) == Some(k)
    ensures k in AllTriggers(actions, settings) ==>
              exists i :: LastResolvingTo(actions, settings, k, i) && AllTriggers(actions, settings)[k] == Meta(actions[i])
  {
    var e := Entries(actions, settings);
    InsertAllLastWins(e, k);
    if k in InsertAll(e) {
      var i :| LastWithKey(e, k, i) && InsertAll(e)[k] == e[i].1;
      assert LastResolvingTo(actions, settings, k, i);
    }
    if exists i :: 0 <= i < |actions| && TriggerKey(actions[i], settings) == Some(k) {
      var i :| 0 <= i < |actions| && TriggerKey(actions[i], settings) == Some(k);
      assert e[i].0 == Some(k);
    }
  }

  /** `AllTriggersLastWins` for every key at once. */
  lemma AllTriggersEveryKey(actions: Catalog, settings: map<string, string>)
    ensures forall k :: k in AllTriggers(actions, settings) <==>
              exists i :: 0 <= i < |actions| && TriggerKey(actions[i], settings) == Some(k)
    ensures forall k :: k in AllTriggers(actions, settings) ==>
              exists i :: LastResolvingTo(actions, settings, k, i) && AllTriggers(actions, settings)[k] == Meta(actions[i])
  {
    forall k ensures k in AllTriggers(actions, settings) <==>
                     exists i :: 0 <= i < |actions| && TriggerKey(actions[i], settings) == Some(k)
    {
      AllTriggersLastWins(actions, settings, k);
    }
    forall k | k in AllTriggers(actions, settings)
      ensures exists i :: LastResolvingTo(actions, settings, k, i) && AllTriggers(actions, settings)[k] == Meta(actions[i])
    {
      AllTriggersLastWins(actions, settings, k);
    }
  }

  /** `get_all_configured_triggers`: over the manager's catalog and its active profile's
      settings, a lower-cased trigger is registered exactly when some action resolves to
      it, with the metadata of the last such action. */
  function GetAllConfiguredTriggers(m: ConfigManager): (triggers: map<string, TriggerMeta>)
    ensures var actions := Actions(GetSystemDefinitions(m));
            var settings := Settings(GetUserProfile(m));
            && (forall k :: k in triggers <==> exists i :: 0 <= i < |actions| && TriggerKey(actions[i], settings) == Some(k))
            && (forall k :: k in triggers ==> exists i :: LastResolvingTo(actions, settings, k, i) && triggers[k] == Meta(actions[i]))
  {
    var actions := Actions(GetSystemDefinitions(m));
    var settings := Settings(GetUserProfile(m));
    AllTriggersEveryKey(actions, settings);
    AllTriggers(actions, settings)
  }

  /** Every trigger a context's rules use is registered, lower-cased, whatever the context. */
  lemma ContextRulesRegistered(actions: Catalog, settings: map<string, string>, key: string)
    ensures forall r :: r in BuildRules(actions, settings, key) ==> Lower(r.input) in AllTriggers(actions, settings)
  {
    forall r | r in BuildRules(actions, settings, key)
      ensures Lower(r.input) in AllTriggers(actions, settings)
    {
      var i :| 0 <= i < |actions| && RuleFor(actions[i], settings, key) == Some(r);
      assert TriggerKey(actions[i], settings) == Some(Lower(r.input));
      AllTriggersLastWins(actions, settings, Lower(r.input));
    }
  }
}
