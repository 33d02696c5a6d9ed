/** The translation engine: parses `"mod+mod+key"` triggers into a modifier set and a key,
    and answers a key event with the output of the first rule it matches exactly. */
module Translator {
  import opened Types
  import opened Strings

  /** One parsed rule: modifier names, final key, verbatim output, lower-cased input. */
  datatype ParsedRule = ParsedRule(modifiers: set<string>, key: string, output: string, original: string)

  /** A mapping entry as read from the document; a missing field is None. */
  datatype RawRule = RawRule(input: Option<string>, output: Option<string>)

  /** A keyboard event: key name, `"down"` or `"up"`, and the modifiers held. */
  datatype KeyEvent = KeyEvent(name: string, eventType: string, modifiers: seq<string>)

  /** Splits a lower-cased trigger on '+': the last piece is the key, the others the
      modifiers. */
  function ParseTrigger(input: string): (p: (set<string>, string))
  {
    var parts := Split(Lower(input), '+');
    (Elems(parts[..|parts| - 1]), parts[|parts| - 1])
  }

  /** Parsing inverts writing a trigger out: `m1+...+mn+key` (lower-case, no '+' inside a
      name) parses to the set of the `mi` and the key. */
  lemma ParseTriggerRoundTrip(mods: seq<string>, key: string)
    requires forall i :: 0 <= i < |mods| ==> '+' !in mods[i] && Lower(mods[i]) == mods[i]
    requires '+' !in key && Lower(key) == key
    ensures ParseTrigger(Join(mods + [key], '+')) == (Elems(mods), key)
  {
    var parts := mods + [key];
    var s := Join(parts, '+');
    LowerJoin(parts);
    SplitJoin(parts, '+');
    assert parts[..|parts| - 1] == mods;
  }

  /** Lower-casing a join of lower-case pieces changes nothing. */
  lemma {:induction false} LowerJoin(parts: seq<string>)
    requires forall i :: 0 <= i < |parts| ==> Lower(parts[i]) == parts[i]
    ensures Lower(Join(parts, '+')) == Join(parts, '+')
  {
    if |parts| > 1 {
      LowerJoin(parts[1..]);
      var rest := Join(parts[1..], '+');
      assert Join(parts, '+') == parts[0] + ['+'] + rest;
      assert Lower(parts[0]) == parts[0];
    }
  }

  /** The parsed form of one well-formed entry. */
  function ParseRule(input: string, output: string): (r: ParsedRule)
    ensures r.output == output && r.original == Lower(input)
    ensures '+' !in r.key && forall m :: m in r.modifiers ==> '+' !in m
  {
    var (mods, key) := ParseTrigger(input);
    ParsedRule(mods, key, output, Lower(input))
  }

  /** Loading a rule list: entries are parsed in order; an entry missing its input or
      output raises, which ends the load, keeping the rules parsed before it. */
  function LoadRules(raw: seq<RawRule>): (rules: seq<ParsedRule>)
    ensures |rules| <= |raw|
    ensures forall i :: 0 <= i < |rules| ==>
              raw[i].input.Some? && raw[i].output.Some? && rules[i] == ParseRule(raw[i].input.value, raw[i].output.value)
    ensures |rules| < |raw| ==> raw[|rules|].input.None? || raw[|rules|].output.None?
  {
    if |raw| == 0 || raw[0].input.None? || raw[0].output.None? then []
    else [ParseRule(raw[0].input.value, raw[0].output.value)] + LoadRules(raw[1..])
  }

  /** A rule matches an event with the same lower-cased key and exactly the same set of
      modifiers. */
  predicate Matches(rule: ParsedRule, ev: KeyEvent)
  {
    rule.key == Lower(ev.name) && rule.modifiers == Elems(ev.modifiers)
  }

  /** Rule `i` is the first matching rule. */
  ghost predicate FirstMatch(rules: seq<ParsedRule>, ev: KeyEvent, i: int)
  {
    0 <= i < |rules| && Matches(rules[i], ev) && forall j :: 0 <= j < i ==> !Matches(rules[j], ev)
  }

  /** The output of the first rule matching a key-down event; nothing for other events or
      when no rule matches. */
  function Translate(rules: seq<ParsedRule>, ev: KeyEvent): (r: Option<string>)
    ensures ev.eventType != "down" ==> r.None?
    ensures r.Some? ==> exists i :: FirstMatch(rules, ev, i) && r.value == rules[i].output
    ensures r.None? && ev.eventType == "down" ==> forall i :: 0 <= i < |rules| ==> !Matches(rules[i], ev)
  {
    if ev.eventType != "down" then None
    else if |rules| == 0 then None
    else if Matches(rules[0], ev) then
      assert FirstMatch(rules, ev, 0);
      Some(rules[0].output)
    else
      var r := Translate(rules[1..], ev);
      assert forall i :: 1 <= i < |rules| ==> rules[i] == rules[1..][i - 1];
      assert r.Some? ==> exists i :: FirstMatch(rules, ev, i) && r.value == rules[i].output by {
        if r.Some? {
          var i :| FirstMatch(rules[1..], ev, i) && r.value == rules[1..][i].output;
          assert FirstMatch(rules, ev, i + 1);
        }
      }
      r
  }

  /** The rules of the translation tests: ctrl+d -> ctrl+j and esc -> ctrl+d. */
  function TestRules(): seq<ParsedRule>
  {
    LoadRules([RawRule(Some("ctrl+d"), Some("ctrl+j")), RawRule(Some("esc"), Some("ctrl+d"))])
  }

  lemma ParseEsc()
    ensures ParseTrigger("esc") == ({}, "esc")
  {
    assert Lower("esc") == "esc";
    ParseTriggerRoundTrip([], "esc");
    assert [] + ["esc"] == ["esc"];
    assert Join(["esc"], '+') == "esc";
    assert Elems<string>([]) == {};
  }

  lemma ParseCtrlShiftZ()
    ensures ParseTrigger("ctrl+shift+z") == ({"ctrl", "shift"}, "z")
  {
    assert Lower("ctrl") == "ctrl" && Lower("shift") == "shift" && Lower("z") == "z";
    ParseTriggerRoundTrip(["ctrl", "shift"], "z");
    JoinThree("ctrl", "shift", "z");
    assert ["ctrl", "shift"] + ["z"] == ["ctrl", "shift", "z"];
    assert "ctrl" + "+" + "shift" + "+" + "z" == "ctrl+shift+z";
    assert Elems(["ctrl", "shift"]) == {"ctrl", "shift"};
  }

  lemma JoinThree(a: string, b: string, c: string)
    ensures Join([a, b, c], '+') == a + "+" + b + "+" + c
  {
    assert [a, b, c][1..] == [b, c];
    assert [b, c][1..] == [c];
    assert Join([c], '+') == c;
    assert Join([b, c], '+') == b + ['+'] + c;
    assert Join([a, b, c], '+') == a + ['+'] + Join([b, c], '+');
  }

  /** "ctrl+d" parses to modifier ctrl and key d. */
  lemma CtrlD()
    ensures ParseTrigger("ctrl+d") == ({"ctrl"}, "d")
  {
    assert Lower("ctrl") == "ctrl" && Lower("d") == "d";
    ParseTriggerRoundTrip(["ctrl"], "d");
    assert ["ctrl"] + ["d"] == ["ctrl", "d"];
    assert ["ctrl", "d"][1..] == ["d"];
    assert Join(["d"], '+') == "d";
    assert Join(["ctrl", "d"], '+') == "ctrl" + ['+'] + "d";
    assert "ctrl" + ['+'] + "d" == "ctrl+d";
    assert Elems(["ctrl"]) == {"ctrl"};
  }

  lemma TestRulesValue()
    ensures TestRules() == [ParsedRule({"ctrl"}, "d", "ctrl+j", "ctrl+d"), ParsedRule({}, "esc", "ctrl+d", "esc")]
  {
    TestRulesParsed();
    ParsedCtrlD();
    ParsedEsc();
  }

  lemma TestRulesParsed()
    ensures TestRules() == [ParseRule("ctrl+d", "ctrl+j"), ParseRule("esc", "ctrl+d")]
  {
    var raw := [RawRule(Some("ctrl+d"), Some("ctrl+j")), RawRule(Some("esc"), Some("ctrl+d"))];
    assert raw[1..] == [RawRule(Some("esc"), Some("ctrl+d"))];
    assert raw[1..][1..] == [];
    assert LoadRules(raw[1..][1..]) == [];
    assert LoadRules(raw[1..]) == [ParseRule("esc", "ctrl+d")] + LoadRules(raw[1..][1..]);
    assert LoadRules(raw) == [ParseRule("ctrl+d", "ctrl+j")] + LoadRules(raw[1..]);
  }

  lemma ParsedCtrlD()
    ensures ParseRule("ctrl+d", "ctrl+j") == ParsedRule({"ctrl"}, "d", "ctrl+j", "ctrl+d")
  {
    CtrlD();
    assert Lower("ctrl+d") == "ctrl+d";
  }

  lemma ParsedEsc()
    ensures ParseRule("esc", "ctrl+d") == ParsedRule({}, "esc", "ctrl+d", "esc")
  {
    ParseEsc();
    assert Lower("esc") == "esc";
  }

  /** The translation tests: ctrl+d gives ctrl+j, esc gives ctrl+d, ctrl+a and alt+d give
      nothing. */
  lemma TranslationTests()
    ensures Translate(TestRules(), KeyEvent("d", "down", ["ctrl"])) == Some("ctrl+j")
    ensures Translate(TestRules(), KeyEvent("esc", "down", [])) == Some("ctrl+d")
    ensures Translate(TestRules(), KeyEvent("a", "down", ["ctrl"])).None?
    ensures Translate(TestRules(), KeyEvent("d", "down", ["alt"])).None?
  {
    TestRulesValue();
    TranslateTwo(TestRules());
  }

  lemma TranslateTwo(rules: seq<ParsedRule>)
    requires rules == [ParsedRule({"ctrl"}, "d", "ctrl+j", "ctrl+d"), ParsedRule({}, "esc", "ctrl+d", "esc")]
    ensures Translate(rules, KeyEvent("d", "down", ["ctrl"])) == Some("ctrl+j")
    ensures Translate(rules, KeyEvent("esc", "down", [])) == Some("ctrl+d")
    ensures Translate(rules, KeyEvent("a", "down", ["ctrl"])).None?
    ensures Translate(rules, KeyEvent("d", "down", ["alt"])).None?
  {
    assert Elems(["ctrl"]) == {"ctrl"};
    assert Elems<string>([]) == {};
    assert "alt" in Elems(["alt"]);
    assert Lower("d") == "d" && Lower("esc") == "esc" && Lower("a") == "a";
    assert Matches(rules[0], KeyEvent("d", "down", ["ctrl"]));
    assert Matches(rules[1], KeyEvent("esc", "down", []));
    assert !Matches(rules[0], KeyEvent("esc", "down", []));
  }

  /** A rule never fires for a different or larger modifier set than its own. */
  lemma ExactModifiers(rules: seq<ParsedRule>, ev: KeyEvent, i: int)
    requires 0 <= i < |rules|
    requires rules[i].modifiers != Elems(ev.modifiers)
    ensures !Matches(rules[i], ev)
  {
  }
}
