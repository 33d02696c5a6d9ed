/** The injection module: synthesises a `"mod+...+key"` command as key presses and
    releases, then re-asserts every standard modifier the user still physically holds. */
module Injector {
  import opened Types
  import opened Strings
  import opened Keys

  /** Splits a command on '+': every piece but the last is a modifier, in order; the last
      is the key. */
  function ParseCombo(command: string): (p: (seq<string>, string))
    ensures Join(p.0 + [p.1], '+') == command
    ensures '+' !in p.1 && forall i :: 0 <= i < |p.0| ==> '+' !in p.0[i]
  {
    var parts := Split(command, '+');
    JoinSplit(command, '+');
    assert parts[..|parts| - 1] + [parts[|parts| - 1]] == parts;
    (parts[..|parts| - 1], parts[|parts| - 1])
  }

  /** Writing a combo out and parsing it again gives back modifiers and key. */
  lemma ParseComboRoundTrip(mods: seq<string>, key: string)
    requires '+' !in key && forall i :: 0 <= i < |mods| ==> '+' !in mods[i]
    ensures ParseCombo(Join(mods + [key], '+')) == (mods, key)
  {
    var parts := mods + [key];
    SplitJoin(parts, '+');
    assert parts[..|parts| - 1] == mods;
  }

  lemma ParseComboExample()
    ensures ParseCombo("ctrl+shift+z") == (["ctrl", "shift"], "z")
  {
    ParseComboRoundTrip(["ctrl", "shift"], "z");
    var parts := ["ctrl", "shift"] + ["z"];
    assert parts == ["ctrl", "shift", "z"];
    assert parts[1..] == ["shift", "z"] && parts[1..][1..] == ["z"];
    assert Join(["z"], '+') == "z";
    assert Join(["shift", "z"], '+') == "shift" + ['+'] + "z";
    assert Join(parts, '+') == "ctrl" + ['+'] + Join(["shift", "z"], '+');
    assert "ctrl" + ['+'] + ("shift" + ['+'] + "z") == "ctrl+shift+z";
  }

  function PressAll(mods: seq<string>): (t: seq<KeyAction>)
    ensures |t| == |mods| && forall i :: 0 <= i < |mods| ==> t[i] == Press(mods[i])
  {
    seq(|mods|, i requires 0 <= i < |mods| => Press(mods[i]))
  }

  function ReleaseReversed(mods: seq<string>): (t: seq<KeyAction>)
    ensures |t| == |mods| && forall i :: 0 <= i < |mods| ==> t[i] == Release(mods[|mods| - 1 - i])
  {
    seq(|mods|, i requires 0 <= i < |mods| => Release(mods[|mods| - 1 - i]))
  }

  /** The explicit injection: press each modifier in order, click the key, release the
      modifiers in reverse order. */
  function Structured(command: string): seq<KeyAction>
  {
    var (mods, key) := ParseCombo(command);
    PressAll(mods) + [Press(key), Release(key)] + ReleaseReversed(mods)
  }

  /** Replays presses and releases against a stack of held keys: a press pushes, a release
      must pop the most recently pressed key. None when a release is out of LIFO order. */
  function HeldAfter(trace: seq<KeyAction>, held: seq<string>): Option<seq<string>>
  {
    if |trace| == 0 then Some(held)
    else match trace[0]
      case Press(k) => HeldAfter(trace[1..], held + [k])
      case Release(k) =>
        if |held| > 0 && held[|held| - 1] == k then HeldAfter(trace[1..], held[..|held| - 1]) else None
      case _ => HeldAfter(trace[1..], held)
  }

  lemma {:induction false} PressAllPushes(mods: seq<string>, rest: seq<KeyAction>, held: seq<string>)
    ensures HeldAfter(PressAll(mods) + rest, held) == HeldAfter(rest, held + mods)
    decreases |mods|
  {
    if |mods| == 0 {
      assert PressAll(mods) + rest == rest;
      assert held + mods == held;
    } else {
      var t := PressAll(mods) + rest;
      assert t[0] == Press(mods[0]);
      assert t[1..] == PressAll(mods[1..]) + rest;
      PressAllPushes(mods[1..], rest, held + [mods[0]]);
      assert held + [mods[0]] + mods[1..] == held + mods;
    }
  }

  lemma {:induction false} ReleaseReversedPops(mods: seq<string>, rest: seq<KeyAction>, held: seq<string>)
    ensures HeldAfter(ReleaseReversed(mods) + rest, held + mods) == HeldAfter(rest, held)
    decreases |mods|
  {
    if |mods| == 0 {
      assert ReleaseReversed(mods) + rest == rest;
      assert held + mods == held;
    } else {
      var n := |mods| - 1;
      var t := ReleaseReversed(mods) + rest;
      assert t[0] == Release(mods[n]);
      assert t[1..] == ReleaseReversed(mods[..n]) + rest;
      var h := held + mods;
      assert h[|h| - 1] == mods[n];
      assert h[..|h| - 1] == held + mods[..n];
      ReleaseReversedPops(mods[..n], rest, held);
    }
  }

  /** Every key the explicit injection presses is released later in the trace, in LIFO
      order, so it leaves no synthetic key held. */
  lemma StructuredBalanced(command: string)
    ensures HeldAfter(Structured(command), []) == Some([])
  {
    var (mods, key) := ParseCombo(command);
    var tail := ReleaseReversed(mods);
    assert Structured(command) == PressAll(mods) + ([Press(key), Release(key)] + tail);
    PressAllPushes(mods, [Press(key), Release(key)] + tail, []);
    var mid := [Press(key), Release(key)] + tail;
    assert mid[1..] == [Release(key)] + tail;
    assert ([Release(key)] + tail)[1..] == tail;
    assert ([] + mods + [key])[..|mods|] == mods;
    ReleaseReversedPops(mods, [], []);
    assert tail + [] == tail;
    assert [] + mods == mods;
  }

  /** Position of a modifier in the restore order: control, then shift, then alt. */
  function RestoreRank(vk: bv8): int
  {
    if vk == VK_CONTROL then 0 else if vk == VK_SHIFT then 1 else 2
  }

  /** The restore phase: a raw key-down for each of control, shift and alt, in that order,
      exactly when the key is physically down. */
  function Restore(ks: KeyStates): (t: seq<KeyAction>)
    ensures forall a :: a in t ==> a.KeybdDown? && (a.vk == VK_CONTROL || a.vk == VK_SHIFT || a.vk == VK_MENU)
    ensures KeybdDown(VK_CONTROL) in t <==> IsDown(ks.ctrl)
    ensures KeybdDown(VK_SHIFT) in t <==> IsDown(ks.shift)
    ensures KeybdDown(VK_MENU) in t <==> IsDown(ks.alt)
    ensures forall i, j :: 0 <= i < j < |t| ==> RestoreRank(t[i].vk) < RestoreRank(t[j].vk)
  {
    (if IsDown(ks.ctrl) then [KeybdDown(VK_CONTROL)] else [])
    + (if IsDown(ks.shift) then [KeybdDown(VK_SHIFT)] else [])
    + (if IsDown(ks.alt) then [KeybdDown(VK_MENU)] else [])
  }

  /** Whether the keyboard library accepts a name given to press/release. */
  predicate Accepts(a: KeyAction, known: string -> bool)
  {
    match a
    case Press(k) => known(k)
    case Release(k) => known(k)
    case _ => true
  }

  /** How many leading actions of a trace the library performs before one raises. */
  function AcceptedPrefix(t: seq<KeyAction>, known: string -> bool): (n: nat)
    ensures n <= |t|
    ensures forall i :: 0 <= i < n ==> Accepts(t[i], known)
    ensures n < |t| ==> !Accepts(t[n], known)
  {
    if |t| == 0 || !Accepts(t[0], known) then 0
    else 1 + AcceptedPrefix(t[1..], known)
  }

  /** Injects a command. `known` says which key names the keyboard library accepts,
      `query` is the physical key-state query, `fallbackSends` whether the one-shot
      fallback send succeeds. An empty command does nothing. When the explicit sequence
      or the restore raises, the actions done so far stay done and the whole command is
      sent once as a fallback, whose own failure is swallowed. */
  function Inject(command: string, known: string -> bool, query: KeyQuery, fallbackSends: bool): (t: seq<KeyAction>)
    ensures command == "" ==> t == []
  {
    if command == "" then []
    else
      var s := Structured(command);
      var n := AcceptedPrefix(s, known);
      var fallback := if fallbackSends then [Send(command)] else [];
      if n < |s| then s[..n] + fallback
      else match query
        case Unavailable => s + fallback
        case Available(ks) => s + Restore(ks)
  }

  /** Every name the explicit sequence would press or release is accepted. */
  predicate AllAccepted(command: string, known: string -> bool)
  {
    forall a :: a in Structured(command) ==> Accepts(a, known)
  }

  /** On the normal path the trace is the explicit injection followed by the restore
      phase, and it leaves no synthetic key held: the restore phase only re-presses keys
      the user physically holds. */
  lemma InjectNormalPath(command: string, known: string -> bool, ks: KeyStates, fallbackSends: bool)
    requires command != "" && AllAccepted(command, known)
    ensures Inject(command, known, Available(ks), fallbackSends) == Structured(command) + Restore(ks)
    ensures HeldAfter(Structured(command), []) == Some([])
    ensures forall a :: a in Inject(command, known, Available(ks), fallbackSends)[|Structured(command)|..] ==> a.KeybdDown?
  {
    StructuredBalanced(command);
    var s := Structured(command);
    assert (s + Restore(ks))[|s|..] == Restore(ks);
  }

  /** The explicit injection consists of presses and releases only. */
  lemma StructuredKeysOnly(command: string)
    ensures forall a :: a in Structured(command) ==> a.Press? || a.Release?
  {
    var (mods, key) := ParseCombo(command);
    var s := PressAll(mods) + [Press(key), Release(key)] + ReleaseReversed(mods);
    assert Structured(command) == s;
    forall a | a in s ensures a.Press? || a.Release? {
      var i :| 0 <= i < |s| && s[i] == a;
      if i < |mods| {
      } else if i < |mods| + 2 {
      } else {
        assert s[i] == ReleaseReversed(mods)[i - |mods| - 2];
      }
    }
  }

  /** When the explicit path fails, the trace is a prefix of the explicit injection
      followed by at most one fallback send of the whole command; nothing is restored. */
  lemma InjectFallback(command: string, known: string -> bool, query: KeyQuery, fallbackSends: bool)
    requires command != ""
    requires !AllAccepted(command, known) || query.Unavailable?
    ensures exists n :: 0 <= n <= |Structured(command)|
              && Inject(command, known, query, fallbackSends)
                 == Structured(command)[..n] + (if fallbackSends then [Send(command)] else [])
    ensures forall a :: a in Inject(command, known, query, fallbackSends) ==> !a.KeybdDown?
  {
    var s := Structured(command);
    var n := AcceptedPrefix(s, known);
    var fb := if fallbackSends then [Send(command)] else [];
    var t := Inject(command, known, query, fallbackSends);
    if n == |s| {
      assert forall a :: a in s ==> Accepts(a, known) by {
        forall a | a in s ensures Accepts(a, known) {
          var i :| 0 <= i < |s| && s[i] == a;
        }
      }
      assert s[..|s|] == s;
    }
    assert t == s[..n] + fb;
    StructuredKeysOnly(command);
    assert forall a :: a in s[..n] ==> a in s;
  }

  lemma ParseCtrlJ()
    ensures ParseCombo("ctrl+j") == (["ctrl"], "j")
  {
    ParseComboRoundTrip(["ctrl"], "j");
    assert ["ctrl"] + ["j"] == ["ctrl", "j"];
    assert ["ctrl", "j"][1..] == ["j"];
    assert Join(["ctrl", "j"], '+') == "ctrl" + ['+'] + "j";
    assert "ctrl" + ['+'] + "j" == "ctrl+j";
  }

  lemma StructuredCtrlJ()
    ensures Structured("ctrl+j") == [Press("ctrl"), Press("j"), Release("j"), Release("ctrl")]
  {
    ParseCtrlJ();
    assert PressAll(["ctrl"]) == [Press("ctrl")];
    assert ReleaseReversed(["ctrl"]) == [Release("ctrl")];
  }

  /** The duplicate scenario: injecting ctrl+j with no modifier physically held presses
      ctrl, clicks j and releases ctrl, and nothing else. */
  lemma InjectCtrlJ(known: string -> bool, ks: KeyStates)
    requires known("ctrl") && known("j")
    requires !IsDown(ks.ctrl) && !IsDown(ks.shift) && !IsDown(ks.alt)
    ensures Inject("ctrl+j", known, Available(ks), true) == [Press("ctrl"), Press("j"), Release("j"), Release("ctrl")]
  {
    StructuredCtrlJ();
    var s := Structured("ctrl+j");
    assert AllAccepted("ctrl+j", known) by {
      forall a | a in s ensures Accepts(a, known) {
        var i :| 0 <= i < |s| && s[i] == a;
      }
    }
    assert Restore(ks) == [];
    InjectNormalPath("ctrl+j", known, ks, true);
    assert s + [] == s;
  }
}
