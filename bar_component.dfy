/** The two computations of the bar component: resolving a component's `template` alias to a
    built-in template, and collecting the component's `slot` and `slot/<name>` settings into a
    map from slot name to value. A component's settings are the entries of its config object
    in `Object.keys` order. */
module BarComponent {
  import opened Strings

  /** The built-in templates the aliases stand for (their text is not part of this model). */
  datatype BuiltinTemplates = BuiltinTemplates(glazewmWorkspaces: string, weather: string)

  const GlazewmWorkspacesAlias := "template.glazewm_workspaces"
  const WeatherAlias := "template.weather"

  /** The `template` switch: an alias gives its built-in template, anything else is the
      template itself. */
  function ResolveTemplate(template: string, builtins: BuiltinTemplates): (r: string)
    ensures template == GlazewmWorkspacesAlias ==> r == builtins.glazewmWorkspaces
    ensures template == WeatherAlias ==> r == builtins.weather
    ensures template != GlazewmWorkspacesAlias && template != WeatherAlias ==> r == template
  {
    match template
    case "template.glazewm_workspaces" => builtins.glazewmWorkspaces
    case "template.weather" => builtins.weather
    case _ => template
  }

  /** As long as the built-in templates are not aliases themselves, resolving is idempotent:
      a resolved template resolves to itself. */
  lemma ResolveTemplateIdempotent(template: string, builtins: BuiltinTemplates)
    requires builtins.glazewmWorkspaces != GlazewmWorkspacesAlias && builtins.glazewmWorkspaces != WeatherAlias
    requires builtins.weather != GlazewmWorkspacesAlias && builtins.weather != WeatherAlias
    ensures ResolveTemplate(ResolveTemplate(template, builtins), builtins) == ResolveTemplate(template, builtins)
  {
  }

  /** The keys that bind slots: `slot` itself and every key starting with `slot/`. */
  predicate IsSlotKey(key: string) {
    key == "slot" || StartsWith(key, "slot/")
  }

  /** `key.split('/')[1] ?? 'default'`: the second `/`-separated part of the key, or
      `default` when the key has no `/`. */
  function SlotName(key: string): string {
    var parts := Split(key, '/');
    if |parts| > 1 then parts[1] else "default"
  }

  /** Splitting a part free of the separator, the separator and a rest gives that part first,
      then the parts of the rest. */
  lemma SplitAfterPart(a: string, sep: char, rest: string)
    requires sep !in a
    ensures Split(a + [sep] + rest, sep) == [a] + Split(rest, sep)
  {
    var parts := [a] + Split(rest, sep);
    JoinSplit(rest, sep);
    assert parts[1..] == Split(rest, sep);
    assert Join(parts, sep) == a + [sep] + rest;
    SplitJoin(parts, sep);
  }

  /** The first part of a split is the text before the first separator (all of it, when
      there is none). */
  lemma {:induction false} SplitFirstPart(s: string, sep: char)
    ensures var p := Split(s, sep)[0];
      |p| <= |s| && p == s[..|p|] && sep !in p && (|p| < |s| ==> s[|p|] == sep)
    decreases |s|
  {
    if |s| > 0 && s[0] != sep {
      SplitFirstPart(s[1..], sep);
    }
  }

  /** The name of a slot key: `slot` binds the slot `default`; `slot/<rest>` binds the slot
      named by what follows the first `/` up to the next `/` or the end, which is the empty
      name for `slot/` (`??` replaces only a missing part, not an empty one). */
  lemma SlotNameOfKey(rest: string)
    ensures SlotName("slot") == "default"
    ensures var n := SlotName("slot/" + rest);
      '/' !in n && |n| <= |rest| && n == rest[..|n|] && (|n| < |rest| ==> rest[|n|] == '/')
  {
    assert "slot/" + rest == "slot" + ['/'] + rest;
    SplitAfterPart("slot", '/', rest);
    SplitFirstPart(rest, '/');
  }

  /** A key `slot/<name>` or `slot/<name>/<more>`, where the name holds no `/`, binds that name. */
  lemma SlotNameOfSegment(name: string, more: string)
    requires '/' !in name
    ensures SlotName("slot/" + name) == name
    ensures SlotName("slot/" + name + "/" + more) == name
  {
    assert "slot/" + name == "slot" + ['/'] + name;
    SplitAfterPart("slot", '/', name);
    JoinSplit(name, '/');
    assert Split(name, '/') == [name];
    assert "slot/" + name + "/" + more == "slot" + ['/'] + (name + ['/'] + more);
    SplitAfterPart("slot", '/', name + ['/'] + more);
    SplitAfterPart(name, '/', more);
  }

  /** The cases named in the component: `slot` is `default`, `slot/top` is `top`,
      `slot/a/b` is `a`, and `slot/` is the empty name. */
  lemma SlotNameExamples()
    ensures SlotName("slot") == "default"
    ensures SlotName("slot/top") == "top"
    ensures SlotName("slot/a/b") == "a"
    ensures SlotName("slot/") == ""
  {
    assert '/' !in "slot";
    SlotNameOfSegment("top", "");
    assert "slot/" + "top" == "slot/top";
    SlotNameOfSegment("a", "b");
    assert "slot/" + "a" + "/" + "b" == "slot/a/b";
    SlotNameOfSegment("", "");
    assert "slot/" + "" == "slot/";
  }

  /** The `filter` step: the entries whose key binds a slot, in their order. */
  function SlotEntries<V>(entries: seq<(string, V)>): (r: seq<(string, V)>)
    ensures forall i :: 0 <= i < |r| ==> IsSlotKey(r[i].0)
    ensures |r| <= |entries|
    decreases |entries|
  {
    if |entries| == 0 then []
    else if IsSlotKey(entries[0].0) then [entries[0]] + SlotEntries(entries[1..])
    else SlotEntries(entries[1..])
  }

  /** The `reduce` step: each entry overwrites its slot name in the accumulated map. */
  function FoldSlots<V>(acc: map<string, V>, entries: seq<(string, V)>): map<string, V>
    decreases |entries|
  {
    if |entries| == 0 then acc
    else FoldSlots(acc[SlotName(entries[0].0) := entries[0].1], entries[1..])
  }

  /** The `slots` memo: the slot map of a component's settings. */
  function Slots<V>(entries: seq<(string, V)>): map<string, V> {
    FoldSlots(map[], SlotEntries(entries))
  }

  lemma {:induction false} SlotEntriesSnoc<V>(entries: seq<(string, V)>, e: (string, V))
    ensures SlotEntries(entries + [e]) == SlotEntries(entries) + (if IsSlotKey(e.0) then [e] else [])
    decreases |entries|
  {
    if |entries| > 0 {
      assert (entries + [e])[1..] == entries[1..] + [e];
      SlotEntriesSnoc(entries[1..], e);
    }
  }

  lemma {:induction false} FoldSlotsSnoc<V>(acc: map<string, V>, entries: seq<(string, V)>, e: (string, V))
    ensures FoldSlots(acc, entries + [e]) == FoldSlots(acc, entries)[SlotName(e.0) := e.1]
    decreases |entries|
  {
    if |entries| == 0 {
      assert FoldSlots(acc[SlotName(e.0) := e.1], []) == acc[SlotName(e.0) := e.1];
    } else {
      assert (entries + [e])[1..] == entries[1..] + [e];
      FoldSlotsSnoc(acc[SlotName(entries[0].0) := entries[0].1], entries[1..], e);
    }
  }

  /** One more setting at the end: a slot key sets its slot name, overwriting what was there;
      any other key leaves the slot map as it was. */
  lemma SlotsSnoc<V>(entries: seq<(string, V)>, e: (string, V))
    ensures Slots(entries + [e]) ==
      if IsSlotKey(e.0) then Slots(entries)[SlotName(e.0) := e.1] else Slots(entries)
  {
    SlotEntriesSnoc(entries, e);
    if IsSlotKey(e.0) {
      FoldSlotsSnoc(map[], SlotEntries(entries), e);
    } else {
      assert SlotEntries(entries) + [] == SlotEntries(entries);
    }
  }

  /** The slot names are exactly the names of the slot keys among the settings. */
  lemma {:induction false} SlotsKeys<V>(entries: seq<(string, V)>)
    ensures Slots(entries).Keys ==
      set i | 0 <= i < |entries| && IsSlotKey(entries[i].0) :: SlotName(entries[i].0)
    decreases |entries|
  {
    if |entries| == 0 {
    } else {
      var init, e := entries[..|entries| - 1], entries[|entries| - 1];
      assert entries == init + [e];
      SlotsKeys(init);
      SlotsSnoc(init, e);
      var names := set i | 0 <= i < |entries| && IsSlotKey(entries[i].0) :: SlotName(entries[i].0);
      var initNames := set i | 0 <= i < |init| && IsSlotKey(init[i].0) :: SlotName(init[i].0);
      assert names == initNames + (if IsSlotKey(e.0) then {SlotName(e.0)} else {}) by {
        forall n | n in names ensures n in initNames || (IsSlotKey(e.0) && n == SlotName(e.0)) {
          var i :| 0 <= i < |entries| && IsSlotKey(entries[i].0) && SlotName(entries[i].0) == n;
          if i < |init| { assert init[i] == entries[i]; }
        }
        forall n | n in initNames ensures n in names {
          var i :| 0 <= i < |init| && IsSlotKey(init[i].0) && SlotName(init[i].0) == n;
          assert init[i] == entries[i];
        }
        if IsSlotKey(e.0) {
          assert entries[|entries| - 1] == e;
        }
      }
    }
  }

  /** Later keys win: a slot takes the value of the last slot key with its name. */
  lemma {:induction false} SlotsLastWins<V>(entries: seq<(string, V)>, i: nat)
    requires i < |entries| && IsSlotKey(entries[i].0)
    requires forall j :: i < j < |entries| && IsSlotKey(entries[j].0) ==>
      SlotName(entries[j].0) != SlotName(entries[i].0)
    ensures SlotName(entries[i].0) in Slots(entries)
    ensures Slots(entries)[SlotName(entries[i].0)] == entries[i].1
    decreases |entries|
  {
    var init, e := entries[..|entries| - 1], entries[|entries| - 1];
    assert entries == init + [e];
    SlotsSnoc(init, e);
    if i < |init| {
      assert init[i] == entries[i];
      forall j | i < j < |init| && IsSlotKey(init[j].0)
        ensures SlotName(init[j].0) != SlotName(init[i].0)
      {
        assert init[j] == entries[j];
      }
      SlotsLastWins(init, i);
    }
  }
}
