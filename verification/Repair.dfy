/**
 Inspecting the chain for drift and repairing it: the drift check is sound, and a repair converges.
 */
module Repair {
  import opened Results
  import opened Lists
  import opened Sets
  import opened Text
  import opened PortExpr
  import opened PortMeaning
  import opened Iptables
  import opened PortRules
  import opened Redirect
  import opened NatTable

  datatype Status = Status(current: seq<string>, expected: seq<string>, missing: seq<string>, extra: seq<string>,
                           failed: bool)

  // ---------- inspection ----------

  /** What a listed rule is compared by. */
  function TextKey(text: string): string { Key(Tokenise(text)) }

  function ExpectedKey(rule: Rule): string { Key(Normalise(RuleSpec(rule))) }

  function ExpectedKeys(rules: seq<Rule>): set<string> {
    set k | 0 <= k < |rules| :: ExpectedKey(rules[k])
  }

  function TextKeys(texts: seq<string>): set<string> {
    set k | 0 <= k < |texts| :: TextKey(texts[k])
  }

  function Extra(texts: seq<string>, keys: set<string>): seq<string> {
    if texts == [] then []
    else Extra(texts[..|texts| - 1], keys) + if TextKey(texts[|texts| - 1]) in keys then [] else [texts[|texts| - 1]]
  }

  /** A rule that should be there and is not. */
  predicate Misses(rules: seq<Rule>, keys: set<string>, text: string) {
    exists k | 0 <= k < |rules| :: ExpectedKey(rules[k]) !in keys && text == SpecText(RuleSpec(rules[k]))
  }

  lemma RuleKeys(rule: Rule)
    requires ValidRule(rule)
    ensures ExpectedKey(rule) == Join(RuleSpec(rule), '\0') && SpecText(RuleSpec(rule)) == Join(RuleSpec(rule), ' ')
    ensures RuleSpec(rule) != [] && Free(RuleSpec(rule), '\0')
  {
    RuleSpecText(rule);
  }

  lemma SameKeySameSpec(a: Rule, b: Rule)
    requires ValidRule(a) && ValidRule(b) && ExpectedKey(a) == ExpectedKey(b)
    ensures RuleSpec(a) == RuleSpec(b)
  {
    hide ValidRule, RuleSpec, ExpectedKey;
    RuleKeys(a);
    RuleKeys(b);
    JoinInjective(RuleSpec(a), RuleSpec(b), '\0');
  }

  /** The map from the key of each expected rule to its text. */
  ghost predicate ExpectedMap(m: map<string, string>, rules: seq<Rule>) {
    && m.Keys == ExpectedKeys(rules)
    && forall k | 0 <= k < |rules| :: ExpectedKey(rules[k]) in m
        && m[ExpectedKey(rules[k])] == SpecText(RuleSpec(rules[k]))
  }

  lemma ExpectedMapStep(m: map<string, string>, rules: seq<Rule>, i: nat)
    requires i < |rules| && ValidRules(rules) && ExpectedMap(m, rules[..i])
    ensures ExpectedMap(m[ExpectedKey(rules[i]) := SpecText(RuleSpec(rules[i]))], rules[..i + 1])
  {
    hide ValidRule, RuleSpec, ExpectedKey, SpecText;
    var before, after := rules[..i], rules[..i + 1];
    assert after == before + [rules[i]];
    forall k | 0 <= k < i
      ensures ExpectedKey(after[k]) == ExpectedKey(rules[i]) ==> RuleSpec(after[k]) == RuleSpec(rules[i])
    {
      if ExpectedKey(after[k]) == ExpectedKey(rules[i]) {
        SameKeySameSpec(after[k], rules[i]);
      }
    }
    assert after[i] == rules[i];
    assert ExpectedKeys(after) == ExpectedKeys(before) + {ExpectedKey(rules[i])} by {
      forall key | key in ExpectedKeys(before) ensures key in ExpectedKeys(after) {
        var k :| 0 <= k < i && key == ExpectedKey(before[k]);
        assert after[k] == before[k];
      }
    }
  }

  method ExpectedMapOf(rules: seq<Rule>) returns (m: map<string, string>)
    requires ValidRules(rules)
    ensures ExpectedMap(m, rules)
  {
    hide ValidRule, ExpectedKey, SpecText, Normalise, RuleSpec;
    m := map[];
    for i := 0 to |rules|
      invariant ExpectedMap(m, rules[..i])
    {
      ExpectedMapStep(m, rules, i);
      var fields := NormalizePortForwardSpecFields(RuleSpec(rules[i]));
      KeyOfFields(rules[i], fields);
      m := m[Key(fields) := Join(fields, ' ')];
    }
    assert rules[..|rules|] == rules;
  }

  lemma KeyOfFields(rule: Rule, fields: Fields)
    requires fields == Normalise(RuleSpec(rule))
    ensures Key(fields) == ExpectedKey(rule) && Join(fields, ' ') == SpecText(RuleSpec(rule))
  {}

  method InspectPortForwardTool(tool: Tool, rules: seq<Rule>) returns (status: Status)
    requires tool.Valid() && ValidRules(rules)
    ensures status.expected == SpecTexts(RuleSpecs(rules)) && status.failed == !tool.readable
    ensures tool.readable ==>
              && status.current == SpecTexts(ManagedRules(tool.chain))
              && status.extra == Extra(status.current, ExpectedKeys(rules))
              && (forall text :: text in status.missing <==> Misses(rules, TextKeys(status.current), text))
              && |status.missing| == |ExpectedKeys(rules) - TextKeys(status.current)|
    ensures !tool.readable ==> status.current == status.missing == status.extra == []
  {
    hide Normalise, Tokenise, RuleSpec, RuleSpecs, StoredRule, Managed, Select, SpecText, ValidRule, ExpectedKey, Key;
    status := Status([], SpecTexts(RuleSpecs(rules)), [], [], false);
    var listed := ListPortForwardSpecs(tool);
    if listed.None? {
      return status.(failed := true);
    }
    var current := listed.value;
    var expectedKeys := ExpectedMapOf(rules);
    var currentKeys: set<string> := {};
    var extra: seq<string> := [];
    for i := 0 to |current|
      invariant currentKeys == TextKeys(current[..i])
      invariant extra == Extra(current[..i], ExpectedKeys(rules))
    {
      assert current[..i + 1][..i] == current[..i];
      TextKeysStep(current, i);
      var fields := ParseIptablesSpec(current[i]);
      var key := Key(fields);
      currentKeys := currentKeys + {key};
      if key !in expectedKeys {
        extra := extra + [current[i]];
      }
    }
    assert current[..|current|] == current;
    var missing := ValuesWithout(expectedKeys, currentKeys);
    MissesByKey(rules, expectedKeys, currentKeys);
    status := status.(current := current, missing := missing, extra := extra);
  }

  lemma TextKeysStep(texts: seq<string>, i: nat)
    requires i < |texts|
    ensures TextKeys(texts[..i + 1]) == TextKeys(texts[..i]) + {TextKey(texts[i])}
  {
    hide TextKey;
    var before, after := texts[..i], texts[..i + 1];
    assert after[i] == texts[i];
    forall key | key in TextKeys(before) ensures key in TextKeys(after) {
      var k :| 0 <= k < i && key == TextKey(before[k]);
      assert after[k] == before[k];
    }
  }

  lemma MissesByKey(rules: seq<Rule>, expectedKeys: map<string, string>, currentKeys: set<string>)
    requires ExpectedMap(expectedKeys, rules)
    ensures forall text :: Misses(rules, currentKeys, text) <==>
              exists key :: key in expectedKeys && key !in currentKeys && text == expectedKeys[key]
  {
    hide ExpectedKey, SpecText, RuleSpec;
    forall text
      ensures Misses(rules, currentKeys, text) <==>
              exists key :: key in expectedKeys && key !in currentKeys && text == expectedKeys[key]
    {
      if key :| key in expectedKeys && key !in currentKeys && text == expectedKeys[key] {
        var k :| 0 <= k < |rules| && key == ExpectedKey(rules[k]);
      }
    }
  }

  // ---------- the drift check is sound ----------

  /** The managed rules of the chain are the expected ones, in any order and any number. */
  ghost predicate InSync(chain: seq<Fields>, rules: seq<Rule>) {
    && (forall rule <- ManagedRules(chain) :: rule in RuleSpecs(rules))
    && (forall rule <- RuleSpecs(rules) :: rule in ManagedRules(chain))
  }

  lemma PlainTextKey(rule: Fields)
    requires AllPlain(rule) && Canonical(rule)
    ensures TextKey(SpecText(rule)) == Join(rule, '\0') && Free(rule, '\0')
  {
    NormaliseIdentity(rule, false);
    TokenisePlain(rule);
  }

  lemma PlainKeyMatches(rule: Fields, expected: Rule)
    requires AllPlain(rule) && Canonical(rule) && rule != [] && ValidRule(expected)
    ensures TextKey(SpecText(rule)) == ExpectedKey(expected) <==> rule == RuleSpec(expected)
  {
    hide AllPlain, ValidRule, RuleSpec, TextKey, SpecText, ExpectedKey;
    PlainTextKey(rule);
    RuleKeys(expected);
    if Join(rule, '\0') == Join(RuleSpec(expected), '\0') {
      JoinInjective(rule, RuleSpec(expected), '\0');
    }
  }

  lemma {:induction false} ExtraIn(texts: seq<string>, keys: set<string>, text: string)
    ensures text in Extra(texts, keys) <==> text in texts && TextKey(text) !in keys
  {
    hide TextKey;
    if texts != [] {
      var rest := texts[..|texts| - 1];
      ExtraIn(rest, keys, text);
      assert texts == rest + [texts[|texts| - 1]];
    }
  }

  ghost predicate PlainManaged(chain: seq<Fields>) {
    forall rule <- ManagedRules(chain) :: AllPlain(rule) && Canonical(rule) && rule != []
  }

  /** For a listing without blanks or quotes, inspection finds no drift exactly when the chain is in sync. */
  lemma NoDriftMeansInSync(chain: seq<Fields>, rules: seq<Rule>)
    requires PlainManaged(chain) && ValidRules(rules)
    ensures var texts := SpecTexts(ManagedRules(chain));
            Extra(texts, ExpectedKeys(rules)) == [] && (forall text :: !Misses(rules, TextKeys(texts), text))
            <==> InSync(chain, rules)
  {
    hide AllPlain, ValidRule, RuleSpec, TextKey, SpecText, ExpectedKey, Select, Extra, Canonical;
    var live := ManagedRules(chain);
    var texts := SpecTexts(live);
    forall i, k | 0 <= i < |live| && 0 <= k < |rules|
      ensures TextKey(texts[i]) == ExpectedKey(rules[k]) <==> live[i] == RuleSpecs(rules)[k]
    {
      assert live[i] in live;
      PlainKeyMatches(live[i], rules[k]);
    }
    forall i | 0 <= i < |live| ensures TextKey(texts[i]) in ExpectedKeys(rules) <==> live[i] in RuleSpecs(rules) {}
    forall k | 0 <= k < |rules| ensures ExpectedKey(rules[k]) in TextKeys(texts) <==> RuleSpecs(rules)[k] in live {}
    forall text
      ensures text in Extra(texts, ExpectedKeys(rules)) <==> text in texts && TextKey(text) !in ExpectedKeys(rules)
    {
      ExtraIn(texts, ExpectedKeys(rules), text);
    }
    var extra := Extra(texts, ExpectedKeys(rules));
    assert extra == [] <==> forall i | 0 <= i < |live| :: live[i] in RuleSpecs(rules) by {
      if extra != [] {
        assert extra[0] in extra;
      }
      if i :| 0 <= i < |live| && live[i] !in RuleSpecs(rules) {
        assert texts[i] in extra;
      }
    }
    assert (forall text :: !Misses(rules, TextKeys(texts), text)) <==>
           forall k | 0 <= k < |rules| :: RuleSpecs(rules)[k] in live by {
      if k :| 0 <= k < |rules| && RuleSpecs(rules)[k] !in live {
        assert Misses(rules, TextKeys(texts), SpecText(RuleSpec(rules[k])));
      }
    }
  }

  lemma {:induction false} FirstMatchOfKnown(specs: seq<Fields>, rules: seq<Rule>, port: int)
    requires ValidRules(rules) && forall spec <- specs :: spec in RuleSpecs(rules)
    ensures match FirstMatch(specs, port)
            case Some(t) => t >= 0 && Sends(rules, port, t)
            case None => forall spec <- specs :: !HasPort(spec, port)
  {
    hide HasPort, Target, RuleSpec, Shaped;
    if specs != [] {
      FirstMatchOfKnown(specs[1..], rules, port);
      assert specs[0] in RuleSpecs(rules);
      var k :| 0 <= k < |rules| && RuleSpec(rules[k]) == specs[0];
      RuleSpecMeaning(rules[k], port);
    }
  }

  /**
   When inspection finds nothing missing and nothing extra, the managed rules of the live chain,
   whatever their order and duplication, redirect every UDP port exactly as the compiled rules do.
   */
  lemma DriftCheckSound(chain: seq<Fields>, rules: seq<Rule>, port: int)
    requires ValidRules(rules) && ConflictFree(rules) && InSync(chain, rules)
    ensures FirstMatch(ManagedRules(chain), port) == Forward(rules, port)
  {
    hide HasPort, Target, RuleSpec, Shaped, Select;
    FirstMatchOfKnown(ManagedRules(chain), rules, port);
    ForwardSends(rules, port);
    forall k | 0 <= k < |rules|
      ensures RuleSpec(rules[k]) in ManagedRules(chain)
              && (HasPort(RuleSpec(rules[k]), port) <==> HasPort(rules[k].matcher.args, port))
    {
      RuleSpecMeaning(rules[k], port);
      assert RuleSpecs(rules)[k] == RuleSpec(rules[k]);
    }
  }

  /**
   The drift check is sound: for a chain whose managed rules have no blanks or quotes, when an
   inspection finds nothing missing and nothing extra, the managed rules redirect every UDP port
   exactly as the compiled rules do.
   */
  lemma CleanInspectionSound(chain: seq<Fields>, rules: seq<Rule>, missing: seq<string>, port: int)
    requires StoredRules(chain) && (forall rule <- ManagedRules(chain) :: AllPlain(rule))
    requires ValidRules(rules) && ConflictFree(rules)
    requires Extra(SpecTexts(ManagedRules(chain)), ExpectedKeys(rules)) == [] && missing == []
    requires forall text :: text in missing <==> Misses(rules, TextKeys(SpecTexts(ManagedRules(chain))), text)
    ensures FirstMatch(ManagedRules(chain), port) == Forward(rules, port)
  {
    hide AllPlain, AllPrintable, Canonical, Managed, ValidRule, RuleSpec, TextKey, SpecText, ExpectedKey, Extra, Misses,
         InSync, FirstMatch, Forward;
    forall rule | rule in ManagedRules(chain) ensures AllPlain(rule) && Canonical(rule) && rule != [] {
      assert rule in chain;
      var i :| 0 <= i < |chain| && chain[i] == rule;
    }
    NoDriftMeansInSync(chain, rules);
    DriftCheckSound(chain, rules, port);
  }

  // ---------- repairing ----------

  lemma RepairedParts(chain: seq<Fields>, rules: seq<Rule>)
    ensures ManagedRules(Repaired(chain, rules)) == RuleSpecs(rules)
    ensures Unmanaged(Repaired(chain, rules)) == Unmanaged(chain)
  {
    hide RuleSpec, Managed;
    var specs, kept := RuleSpecs(rules), Unmanaged(chain);
    forall k | 0 <= k < |rules| ensures Managed(specs[k]) {
      RuleSpecManaged(rules[k]);
    }
    forall k | 0 <= k < |kept| ensures Foreign(kept[k]) {
      assert kept[k] in kept;
    }
    SelectAll(specs, Managed);
    SelectNone(specs, Foreign);
    SelectAll(kept, Foreign);
    SelectNone(kept, Managed);
    SelectAppend(kept, specs, Managed);
    SelectAppend(kept, specs, Foreign);
  }

  /** A repaired chain is in sync, and repairing it again changes nothing. */
  lemma RepairConverges(chain: seq<Fields>, rules: seq<Rule>)
    requires ValidRules(rules)
    ensures InSync(Repaired(chain, rules), rules) && PlainManaged(Repaired(chain, rules))
    ensures Repaired(Repaired(chain, rules), rules) == Repaired(chain, rules)
  {
    hide RuleSpec, Select, ValidRule, AllPlain, Canonical;
    RepairedParts(chain, rules);
    forall k | 0 <= k < |rules|
      ensures AllPlain(RuleSpec(rules[k])) && Canonical(RuleSpec(rules[k])) && RuleSpec(rules[k]) != []
    {
      RuleSpecText(rules[k]);
    }
  }

  method RepairTool(tool: Tool, rules: seq<Rule>, runningAsRoot: bool) returns (status: Status, repaired: bool)
    requires tool.Valid() && ValidRules(rules)
    modifies tool
    ensures tool.Valid()
    ensures !runningAsRoot ==> tool.chain == old(tool.chain)
    ensures runningAsRoot ==>
              tool.chain == Select(old(tool.chain), if tool.readable then OtherRule else NotLegacyJump)
                            + RuleSpecs(rules[..Taken(rules, tool.rejects)])
    ensures repaired == (runningAsRoot && Taken(rules, tool.rejects) == |rules|)
    ensures repaired && tool.readable ==>
              && tool.chain == Repaired(old(tool.chain), rules)
              && status.missing == status.extra == [] && status.current == status.expected && !status.failed
  {
    hide RuleSpec, Select, ValidRule, StoredRule, RuleSpecs, Misses, Extra, PlainManaged, InSync, SpecTexts, Taken,
         RemoveAll;
    ghost var chain := tool.chain;
    KeptMeaning(chain, tool.readable);
    repaired := false;
    status := InspectPortForwardTool(tool, rules);
    if !runningAsRoot {
      return;
    }
    var ok := ReconcilePortForwardTool(tool, rules);
    if !ok {
      return status.(failed := true), false;
    }
    status := InspectPortForwardTool(tool, rules);
    repaired := true;
    assert rules[..|rules|] == rules;
    if tool.readable {
      assert tool.chain == Repaired(chain, rules);
      RepairedParts(chain, rules);
      RepairConverges(chain, rules);
      NoDriftMeansInSync(tool.chain, rules);
      FirstIn(status.missing);
    }
  }

  /**
   Repairing for a list of nodes. When the chain can be listed and no rule is refused, a port is
   afterwards redirected to `target` exactly when an accepted node with that server port asks for it.
   */
  method RepairHysteriaPortForward(tool: Tool, infos: Infos, runningAsRoot: bool)
    returns (status: Status, errs: seq<BuildError>, repaired: bool)
    requires tool.Valid()
    modifies tool
    ensures tool.Valid() && |errs| == |RejectedUpTo(infos, |infos|)|
    ensures repaired && tool.readable ==>
              && Select(tool.chain, OtherRule) == Select(old(tool.chain), OtherRule)
              && status.missing == status.extra == []
              && forall port, target: nat ::
                   FirstMatch(Select(tool.chain, NodeRule), port) == Some(target) <==>
                       AcceptedWants(infos, |infos|, port, target)
  {
    hide Select, ValidRule, StoredRule, RuleSpecs, PlainManaged, InSync, SpecTexts, Taken, RemoveAll, AcceptedWants,
         Forward, FirstMatch;
    hide ConflictFree, BuiltRules, RejectedUpTo, Explains;
    ghost var chain := tool.chain;
    var rules;
    rules, errs := BuildHysteriaPortForwardRules(infos);
    status, repaired := RepairTool(tool, rules, runningAsRoot);
    if repaired && tool.readable {
      OthersAreForeign(chain);
      OthersAreForeign(tool.chain);
      RepairedParts(chain, rules);
      RepairConverges(chain, rules);
      BuiltRulesConflictFree(infos);
      forall port, target: nat
        ensures FirstMatch(ManagedRules(tool.chain), port) == Some(target) <==>
                AcceptedWants(infos, |infos|, port, target)
      {
        DriftCheckSound(tool.chain, rules, port);
        ForwardExact(infos, port, target);
      }
    }
  }
}
