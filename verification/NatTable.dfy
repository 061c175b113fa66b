/**
 The nat PREROUTING chain, the commands that read and change it, and the loop that inspects and
 repairs it.

 The chain is a list of rules in order. A listing repeats each rule's fields, quoting a field with
 blanks and adding at most one `-m udp`; deleting removes the first equal rule; adding appends,
 unless the kernel refuses the rule.
 */
module NatTable {
  import opened Results
  import opened Lists
  import opened Text
  import opened PortExpr
  import opened Iptables

  const POLICY := "-P PREROUTING ACCEPT"
  const LEGACY_JUMP: Fields := ["-A", "PREROUTING", "-p", "udp", "-j", CHAIN]

  // ---------- the chain as a value ----------

  predicate StoredRule(rule: Fields) { PreroutingRule(rule) && AllPrintable(rule) }

  predicate StoredRules(chain: seq<Fields>) { forall i | 0 <= i < |chain| :: StoredRule(chain[i]) }

  predicate Foreign(rule: Fields) { !Managed(rule) }

  function Unmanaged(chain: seq<Fields>): seq<Fields> { Select(chain, Foreign) }

  function ManagedRules(chain: seq<Fields>): seq<Fields> { Select(chain, Managed) }

  /** The chain after a repair in which every command succeeds. */
  function Repaired(chain: seq<Fields>, rules: seq<Rule>): seq<Fields> { Unmanaged(chain) + RuleSpecs(rules) }

  lemma RemainStored(chain: seq<Fields>, rest: seq<Fields>)
    requires StoredRules(chain) && forall rule :: rule in rest ==> rule in chain
    ensures StoredRules(rest)
  {
    hide StoredRule;
    forall i | 0 <= i < |rest| ensures StoredRule(rest[i]) {
      assert rest[i] in chain;
    }
  }

  // ---------- the tool ----------

  /** How many of the rules are added before the kernel refuses one. */
  function Taken(rules: seq<Rule>, rejects: Fields -> bool): (n: nat)
    ensures n <= |rules|
    ensures n == |rules| <==> forall i | 0 <= i < |rules| :: !rejects(RuleSpec(rules[i]))
  {
    if rules == [] || rejects(RuleSpec(rules[0])) then 0 else 1 + Taken(rules[1..], rejects)
  }

  class Tool {
    var chain: seq<Fields>
    /** Where the listing of a rule has an added `-m udp`, if it has one. */
    const echoAt: Fields -> Option<nat>
    /** Rules the kernel refuses to add. */
    const rejects: Fields -> bool
    /** Whether the chain can be listed at all. */
    const readable: bool

    ghost predicate Valid()
      reads this
    {
      StoredRules(chain)
    }

    constructor (chain: seq<Fields>, echoAt: Fields -> Option<nat>, rejects: Fields -> bool, readable: bool)
      requires StoredRules(chain)
      ensures Valid() && this.chain == chain
      ensures this.echoAt == echoAt && this.rejects == rejects && this.readable == readable
    {
      this.chain, this.echoAt, this.rejects, this.readable := chain, echoAt, rejects, readable;
    }

    function Line(rule: Fields): string { PrintLine(Echo(rule, echoAt(rule))) }

    function Lines(rules: seq<Fields>): (lines: seq<string>)
      ensures |lines| == |rules| && forall i | 0 <= i < |rules| :: lines[i] == Line(rules[i])
    {
      seq(|rules|, i requires 0 <= i < |rules| => Line(rules[i]))
    }

    /** `-t nat -S PREROUTING` */
    method List() returns (output: Option<string>)
      ensures output == if readable then Some(Join([POLICY] + Lines(chain) + [""], '\n')) else None
    {
      output := if readable then Some(Join([POLICY] + Lines(chain) + [""], '\n')) else None;
    }

    /** `-t nat -D PREROUTING ...` */
    method Delete(args: Fields) returns (ok: bool)
      requires Valid()
      requires |args| > 3 && args[..3] == ["-t", "nat", "-D"]
      modifies this
      ensures var rule := DropUdp(["-A"] + args[3..]);
              chain == RemoveFirst(old(chain), rule) && ok == (rule in old(chain))
      ensures Valid()
    {
      var rule := DropUdp(["-A"] + args[3..]);
      ok := rule in chain;
      RemoveFirstKeeps(chain, rule);
      RemainStored(chain, RemoveFirst(chain, rule));
      chain := RemoveFirst(chain, rule);
    }

    /** `-t nat -A PREROUTING ...` */
    method Append(args: Fields) returns (ok: bool)
      requires Valid()
      requires |args| > 2 && args[..2] == ["-t", "nat"] && StoredRule(DropUdp(args[2..]))
      modifies this
      ensures ok == !rejects(args[2..])
      ensures chain == if ok then old(chain) + [DropUdp(args[2..])] else old(chain)
      ensures Valid()
    {
      ok := !rejects(args[2..]);
      if ok {
        chain := chain + [DropUdp(args[2..])];
      }
    }
  }

  // ---------- reading a listing ----------

  lemma LineReads(tool: Tool, rule: Fields)
    requires StoredRule(rule)
    ensures var fields := Tokenise(TrimSpace(tool.Line(rule)));
            && fields == Echo(rule, tool.echoAt(rule))
            && Managed(fields) == Managed(rule) && Normalise(fields) == Normalise(rule) && DropUdp(fields) == rule
    ensures '\n' !in tool.Line(rule)
  {
    hide Managed, Normalise, DropUdp, Tokenise, TrimSpace, PrintLine, Echo;
    var e := Echo(rule, tool.echoAt(rule));
    EchoFaithful(rule, tool.echoAt(rule));
    EchoText(rule, tool.echoAt(rule));
    PrintLineSurvives(e);
    TokenisePrintLine(e);
  }

  lemma ListingSplits(tool: Tool, chain: seq<Fields>)
    requires StoredRules(chain)
    ensures Split(Join([POLICY] + tool.Lines(chain) + [""], '\n'), '\n') == [POLICY] + tool.Lines(chain) + [""]
  {
    hide StoredRule, Split, Join, PrintLine, Echo;
    var lines := [POLICY] + tool.Lines(chain) + [""];
    assert Free(tool.Lines(chain), '\n') by {
      forall i | 0 <= i < |chain| ensures '\n' !in tool.Lines(chain)[i] {
        LineReads(tool, chain[i]);
      }
    }
    assert '\n' !in POLICY;
    SplitJoin(lines, '\n');
  }

  lemma PolicyText()
    ensures Join(["-P", "PREROUTING", "ACCEPT"], ' ') == POLICY
  {
    var fields := ["-P", "PREROUTING", "ACCEPT"];
    assert Join(fields[1..][1..], ' ') == "ACCEPT";
    assert Join(fields[1..], ' ') == "PREROUTING ACCEPT";
  }

  lemma PolicyReads()
    ensures Tokenise(POLICY) == ["-P", "PREROUTING", "ACCEPT"]
  {
    hide Lex, Tokenise, Join, Plain;
    GraphicPlain("-P");
    GraphicPlain("PREROUTING");
    GraphicPlain("ACCEPT");
    TokenisePlain(["-P", "PREROUTING", "ACCEPT"]);
    PolicyText();
  }

  lemma OtherLines()
    ensures !Managed(Tokenise(TrimSpace(POLICY))) && !Managed(Tokenise(TrimSpace("")))
  {
    hide Lex;
    assert TrimSpace(POLICY) == POLICY by { TrimIdentity(POLICY, SPACES); }
    PolicyReads();
    assert Tokenise("") == [] by { EmptyLine(); }
  }

  lemma EmptyLine()
    ensures Tokenise("") == []
  {}

  // ---------- deleting the managed rules ----------

  /** How many rules of the chain are on the first `i` lines of a listing. */
  function RulesOn(i: nat, chain: seq<Fields>): (n: nat)
    ensures n <= |chain|
  {
    if i == 0 then 0 else if i > |chain| then |chain| else i - 1
  }

  /** The chain when the managed rules of the first `i` lines are deleted. */
  function Pruned(i: nat, chain: seq<Fields>): seq<Fields> {
    Unmanaged(chain[..RulesOn(i, chain)]) + chain[RulesOn(i, chain)..]
  }

  function Listing(tool: Tool, chain: seq<Fields>): seq<string> { [POLICY] + tool.Lines(chain) + [""] }

  /** What the fields read from one line of a listing say. */
  lemma LineOf(tool: Tool, chain: seq<Fields>, i: nat, fields: Fields)
    requires StoredRules(chain) && i < |chain| + 2 && fields == Tokenise(TrimSpace(Listing(tool, chain)[i]))
    ensures Managed(fields) <==> 0 < i <= |chain| && Managed(chain[i - 1])
    ensures 0 < i <= |chain| ==> Normalise(fields) == Normalise(chain[i - 1]) && DropUdp(fields) == chain[i - 1]
  {
    hide Managed, Normalise, TrimSpace, Tokenise, StoredRule, DropUdp, PrintLine, Echo;
    OtherLines();
    assert Listing(tool, chain)[i] == if i == 0 then POLICY else if i > |chain| then "" else tool.Line(chain[i - 1]);
    if 0 < i <= |chain| {
      LineReads(tool, chain[i - 1]);
    }
  }

  lemma PrunedStep(i: nat, chain: seq<Fields>)
    requires i < |chain| + 2
    ensures if 0 < i <= |chain| && Managed(chain[i - 1])
            then Pruned(i + 1, chain) == RemoveFirst(Pruned(i, chain), chain[i - 1])
            else Pruned(i + 1, chain) == Pruned(i, chain)
    ensures Pruned(0, chain) == chain && Pruned(|chain| + 2, chain) == Unmanaged(chain)
  {
    hide Managed;
    assert chain[..0] == [] && chain[0..] == chain && chain[..|chain|] == chain;
    if 0 < i <= |chain| {
      PruneStep(chain, i - 1, Foreign);
    }
  }

  predicate NotLegacyJump(rule: Fields) { rule != ["-A", "PREROUTING", "-p", "udp", "-j", "V2NODE-HY2"] }

  lemma KeptMeaning(chain: seq<Fields>, readable: bool)
    ensures Select(chain, if readable then OtherRule else NotLegacyJump) ==
            if readable then Unmanaged(chain) else RemoveAll(chain, LEGACY_JUMP)
  {
    hide Managed, NodeRule;
    OthersAreForeign(chain);
    RemoveAllIs(chain, LEGACY_JUMP, NotLegacyJump);
  }

  lemma OthersAreForeign(chain: seq<Fields>)
    ensures Select(chain, OtherRule) == Unmanaged(chain) && Select(chain, NodeRule) == ManagedRules(chain)
  {
    hide Managed, NodeRule;
    forall rule ensures OtherRule(rule) == Foreign(rule) && NodeRule(rule) == Managed(rule) {
      ManagedIsNodeRule(rule);
    }
    SelectSame(chain, OtherRule, Foreign);
    SelectSame(chain, NodeRule, Managed);
  }

  method DeletePortForwardRules(tool: Tool)
    requires tool.Valid()
    modifies tool
    ensures tool.Valid()
    ensures tool.chain == if tool.readable then Unmanaged(old(tool.chain)) else RemoveAll(old(tool.chain), LEGACY_JUMP)
    ensures tool.chain == Select(old(tool.chain), if tool.readable then OtherRule else NotLegacyJump)
  {
    hide Unmanaged, Managed, TrimSpace, Tokenise, StoredRule, Pruned, DropUdp, Listing, RemoveFirst, RemoveAll, Select;
    ghost var chain := tool.chain;
    KeptMeaning(chain, tool.readable);
    var output := tool.List();
    if output.None? {
      DeleteLegacyJumps(tool);
      return;
    }
    var lines := Split(output.value, '\n');
    ListingLines(tool, chain, lines);
    PrunedStep(0, chain);
    for i := 0 to |lines|
      invariant tool.Valid() && tool.chain == Pruned(i, chain)
    {
      DeleteListed(tool, lines[i], chain, i);
    }
  }

  /** Deletes the rule printed on line `i` of the listing, if the node manages it. */
  method DeleteListed(tool: Tool, line: string, ghost chain: seq<Fields>, ghost i: nat)
    requires tool.Valid() && StoredRules(chain) && i < |chain| + 2
    requires line == Listing(tool, chain)[i] && tool.chain == Pruned(i, chain)
    modifies tool
    ensures tool.Valid() && tool.chain == Pruned(i + 1, chain)
  {
    hide Managed, TrimSpace, Tokenise, StoredRule, Pruned, DropUdp, Listing, RemoveFirst, Normalise;
    var fields := ParseIptablesSpec(TrimSpace(line));
    LineOf(tool, chain, i, fields);
    PrunedStep(i, chain);
    var managed := IsPortForwardRuleSpec(fields);
    if !managed {
      return;
    }
    ManagedStarts(fields);
    assert ["-A"] + fields[1..] == fields;
    var args := ["-t", "nat", "-D"] + fields[1..];
    assert args[3..] == fields[1..];
    var _ := tool.Delete(args);
  }

  lemma ListingLines(tool: Tool, chain: seq<Fields>, lines: seq<string>)
    requires StoredRules(chain) && lines == Split(Join([POLICY] + tool.Lines(chain) + [""], '\n'), '\n')
    ensures lines == Listing(tool, chain) && |lines| == |chain| + 2
  {
    ListingSplits(tool, chain);
  }

  method DeleteLegacyJumps(tool: Tool)
    requires tool.Valid()
    modifies tool
    ensures tool.Valid() && tool.chain == RemoveAll(old(tool.chain), LEGACY_JUMP)
  {
    hide StoredRule, RemoveFirst, RemoveAll;
    assert DropUdp(LEGACY_JUMP) == LEGACY_JUMP by { DropIdentity(LEGACY_JUMP); }
    hide DropUdp;
    while true
      invariant tool.Valid()
      invariant RemoveAll(tool.chain, LEGACY_JUMP) == RemoveAll(old(tool.chain), LEGACY_JUMP)
      decreases |tool.chain|
    {
      RemoveFirstKeeps(tool.chain, LEGACY_JUMP);
      var args := ["-t", "nat", "-D", "PREROUTING", "-p", "udp", "-j", CHAIN];
      assert ["-A"] + args[3..] == LEGACY_JUMP;
      var ok := tool.Delete(args);
      if !ok {
        return;
      }
    }
  }

  lemma ManagedStarts(fields: Fields)
    requires Managed(fields)
    ensures |fields| >= 4 && fields[0] == "-A" && fields[1] == "PREROUTING"
  {}

  // ---------- reconciling ----------

  method ReconcilePortForwardTool(tool: Tool, rules: seq<Rule>) returns (ok: bool)
    requires tool.Valid() && ValidRules(rules)
    modifies tool
    ensures tool.Valid()
    ensures ok == (Taken(rules, tool.rejects) == |rules|)
    ensures var kept := if tool.readable then Unmanaged(old(tool.chain)) else RemoveAll(old(tool.chain), LEGACY_JUMP);
            tool.chain == kept + RuleSpecs(rules[..Taken(rules, tool.rejects)])
    ensures tool.chain == Select(old(tool.chain), if tool.readable then OtherRule else NotLegacyJump)
                          + RuleSpecs(rules[..Taken(rules, tool.rejects)])
  {
    hide Unmanaged, Managed, StoredRule, ValidRule, RuleSpec, DropUdp, Select, RemoveAll, RuleSpecs, Taken;
    DeletePortForwardRules(tool);
    ghost var kept := tool.chain;
    assert RuleSpecs(rules[..0]) == [];
    for i := 0 to |rules|
      invariant tool.Valid()
      invariant tool.chain == kept + RuleSpecs(rules[..i])
      invariant Taken(rules, tool.rejects) >= i
    {
      TakenStep(rules, i, tool.rejects);
      RuleSpecsStep(rules, i);
      RuleSpecStored(rules[i]);
      var args := ["-t", "nat"] + RuleSpec(rules[i]);
      assert args[2..] == RuleSpec(rules[i]);
      ok := tool.Append(args);
      if !ok {
        return;
      }
    }
    assert rules[..|rules|] == rules;
    return true;
  }

  lemma {:induction false} TakenStep(rules: seq<Rule>, i: nat, rejects: Fields -> bool)
    requires i < |rules| && Taken(rules, rejects) >= i
    ensures Taken(rules, rejects) == i <==> rejects(RuleSpec(rules[i]))
  {
    hide RuleSpec;
    if i > 0 {
      TakenStep(rules[1..], i - 1, rejects);
    }
  }

  lemma RuleSpecsStep(rules: seq<Rule>, i: nat)
    requires i < |rules|
    ensures RuleSpecs(rules[..i + 1]) == RuleSpecs(rules[..i]) + [RuleSpec(rules[i])]
  {
    hide RuleSpec;
  }

  lemma RuleSpecStored(rule: Rule)
    requires ValidRule(rule)
    ensures StoredRule(RuleSpec(rule)) && DropUdp(RuleSpec(rule)) == RuleSpec(rule) != []
  {
    RuleSpecText(rule);
    PlainIsPrintable(RuleSpec(rule));
  }

  // ---------- inspecting ----------

  function SpecText(fields: Fields): string { Join(Normalise(fields), ' ') }

  function SpecTexts(specs: seq<Fields>): (texts: seq<string>)
    ensures |texts| == |specs| && forall i | 0 <= i < |specs| :: texts[i] == SpecText(specs[i])
  {
    seq(|specs|, i requires 0 <= i < |specs| => SpecText(specs[i]))
  }

  method ListPortForwardSpecs(tool: Tool) returns (specs: Option<seq<string>>)
    requires tool.Valid()
    ensures specs == if tool.readable then Some(SpecTexts(ManagedRules(tool.chain))) else None
  {
    hide Managed, Normalise, TrimSpace, Tokenise, StoredRule, SpecText, Listing, Select, SpecTexts, RulesOn, Join, Echo;
    var output := tool.List();
    if output.None? {
      return None;
    }
    ghost var chain := tool.chain;
    var lines := Split(output.value, '\n');
    ListingLines(tool, chain, lines);
    var found := [];
    ListedStep(0, chain);
    for i := 0 to |lines|
      invariant found == SpecTexts(ManagedRules(chain[..RulesOn(i, chain)]))
    {
      var fields := ParseIptablesSpec(TrimSpace(lines[i]));
      LineOf(tool, chain, i, fields);
      ListedStep(i, chain);
      var managed := IsPortForwardRuleSpec(fields);
      if !managed {
        continue;
      }
      var normal := NormalizePortForwardSpecFields(fields);
      assert Join(normal, ' ') == SpecText(chain[i - 1]) by { SpecTextIs(fields, chain[i - 1]); }
      found := found + [Join(normal, ' ')];
    }
    return Some(found);
  }

  lemma ListedStep(i: nat, chain: seq<Fields>)
    requires i < |chain| + 2
    ensures SpecTexts(ManagedRules(chain[..RulesOn(i + 1, chain)])) ==
            SpecTexts(ManagedRules(chain[..RulesOn(i, chain)]))
            + if 0 < i <= |chain| && Managed(chain[i - 1]) then [SpecText(chain[i - 1])] else []
    ensures chain[..RulesOn(0, chain)] == [] && chain[..RulesOn(|chain| + 2, chain)] == chain
    ensures SpecTexts(ManagedRules([])) == []
  {
    hide Managed, SpecText;
    if 0 < i <= |chain| {
      assert chain[..i] == chain[..i - 1] + [chain[i - 1]];
      SelectAppend(chain[..i - 1], [chain[i - 1]], Managed);
      SelectOne(chain[i - 1], Managed);
    }
  }

  lemma SpecTextIs(fields: Fields, rule: Fields)
    requires Normalise(fields) == Normalise(rule)
    ensures Join(Normalise(fields), ' ') == SpecText(rule)
  {}
}
