/**
 Building the redirect rules of all HY2 nodes: nodes are taken in order, and a node whose ports
 reach another node's server port, or ports already redirected elsewhere, is rejected.
 */
module PortRules {
  import opened Results
  import opened Sets
  import opened Text
  import opened PortExpr
  import opened PortMeaning
  import opened Iptables

  datatype CommonNode = CommonNode(serverPort: int, port: string, ports: string)

  datatype NodeInfo = NodeInfo(id: int, nodeType: string, common: Option<CommonNode>)

  /** The node list; a missing entry stands for a nil pointer. */
  type Infos = seq<Option<NodeInfo>>

  datatype Allocated = Allocated(nodeId: int, targetPort: nat, range: Range)

  datatype BuildError =
    | InvalidServerPort(nodeId: int, serverPort: int)
    | InvalidExpression(nodeId: int, expression: string, error: PortError)
    | OverServerPort(nodeId: int, expression: string, serverPort: int)
    | OverNode(nodeId: int, expression: string, other: Allocated)

  // ---------- the nodes that ask for rules ----------

  function LowerChar(c: char): char {
    if 'A' <= c <= 'Z' then (c as int + 32) as char
    else if c == '\U{130}' then 'i'
    else c
  }

  function ToLower(s: string): string {
    if s == "" then "" else [LowerChar(s[0])] + ToLower(s[1..])
  }

  predicate IsHysteriaNode(nodeType: string) {
    ToLower(TrimSpace(nodeType)) in {"hysteria", "hysteria2"}
  }

  predicate IsHysteria(info: Option<NodeInfo>) {
    info.Some? && info.value.common.Some? && IsHysteriaNode(info.value.nodeType)
  }

  predicate IsTarget(info: Option<NodeInfo>) {
    IsHysteria(info) && 0 < info.value.common.value.serverPort <= MAX_PORT
  }

  function ServerPort(info: Option<NodeInfo>): (port: nat)
    requires IsTarget(info)
    ensures 0 < port <= MAX_PORT
  {
    info.value.common.value.serverPort
  }

  function External(common: CommonNode): string {
    if TrimSpace(common.port) != "" then TrimSpace(common.port) else TrimSpace(common.ports)
  }

  /** A HY2 node with a valid server port and some port expression. */
  predicate Asks(info: Option<NodeInfo>) { IsTarget(info) && External(info.value.common.value) != "" }

  function CompiledOf(info: Option<NodeInfo>): Result<Compiled, PortError>
    requires Asks(info)
  {
    Compile(External(info.value.common.value), ServerPort(info))
  }

  /** The node asks for this port to be redirected to its server port. */
  predicate Wants(info: Option<NodeInfo>, port: int) {
    && Asks(info) && WellFormed(External(info.value.common.value))
    && Declares(External(info.value.common.value), port) && port != ServerPort(info)
  }

  function TargetPorts(infos: Infos): set<int> {
    set i | 0 <= i < |infos| && IsTarget(infos[i]) :: ServerPort(infos[i])
  }

  // ---------- which nodes are accepted ----------

  /** One of the node's ports is the server port of another HY2 node. */
  predicate HitsServerPort(infos: Infos, i: nat)
    requires i < |infos| && Asks(infos[i])
  {
    exists port <- TargetPorts(infos) :: port != ServerPort(infos[i]) && Wants(infos[i], port)
  }

  ghost predicate SharePort(a: Option<NodeInfo>, b: Option<NodeInfo>) {
    exists port :: Wants(a, port) && Wants(b, port)
  }

  ghost predicate Accepted(infos: Infos, i: nat)
    requires i < |infos|
    decreases i
  {
    && Asks(infos[i]) && WellFormed(External(infos[i].value.common.value))
    && !HitsServerPort(infos, i)
    && forall j: nat | j < i && Accepted(infos, j) && ServerPort(infos[j]) != ServerPort(infos[i]) ::
         !SharePort(infos[i], infos[j])
  }

  /** A node that should have rules but gets none. */
  ghost predicate Rejected(infos: Infos, i: nat)
    requires i < |infos|
  {
    IsHysteria(infos[i]) && !Accepted(infos, i) && (IsTarget(infos[i]) ==> Asks(infos[i]))
  }

  /** The rejected nodes among the first `n`, each once and in order. */
  ghost function RejectedUpTo(infos: Infos, n: nat): (r: seq<nat>)
    requires n <= |infos|
    ensures forall k | 0 <= k < |r| :: r[k] < n && Rejected(infos, r[k])
    ensures forall i: nat | i < n && Rejected(infos, i) :: i in r
    ensures forall k, l | 0 <= k < l < |r| :: r[k] < r[l]
  {
    hide Rejected;
    if n == 0 then []
    else RejectedUpTo(infos, n - 1) + if Rejected(infos, n - 1) then [n - 1] else []
  }

  /** The error names a true reason for rejecting node `i`. */
  ghost predicate Explains(infos: Infos, i: nat, err: BuildError)
    requires i < |infos| && IsHysteria(infos[i])
  {
    var info := infos[i].value;
    && err.nodeId == info.id
    && match err
       case InvalidServerPort(_, port) => !IsTarget(infos[i]) && port == info.common.value.serverPort
       case InvalidExpression(_, text, e) =>
         Asks(infos[i]) && text == External(info.common.value) && CompiledOf(infos[i]) == Failure(e)
       case OverServerPort(_, text, port) =>
         Asks(infos[i]) && text == External(info.common.value)
         && port in TargetPorts(infos) && port != ServerPort(infos[i]) && Wants(infos[i], port)
       case OverNode(_, text, other) =>
         Asks(infos[i]) && text == External(info.common.value) && !HitsServerPort(infos, i)
         && (exists j: nat :: j < i && Accepted(infos, j) && other in AllocatedOf(infos, j)
                              && other.targetPort != ServerPort(infos[i]) && SharePort(infos[i], infos[j]))
  }

  // ---------- the rules of the accepted nodes ----------

  ghost function AllocatedOf(infos: Infos, i: nat): seq<Allocated>
    requires i < |infos| && Accepted(infos, i)
  {
    CompileMeaning(External(infos[i].value.common.value), ServerPort(infos[i]), 0);
    Allocate(infos[i].value.id, ServerPort(infos[i]), CompiledOf(infos[i]).value.ranges)
  }

  function Allocate(nodeId: int, targetPort: nat, ranges: seq<Range>): (a: seq<Allocated>)
    ensures |a| == |ranges| && forall k | 0 <= k < |a| :: a[k] == Allocated(nodeId, targetPort, ranges[k])
  {
    seq(|ranges|, k requires 0 <= k < |ranges| => Allocated(nodeId, targetPort, ranges[k]))
  }

  ghost function AllocatedUpTo(infos: Infos, n: nat): seq<Allocated>
    requires n <= |infos|
  {
    if n == 0 then []
    else AllocatedUpTo(infos, n - 1) + if Accepted(infos, n - 1) then AllocatedOf(infos, n - 1) else []
  }

  predicate HasRule(rules: seq<Rule>, args: Fields, targetPort: nat) {
    exists k | 0 <= k < |rules| :: rules[k].matcher.args == args && rules[k].targetPort == targetPort
  }

  /** Adds the matchers that the target does not have yet. */
  function AddRules(rules: seq<Rule>, matchers: seq<Matcher>, targetPort: nat): seq<Rule>
    decreases matchers
  {
    if matchers == [] then rules
    else
      var m := matchers[0];
      AddRules(if HasRule(rules, m.args, targetPort) then rules
               else rules + [Rule(m, targetPort)], matchers[1..], targetPort)
  }

  /** The rules after the first `n` nodes. */
  ghost function RulesUpTo(infos: Infos, n: nat): seq<Rule>
    requires n <= |infos|
  {
    if n == 0 then []
    else
      var rules := RulesUpTo(infos, n - 1);
      if Accepted(infos, n - 1) then
        CompileMeaning(External(infos[n - 1].value.common.value), ServerPort(infos[n - 1]), 0);
        AddRules(rules, CompiledOf(infos[n - 1]).value.matchers, ServerPort(infos[n - 1]))
      else rules
  }

  ghost function BuiltRules(infos: Infos): seq<Rule> { RulesUpTo(infos, |infos|) }

  // ---------- conflict detection ----------

  function WantedRanges(info: Option<NodeInfo>): seq<Range>
    requires Asks(info) && WellFormed(External(info.value.common.value))
  {
    CompileMeaning(External(info.value.common.value), ServerPort(info), 0);
    CompiledOf(info).value.ranges
  }

  lemma WantedRangesMeaning(info: Option<NodeInfo>, port: int)
    requires Asks(info) && WellFormed(External(info.value.common.value))
    ensures SomeRangeHas(WantedRanges(info), port) <==> Wants(info, port)
    ensures ValidRanges(WantedRanges(info))
  {
    CompileMeaning(External(info.value.common.value), ServerPort(info), port);
  }

  method FindPortForwardTargetPortConflict(ranges: seq<Range>, targetPort: int, targetPorts: set<int>)
    returns (conflict: Option<int>)
    ensures conflict.Some? ==>
              conflict.value in targetPorts && conflict.value != targetPort && SomeRangeHas(ranges, conflict.value)
    ensures conflict.None? ==> forall port <- targetPorts :: port == targetPort || !SomeRangeHas(ranges, port)
  {
    var left := targetPorts;
    while left != {}
      invariant left <= targetPorts
      invariant forall port <- targetPorts - left :: port == targetPort || !SomeRangeHas(ranges, port)
      decreases |left|
    {
      ghost var some := Inhabited(left);
      var port :| port in left;
      left := left - {port};
      if port == targetPort {
        continue;
      }
      for k := 0 to |ranges|
        invariant forall l | 0 <= l < k :: !ranges[l].Contains(port)
      {
        if ranges[k].Contains(port) {
          return Some(port);
        }
      }
    }
    return None;
  }

  method FindPortForwardRangeConflict(ranges: seq<Range>, targetPort: nat, taken: seq<Allocated>)
    returns (conflict: Option<Allocated>)
    ensures conflict.Some? ==>
              && conflict.value in taken && conflict.value.targetPort != targetPort
              && exists k | 0 <= k < |ranges| :: ranges[k].Overlaps(conflict.value.range)
    ensures conflict.None? ==>
              forall k, l | 0 <= k < |ranges| && 0 <= l < |taken| ::
                taken[l].targetPort == targetPort || !ranges[k].Overlaps(taken[l].range)
  {
    for k := 0 to |ranges|
      invariant forall k', l | 0 <= k' < k && 0 <= l < |taken| ::
                  taken[l].targetPort == targetPort || !ranges[k'].Overlaps(taken[l].range)
    {
      for i := 0 to |taken|
        invariant forall l | 0 <= l < i :: taken[l].targetPort == targetPort || !ranges[k].Overlaps(taken[l].range)
      {
        if taken[i].targetPort == targetPort {
          continue;
        }
        if ranges[k].Overlaps(taken[i].range) {
          return Some(taken[i]);
        }
      }
    }
    return None;
  }

  lemma AllocatedFrom(infos: Infos, n: nat, a: Allocated) returns (j: nat)
    requires n <= |infos| && a in AllocatedUpTo(infos, n)
    ensures j < n && Accepted(infos, j) && a in AllocatedOf(infos, j)
  {
    hide Accepted, AllocatedOf;
    if n > 0 && Accepted(infos, n - 1) && a in AllocatedOf(infos, n - 1) {
      j := n - 1;
    } else {
      j := AllocatedFrom(infos, n - 1, a);
    }
  }

  lemma {:induction false} AllocatedCovers(infos: Infos, n: nat, j: nat, a: Allocated)
    requires j < n <= |infos| && Accepted(infos, j) && a in AllocatedOf(infos, j)
    ensures a in AllocatedUpTo(infos, n)
  {
    hide Accepted, AllocatedOf;
    if j < n - 1 {
      AllocatedCovers(infos, n - 1, j, a);
    }
  }

  /** An overlap with the ranges already taken is a port shared with an accepted node. */
  lemma OverlapIsShared(infos: Infos, i: nat, a: Allocated) returns (j: nat)
    requires i < |infos| && Asks(infos[i]) && WellFormed(External(infos[i].value.common.value))
    requires a in AllocatedUpTo(infos, i)
    requires exists k | 0 <= k < |WantedRanges(infos[i])| :: WantedRanges(infos[i])[k].Overlaps(a.range)
    ensures j < i && Accepted(infos, j) && a in AllocatedOf(infos, j) && SharePort(infos[i], infos[j])
    ensures a.targetPort == ServerPort(infos[j])
  {
    j := AllocatedFrom(infos, i, a);
    var mine, theirs := WantedRanges(infos[i]), WantedRanges(infos[j]);
    var k :| 0 <= k < |mine| && mine[k].Overlaps(a.range);
    var l :| 0 <= l < |theirs| && theirs[l] == a.range;
    WantedRangesMeaning(infos[i], 0);
    WantedRangesMeaning(infos[j], 0);
    var port := if mine[k].start < a.range.start then a.range.start else mine[k].start;
    assert mine[k].Contains(port) && theirs[l].Contains(port);
    WantedRangesMeaning(infos[i], port);
    WantedRangesMeaning(infos[j], port);
  }

  lemma SharedIsOverlap(infos: Infos, i: nat, j: nat)
    requires j < i < |infos| && Accepted(infos, j)
    requires Asks(infos[i]) && WellFormed(External(infos[i].value.common.value)) && SharePort(infos[i], infos[j])
    ensures exists k, l | 0 <= k < |WantedRanges(infos[i])| && 0 <= l < |AllocatedUpTo(infos, i)| ::
              && AllocatedUpTo(infos, i)[l].targetPort == ServerPort(infos[j])
              && WantedRanges(infos[i])[k].Overlaps(AllocatedUpTo(infos, i)[l].range)
  {
    var port :| Wants(infos[i], port) && Wants(infos[j], port);
    WantedRangesMeaning(infos[i], port);
    WantedRangesMeaning(infos[j], port);
    var mine, theirs := WantedRanges(infos[i]), WantedRanges(infos[j]);
    var k :| 0 <= k < |mine| && mine[k].Contains(port);
    var l :| 0 <= l < |theirs| && theirs[l].Contains(port);
    var a := AllocatedOf(infos, j)[l];
    AllocatedCovers(infos, i, j, a);
    assert mine[k].Overlaps(a.range);
    var l' :| 0 <= l' < |AllocatedUpTo(infos, i)| && AllocatedUpTo(infos, i)[l'] == a;
  }

  // ---------- the builder ----------

  function RuleKey(targetPort: nat, args: Fields): string {
    Itoa(targetPort) + ['|'] + Join(args, '\0')
  }

  lemma ShapedFree(args: Fields)
    requires Shaped(args)
    ensures args != [] && Free(args, '\0')
  {
    ArgsPlain(args);
  }

  lemma RuleKeyInjective(t: nat, args: Fields, t': nat, args': Fields)
    requires Shaped(args) && Shaped(args') && RuleKey(t, args) == RuleKey(t', args')
    ensures t == t' && args == args'
  {
    ShapedFree(args);
    ShapedFree(args');
    hide Shaped;
    assert Split(RuleKey(t, args), '|') == [Itoa(t)] + Split(Join(args, '\0'), '|') by {
      PlainNumber(t, '|');
      SplitFirst(Itoa(t), Join(args, '\0'), '|');
    }
    assert Split(RuleKey(t', args'), '|') == [Itoa(t')] + Split(Join(args', '\0'), '|') by {
      PlainNumber(t', '|');
      SplitFirst(Itoa(t'), Join(args', '\0'), '|');
    }
    assert Itoa(t) == Split(RuleKey(t, args), '|')[0] == Itoa(t');
    ItoaInjective(t, t');
    var n := |Itoa(t)| + 1;
    assert RuleKey(t, args)[n..] == Join(args, '\0') && RuleKey(t', args')[n..] == Join(args', '\0');
    JoinInjective(args, args', '\0');
  }

  ghost predicate SeenFits(seen: set<string>, rules: seq<Rule>) {
    forall key :: key in seen <==> exists k | 0 <= k < |rules| ::
        key == RuleKey(rules[k].targetPort, rules[k].matcher.args)
  }

  lemma SeenMeansHasRule(seen: set<string>, rules: seq<Rule>, args: Fields, targetPort: nat)
    requires SeenFits(seen, rules) && ValidRules(rules) && Shaped(args)
    ensures RuleKey(targetPort, args) in seen <==> HasRule(rules, args, targetPort)
  {
    hide Shaped, RuleKey;
    if RuleKey(targetPort, args) in seen {
      var k :| 0 <= k < |rules| && RuleKey(targetPort, args) == RuleKey(rules[k].targetPort, rules[k].matcher.args);
      RuleKeyInjective(targetPort, args, rules[k].targetPort, rules[k].matcher.args);
    }
  }

  method AppendNewRules(rules: seq<Rule>, seen: set<string>, matchers: seq<Matcher>, targetPort: nat)
    returns (rules': seq<Rule>, seen': set<string>)
    requires ValidRules(rules) && SeenFits(seen, rules) && AllShaped(matchers) && targetPort <= MAX_PORT
    ensures rules' == AddRules(rules, matchers, targetPort)
    ensures ValidRules(rules') && SeenFits(seen', rules')
  {
    hide Shaped, RuleKey;
    rules', seen' := rules, seen;
    assert matchers[0..] == matchers;
    for i := 0 to |matchers|
      invariant ValidRules(rules') && SeenFits(seen', rules')
      invariant AddRules(rules', matchers[i..], targetPort) == AddRules(rules, matchers, targetPort)
    {
      var matcher := matchers[i];
      assert matchers[i..][0] == matcher && matchers[i..][1..] == matchers[i + 1..];
      var key := RuleKey(targetPort, matcher.args);
      SeenMeansHasRule(seen', rules', matcher.args, targetPort);
      if key in seen' {
        continue;
      }
      SeenExtends(seen', rules', Rule(matcher, targetPort));
      seen' := seen' + {key};
      rules' := rules' + [Rule(matcher, targetPort)];
    }
  }

  lemma SeenExtends(seen: set<string>, rules: seq<Rule>, rule: Rule)
    requires SeenFits(seen, rules)
    ensures SeenFits(seen + {RuleKey(rule.targetPort, rule.matcher.args)}, rules + [rule])
  {
    hide RuleKey;
    var longer := rules + [rule];
    assert longer[|rules|] == rule;
    forall key | key in seen
      ensures exists k | 0 <= k < |longer| :: key == RuleKey(longer[k].targetPort, longer[k].matcher.args)
    {
      var k :| 0 <= k < |rules| && key == RuleKey(rules[k].targetPort, rules[k].matcher.args);
      assert longer[k] == rules[k];
    }
  }

  /** The verdict on node `i`, decided as the builder decides it. */
  lemma AcceptedWhen(infos: Infos, i: nat, hit: Option<int>, clash: Option<Allocated>)
    requires i < |infos| && Asks(infos[i]) && WellFormed(External(infos[i].value.common.value))
    requires hit.Some? ==>
               && hit.value in TargetPorts(infos) && hit.value != ServerPort(infos[i])
               && SomeRangeHas(WantedRanges(infos[i]), hit.value)
    requires hit.None? ==>
               forall port <- TargetPorts(infos) ::
                 port == ServerPort(infos[i]) || !SomeRangeHas(WantedRanges(infos[i]), port)
    requires clash.Some? ==>
               && clash.value in AllocatedUpTo(infos, i) && clash.value.targetPort != ServerPort(infos[i])
               && exists k | 0 <= k < |WantedRanges(infos[i])| :: WantedRanges(infos[i])[k].Overlaps(clash.value.range)
    requires clash.None? ==>
               forall k, l | 0 <= k < |WantedRanges(infos[i])| && 0 <= l < |AllocatedUpTo(infos, i)| ::
                 || AllocatedUpTo(infos, i)[l].targetPort == ServerPort(infos[i])
                 || !WantedRanges(infos[i])[k].Overlaps(AllocatedUpTo(infos, i)[l].range)
    ensures HitsServerPort(infos, i) <==> hit.Some?
    ensures Accepted(infos, i) <==> hit.None? && clash.None?
    ensures hit.Some? ==> Wants(infos[i], hit.value)
    ensures hit.None? && clash.Some? ==>
              Explains(infos, i, OverNode(infos[i].value.id, External(infos[i].value.common.value), clash.value))
  {
    hide Wants, WellFormed;
    forall port | port in TargetPorts(infos)
      ensures SomeRangeHas(WantedRanges(infos[i]), port) <==> Wants(infos[i], port)
    {
      WantedRangesMeaning(infos[i], port);
    }
    if clash.Some? {
      var j := OverlapIsShared(infos, i, clash.value);
    } else {
      forall j: nat | j < i && Accepted(infos, j) && ServerPort(infos[j]) != ServerPort(infos[i])
        ensures !SharePort(infos[i], infos[j])
      {
        if SharePort(infos[i], infos[j]) {
          SharedIsOverlap(infos, i, j);
        }
      }
    }
  }

  /** What the builder holds after the first `i` nodes. */
  ghost predicate BuiltUpTo(infos: Infos, i: nat, rules: seq<Rule>, taken: seq<Allocated>, errs: seq<BuildError>)
    requires i <= |infos|
  {
    && rules == RulesUpTo(infos, i) && taken == AllocatedUpTo(infos, i)
    && |errs| == |RejectedUpTo(infos, i)|
    && forall k | 0 <= k < |errs| :: Explains(infos, RejectedUpTo(infos, i)[k], errs[k])
  }

  lemma NothingBuilt(infos: Infos)
    ensures BuiltUpTo(infos, 0, [], [], [])
  {}

  lemma BuiltTaken(infos: Infos, i: nat, rules: seq<Rule>, taken: seq<Allocated>, errs: seq<BuildError>)
    requires i <= |infos| && BuiltUpTo(infos, i, rules, taken, errs)
    ensures taken == AllocatedUpTo(infos, i)
  {}

  lemma NodeSkipped(infos: Infos, i: nat, rules: seq<Rule>, taken: seq<Allocated>, errs: seq<BuildError>)
    requires i < |infos| && BuiltUpTo(infos, i, rules, taken, errs) && !Accepted(infos, i) && !Rejected(infos, i)
    ensures BuiltUpTo(infos, i + 1, rules, taken, errs)
  {
    hide Accepted, Rejected, Explains;
  }

  lemma NodeRejected(infos: Infos, i: nat, rules: seq<Rule>, taken: seq<Allocated>, errs: seq<BuildError>,
                     err: BuildError)
    requires i < |infos| && BuiltUpTo(infos, i, rules, taken, errs)
    requires !Accepted(infos, i) && Rejected(infos, i) && Explains(infos, i, err)
    ensures BuiltUpTo(infos, i + 1, rules, taken, errs + [err])
  {
    hide Accepted, Rejected, Explains;
  }

  lemma NodeAccepted(infos: Infos, i: nat, rules: seq<Rule>, taken: seq<Allocated>, errs: seq<BuildError>)
    requires i < |infos| && BuiltUpTo(infos, i, rules, taken, errs) && Accepted(infos, i)
    ensures CompiledOf(infos[i]).Success?
    ensures var compiled, port := CompiledOf(infos[i]).value, ServerPort(infos[i]);
            BuiltUpTo(infos, i + 1, AddRules(rules, compiled.matchers, port),
                      taken + Allocate(infos[i].value.id, port, compiled.ranges), errs)
  {
    CompileMeaning(External(infos[i].value.common.value), ServerPort(infos[i]), 0);
    hide Explains, HitsServerPort, WellFormed, Compile, External, AddRules;
  }

  method BuildHysteriaPortForwardRules(infos: Infos) returns (rules: seq<Rule>, errs: seq<BuildError>)
    ensures rules == BuiltRules(infos) && ValidRules(rules)
    ensures |errs| == |RejectedUpTo(infos, |infos|)|
    ensures forall k | 0 <= k < |errs| :: Explains(infos, RejectedUpTo(infos, |infos|)[k], errs[k])
  {
    hide WellFormed, Shaped, Compile, External, IsHysteriaNode, BuiltUpTo, HitsServerPort, SharePort, AddRules;
    rules, errs := [], [];
    var seen: set<string> := {};
    var taken: seq<Allocated> := [];
    var targetPorts := TargetPorts(infos);
    NothingBuilt(infos);
    for i := 0 to |infos|
      invariant ValidRules(rules) && SeenFits(seen, rules) && BuiltUpTo(infos, i, rules, taken, errs)
    {
      BuiltTaken(infos, i, rules, taken, errs);
      var info := infos[i];
      if !IsHysteria(info) {
        NodeSkipped(infos, i, rules, taken, errs);
        continue;
      }
      var id, common := info.value.id, info.value.common.value;
      if common.serverPort <= 0 || common.serverPort > MAX_PORT {
        NodeRejected(infos, i, rules, taken, errs, InvalidServerPort(id, common.serverPort));
        errs := errs + [InvalidServerPort(id, common.serverPort)];
        continue;
      }
      var targetPort: nat := common.serverPort;
      var expression := External(common);
      if expression == "" {
        NodeSkipped(infos, i, rules, taken, errs);
        continue;
      }
      var compiled := ParsePortForwardMatchersAndRangesExcept(expression, targetPort);
      CompileMeaning(expression, targetPort, 0);
      if compiled.Failure? {
        NodeRejected(infos, i, rules, taken, errs, InvalidExpression(id, expression, compiled.error));
        errs := errs + [InvalidExpression(id, expression, compiled.error)];
        continue;
      }
      var matchers, ranges := compiled.value.matchers, compiled.value.ranges;
      var hit := FindPortForwardTargetPortConflict(ranges, targetPort, targetPorts);
      var clash := FindPortForwardRangeConflict(ranges, targetPort, taken);
      assert ranges == WantedRanges(info);
      AcceptedWhen(infos, i, hit, clash);
      if hit.Some? {
        NodeRejected(infos, i, rules, taken, errs, OverServerPort(id, expression, hit.value));
        errs := errs + [OverServerPort(id, expression, hit.value)];
        continue;
      }
      if clash.Some? {
        NodeRejected(infos, i, rules, taken, errs, OverNode(id, expression, clash.value));
        errs := errs + [OverNode(id, expression, clash.value)];
        continue;
      }
      NodeAccepted(infos, i, rules, taken, errs);
      taken := taken + Allocate(id, targetPort, ranges);
      rules, seen := AppendNewRules(rules, seen, matchers, targetPort);
    }
    AllBuilt(infos, rules, taken, errs);
  }

  lemma AllBuilt(infos: Infos, rules: seq<Rule>, taken: seq<Allocated>, errs: seq<BuildError>)
    requires BuiltUpTo(infos, |infos|, rules, taken, errs)
    ensures rules == BuiltRules(infos) && |errs| == |RejectedUpTo(infos, |infos|)|
    ensures forall k | 0 <= k < |errs| :: Explains(infos, RejectedUpTo(infos, |infos|)[k], errs[k])
  {}
}
