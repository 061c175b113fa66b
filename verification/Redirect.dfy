/**
 What the built rules do: they denote one partial function from ports to ports, exactly the one
 that the accepted nodes ask for.
 */
module Redirect {
  import opened Results
  import opened Text
  import opened PortExpr
  import opened PortMeaning
  import opened PortText
  import opened Iptables
  import opened PortRules

  /** Some rule sends the port to the target. */
  predicate Sends(rules: seq<Rule>, port: int, target: nat) {
    exists k | 0 <= k < |rules| :: rules[k].targetPort == target && HasPort(rules[k].matcher.args, port)
  }

  /** Two rules that match the same port have the same target. */
  ghost predicate ConflictFree(rules: seq<Rule>) {
    forall port, t, t' :: Sends(rules, port, t) && Sends(rules, port, t') ==> t == t'
  }

  /** First-match over the rules as written. */
  function Forward(rules: seq<Rule>, port: int): Option<int> { FirstMatch(RuleSpecs(rules), port) }

  lemma SendsAppend(rules: seq<Rule>, rule: Rule, port: int, target: nat)
    ensures Sends(rules + [rule], port, target) <==>
            Sends(rules, port, target) || (rule.targetPort == target && HasPort(rule.matcher.args, port))
  {
    hide HasPort;
    var longer := rules + [rule];
    assert longer[|rules|] == rule;
    forall k | 0 <= k < |rules| ensures longer[k] == rules[k] {}
  }

  lemma SomeMatcherFirst(matchers: seq<Matcher>, port: int)
    requires matchers != []
    ensures SomeMatcherHas(matchers, port) <==> HasPort(matchers[0].args, port) || SomeMatcherHas(matchers[1..], port)
  {
    hide HasPort;
    assert matchers == [matchers[0]] + matchers[1..];
    SomeMatcherAppend([matchers[0]], matchers[1..], port);
    assert [matchers[0]][0] == matchers[0];
  }

  /** Leaving out the rules a target already has loses nothing. */
  lemma {:induction false} AddRulesSends(rules: seq<Rule>, matchers: seq<Matcher>, added: nat, port: int, target: nat)
    requires ValidRules(rules) && AllShaped(matchers) && added <= MAX_PORT
    ensures Sends(AddRules(rules, matchers, added), port, target) <==>
            Sends(rules, port, target) || (target == added && SomeMatcherHas(matchers, port))
    ensures ValidRules(AddRules(rules, matchers, added))
    decreases matchers
  {
    hide HasPort, Shaped;
    if matchers != [] {
      var m := matchers[0];
      SomeMatcherFirst(matchers, port);
      if HasRule(rules, m.args, added) {
        AddRulesSends(rules, matchers[1..], added, port, target);
      } else {
        SendsAppend(rules, Rule(m, added), port, target);
        AddRulesSends(rules + [Rule(m, added)], matchers[1..], added, port, target);
      }
    }
  }

  ghost predicate AcceptedWants(infos: Infos, n: nat, port: int, target: nat)
    requires n <= |infos|
  {
    exists i: nat | i < n && Accepted(infos, i) :: ServerPort(infos[i]) == target && Wants(infos[i], port)
  }

  lemma {:induction false} RulesUpToSend(infos: Infos, n: nat, port: int, target: nat)
    requires n <= |infos|
    ensures Sends(RulesUpTo(infos, n), port, target) <==> AcceptedWants(infos, n, port, target)
    ensures ValidRules(RulesUpTo(infos, n))
  {
    hide HasPort, Shaped, Wants, WellFormed, External, Accepted, CompiledOf, Asks;
    if n > 0 {
      RulesUpToSend(infos, n - 1, port, target);
      if Accepted(infos, n - 1) {
        AcceptedAsks(infos, n - 1);
        MatchersWant(infos[n - 1], port);
        AddRulesSends(RulesUpTo(infos, n - 1), CompiledOf(infos[n - 1]).value.matchers, ServerPort(infos[n - 1]), port,
                      target);
      }
    }
  }

  lemma AcceptedAsks(infos: Infos, i: nat)
    requires i < |infos| && Accepted(infos, i)
    ensures Asks(infos[i]) && WellFormed(External(infos[i].value.common.value))
  {}

  lemma MatchersWant(info: Option<NodeInfo>, port: int)
    requires Asks(info) && WellFormed(External(info.value.common.value))
    ensures CompiledOf(info).Success? && AllShaped(CompiledOf(info).value.matchers)
    ensures SomeMatcherHas(CompiledOf(info).value.matchers, port) <==> Wants(info, port)
  {
    hide WellFormed, Declares;
    CompileMeaning(External(info.value.common.value), ServerPort(info), port);
  }

  // ---------- the rules denote one partial function ----------

  lemma BuiltRulesConflictFree(infos: Infos)
    ensures ConflictFree(BuiltRules(infos))
  {
    hide HasPort, Shaped, Wants, WellFormed, HitsServerPort, External;
    var rules := BuiltRules(infos);
    forall port, t, t' | Sends(rules, port, t) && Sends(rules, port, t') ensures t == t' {
      RulesUpToSend(infos, |infos|, port, t);
      RulesUpToSend(infos, |infos|, port, t');
      var i: nat :| i < |infos| && Accepted(infos, i) && ServerPort(infos[i]) == t && Wants(infos[i], port);
      var j: nat :| j < |infos| && Accepted(infos, j) && ServerPort(infos[j]) == t' && Wants(infos[j], port);
      assert SharePort(infos[i], infos[j]) && SharePort(infos[j], infos[i]);
    }
  }

  lemma {:induction false} ForwardSends(rules: seq<Rule>, port: int)
    requires ValidRules(rules)
    ensures match Forward(rules, port)
            case Some(t) => t >= 0 && Sends(rules, port, t)
            case None => forall t :: !Sends(rules, port, t)
  {
    hide HasPort, Shaped, Target, RuleSpec;
    if rules != [] {
      var rest := rules[1..];
      RuleSpecMeaning(rules[0], port);
      ForwardSends(rest, port);
      assert RuleSpecs(rules)[1..] == RuleSpecs(rest);
      forall t: nat
        ensures Sends(rules, port, t) <==>
                (rules[0].targetPort == t && HasPort(rules[0].matcher.args, port)) || Sends(rest, port, t)
      {
        SendsFirst(rules, port, t);
      }
    }
  }

  lemma SendsFirst(rules: seq<Rule>, port: int, target: nat)
    requires rules != []
    ensures Sends(rules, port, target) <==>
            (rules[0].targetPort == target && HasPort(rules[0].matcher.args, port)) || Sends(rules[1..], port, target)
  {
    hide HasPort;
    var rest := rules[1..];
    forall k | 1 <= k < |rules|
      ensures rest[k - 1] == rules[k] {} if Sends(rest, port, target)
    {
      var k :| 0 <= k < |rest| && rest[k].targetPort == target && HasPort(rest[k].matcher.args, port);
      assert rules[k + 1] == rest[k];
    }
    if k :| 0 <= k < |rules| && rules[k].targetPort == target && HasPort(rules[k].matcher.args, port) {
      assert k > 0 ==> rest[k - 1] == rules[k];
    }
  }

  /** A port is forwarded to `target` exactly when an accepted node with that server port asks for it. */
  lemma ForwardExact(infos: Infos, port: int, target: nat)
    ensures Forward(BuiltRules(infos), port) == Some(target) <==> AcceptedWants(infos, |infos|, port, target)
  {
    var rules := BuiltRules(infos);
    RulesUpToSend(infos, |infos|, port, target);
    ForwardSends(rules, port);
    BuiltRulesConflictFree(infos);
  }

  lemma AcceptedAvoidServerPorts(infos: Infos, port: int, target: nat)
    requires AcceptedWants(infos, |infos|, port, target)
    ensures port !in TargetPorts(infos) && target in TargetPorts(infos)
  {}

  /** No server port of a HY2 node is redirected, so redirecting twice is redirecting once. */
  lemma ForwardOnce(infos: Infos, port: int)
    ensures port in TargetPorts(infos) ==> Forward(BuiltRules(infos), port) == None
    ensures Forward(BuiltRules(infos), port).Some? ==>
              && Forward(BuiltRules(infos), port).value in TargetPorts(infos)
              && Forward(BuiltRules(infos), Forward(BuiltRules(infos), port).value) == None
  {
    hide AcceptedWants;
    var rules := BuiltRules(infos);
    RulesUpToSend(infos, |infos|, port, 0);
    ForwardSends(rules, port);
    if Forward(rules, port).Some? {
      var t := Forward(rules, port).value;
      ForwardExact(infos, port, t);
      AcceptedAvoidServerPorts(infos, port, t);
      ForwardSends(rules, t);
      if Forward(rules, t).Some? {
        ForwardExact(infos, t, Forward(rules, t).value);
        AcceptedAvoidServerPorts(infos, t, Forward(rules, t).value);
      }
    }
  }

  /** Neither order nor repetition of the rules matters. */
  lemma OrderIrrelevant(rules: seq<Rule>, others: seq<Rule>, port: int)
    requires ValidRules(rules) && ValidRules(others) && ConflictFree(rules)
    requires forall rule :: rule in rules <==> rule in others
    ensures Forward(rules, port) == Forward(others, port)
  {
    forall t: nat ensures Sends(rules, port, t) <==> Sends(others, port, t) {
      if Sends(rules, port, t) {
        var k :| 0 <= k < |rules| && rules[k].targetPort == t && HasPort(rules[k].matcher.args, port);
        assert rules[k] in others;
      }
      if Sends(others, port, t) {
        var k :| 0 <= k < |others| && others[k].targetPort == t && HasPort(others[k].matcher.args, port);
        assert others[k] in rules;
      }
    }
    ForwardSends(rules, port);
    ForwardSends(others, port);
  }

  // ---------- nodes as they are written ----------

  predicate Blank(s: string) { forall i | 0 <= i < |s| :: s[i] == ' ' }

  /** A HY2 node with a server port, and its port expression in `port`, or in `ports` if `port` is blank. */
  predicate WrittenNode(info: Option<NodeInfo>, server: int, pieces: seq<Piece>) {
    && info.Some? && info.value.nodeType in {"hysteria", "hysteria2"} && info.value.common.Some?
    && info.value.common.value.serverPort == server && 1 <= server <= 65535 && pieces != []
    && var common, text := info.value.common.value, Join(Written(pieces), ',');
       text != "" && text == Without(if Blank(common.port) then common.ports else common.port, ' ')
  }

  /** Of the types in lower case, these two are HY2. */
  lemma HysteriaTypes(nodeType: string)
    requires forall i | 0 <= i < |nodeType| :: 'a' <= nodeType[i] <= 'z' || IsDigit(nodeType[i])
    ensures IsHysteriaNode(nodeType) <==> nodeType == "hysteria" || nodeType == "hysteria2"
  {
    TrimIdentity(nodeType, SPACES);
    LowerIdentity(nodeType);
  }

  lemma {:induction false} LowerIdentity(s: string)
    requires forall i | 0 <= i < |s| :: 'a' <= s[i] <= 'z' || IsDigit(s[i])
    ensures ToLower(s) == s
  {
    if s != "" {
      LowerIdentity(s[1..]);
      assert s == [s[0]] + s[1..];
    }
  }

  lemma {:induction false} BlankTrims(s: string)
    requires Blank(s)
    ensures TrimSpace(s) == "" && Without(s, ' ') == ""
  {
    if s != "" {
      BlankTrims(s[1..]);
      assert TrimLeft(s, SPACES) == TrimLeft(s[1..], SPACES);
    }
  }

  /** Such a node asks for exactly the ports that its expression lists, without its own, if all of it is valid. */
  lemma NodeWants(info: Option<NodeInfo>, server: int, pieces: seq<Piece>, port: int)
    requires WrittenNode(info, server, pieces)
    ensures Asks(info) && ServerPort(info) == server
    ensures Wants(info, port) <==> AllValid(pieces) && SomeLists(pieces, port) && port != server
    ensures WellFormed(External(info.value.common.value)) <==> AllValid(pieces)
  {
    hide Without, Join, TrimLeft, TrimRight, Trim, ToLower, WellFormed, Declares;
    HysteriaTypes(info.value.nodeType);
    var common := info.value.common.value;
    if Blank(common.port) {
      BlankTrims(common.port);
    }
    var raw := if Blank(common.port) then common.ports else common.port;
    CleanedText(raw, pieces);
    assert Cleaned(raw) == Without(TrimSpace(raw), ' ');
    assert Without("", ' ') == "" by { BlankTrims(""); }
    assert TrimSpace(raw) != "";
    ExpressionMeaning(TrimSpace(raw), pieces, 0, port);
  }

  /** Alone, the node's rules redirect exactly these ports, to its server port. */
  lemma OneNodeForwards(info: Option<NodeInfo>, server: int, pieces: seq<Piece>, port: int)
    requires WrittenNode(info, server, pieces)
    ensures Forward(BuiltRules([info]), port) == Some(server) <==>
            AllValid(pieces) && SomeLists(pieces, port) && port != server
    ensures Forward(BuiltRules([info]), port) in {None, Some(server)}
  {
    hide Forward, BuiltRules, Wants, WellFormed, WrittenNode;
    var infos := [info];
    NodeWants(info, server, pieces, port);
    assert infos[0] == info && IsTarget(infos[0]) && ServerPort(infos[0]) == server;
    assert server in TargetPorts(infos) && TargetPorts(infos) == {server};
    assert Accepted(infos, 0) <==> WellFormed(External(info.value.common.value));
    ForwardExact(infos, port, server);
    ForwardTarget(infos, port);
  }

  lemma ForwardTarget(infos: Infos, port: int)
    ensures Forward(BuiltRules(infos), port).Some? ==> Forward(BuiltRules(infos), port).value in TargetPorts(infos)
  {
    ForwardOnce(infos, port);
  }

  /** The node's expression lists the port, and it is not its own. */
  predicate Gives(server: int, pieces: seq<Piece>, port: int) { SomeLists(pieces, port) && port != server }

  /** Nodes as they are written, with valid expressions, of which none disturbs another. */
  ghost predicate Undisturbed(infos: Infos, servers: seq<int>, pieces: seq<seq<Piece>>) {
    && |infos| == |servers| == |pieces|
    && (forall i | 0 <= i < |infos| :: WrittenNode(infos[i], servers[i], pieces[i]) && AllValid(pieces[i]))
    && (forall i, j | 0 <= i < |infos| && 0 <= j < |infos| :: !Gives(servers[i], pieces[i], servers[j]))
    && forall i, j, port | 0 <= i < |infos| && 0 <= j < |infos| && servers[i] != servers[j] ::
         !(Gives(servers[i], pieces[i], port) && Gives(servers[j], pieces[j], port))
  }

  /** What each of these nodes asks for. */
  lemma UndisturbedWant(infos: Infos, servers: seq<int>, pieces: seq<seq<Piece>>, i: nat)
    requires Undisturbed(infos, servers, pieces) && i < |infos|
    ensures Asks(infos[i]) && ServerPort(infos[i]) == servers[i]
            && WellFormed(External(infos[i].value.common.value))
    ensures forall port :: Wants(infos[i], port) <==> Gives(servers[i], pieces[i], port)
  {
    hide WrittenNode, Wants, WellFormed, SomeLists;
    NodeWants(infos[i], servers[i], pieces[i], 0);
    forall port ensures Wants(infos[i], port) <==> Gives(servers[i], pieces[i], port) {
      NodeWants(infos[i], servers[i], pieces[i], port);
    }
  }

  /** No such node hits the server port of another. */
  lemma UndisturbedHit(infos: Infos, servers: seq<int>, pieces: seq<seq<Piece>>, i: nat)
    requires Undisturbed(infos, servers, pieces) && i < |infos| && Asks(infos[i])
    ensures !HitsServerPort(infos, i)
  {
    hide Wants, Gives, WrittenNode, AllValid;
    UndisturbedWant(infos, servers, pieces, i);
    forall j: nat | j < |infos| && IsTarget(infos[j]) ensures !Wants(infos[i], ServerPort(infos[j])) {
      UndisturbedWant(infos, servers, pieces, j);
      assert !Gives(servers[i], pieces[i], servers[j]);
    }
  }

  lemma UndisturbedShare(infos: Infos, servers: seq<int>, pieces: seq<seq<Piece>>, i: nat, j: nat)
    requires Undisturbed(infos, servers, pieces) && i < |infos| && j < |infos| && servers[i] != servers[j]
    ensures !SharePort(infos[i], infos[j])
  {
    hide Wants, Gives, WrittenNode, AllValid;
    UndisturbedWant(infos, servers, pieces, i);
    UndisturbedWant(infos, servers, pieces, j);
  }

  lemma UndisturbedAccepted(infos: Infos, servers: seq<int>, pieces: seq<seq<Piece>>, i: nat)
    requires Undisturbed(infos, servers, pieces) && i < |infos|
    ensures Accepted(infos, i)
  {
    hide Wants, WrittenNode, Undisturbed, WellFormed, SharePort, HitsServerPort;
    UndisturbedWant(infos, servers, pieces, i);
    UndisturbedHit(infos, servers, pieces, i);
    forall j: nat | j < i && Accepted(infos, j) && ServerPort(infos[j]) != ServerPort(infos[i])
      ensures !SharePort(infos[i], infos[j])
    {
      assert |infos| == |servers| == |pieces| by { SameLengths(infos, servers, pieces); }
      UndisturbedWant(infos, servers, pieces, j);
      UndisturbedShare(infos, servers, pieces, i, j);
    }
  }

  lemma SameLengths(infos: Infos, servers: seq<int>, pieces: seq<seq<Piece>>)
    requires Undisturbed(infos, servers, pieces)
    ensures |infos| == |servers| == |pieces|
  {}

  /** All of them are accepted. */
  lemma AllAccepted(infos: Infos, servers: seq<int>, pieces: seq<seq<Piece>>)
    requires Undisturbed(infos, servers, pieces)
    ensures |infos| == |servers| == |pieces|
    ensures forall i: nat | i < |infos| :: Accepted(infos, i) && ServerPort(infos[i]) == servers[i]
    ensures forall i: nat, port | i < |infos| :: Wants(infos[i], port) <==> Gives(servers[i], pieces[i], port)
  {
    hide Wants, WrittenNode, Undisturbed, WellFormed, Accepted, Gives;
    SameLengths(infos, servers, pieces);
    forall i: nat | i < |infos|
      ensures Asks(infos[i]) && Accepted(infos, i) && ServerPort(infos[i]) == servers[i]
      ensures forall port :: Wants(infos[i], port) <==> Gives(servers[i], pieces[i], port)
    {
      UndisturbedAccepted(infos, servers, pieces, i);
      UndisturbedWant(infos, servers, pieces, i);
    }
  }

  /** Nodes that do not disturb each other are all forwarded: each listed port goes to the server that lists it. */
  lemma NodesForward(infos: Infos, servers: seq<int>, pieces: seq<seq<Piece>>, port: int, target: nat)
    requires Undisturbed(infos, servers, pieces)
    ensures Forward(BuiltRules(infos), port) == Some(target) <==>
            exists i | 0 <= i < |infos| :: servers[i] == target && Gives(servers[i], pieces[i], port)
  {
    hide Forward, BuiltRules, WrittenNode, Wants, Asks, Undisturbed, Gives;
    AllAccepted(infos, servers, pieces);
    ForwardExact(infos, port, target);
  }
}
