/**
 Rules of the nat PREROUTING chain as lists of fields: how they are written on a line and read
 back, which of them the node manages, how they are compared, and what they do to a packet.
 */
module Iptables {
  import opened Results
  import opened Text
  import opened PortExpr
  import opened PortMeaning

  const CHAIN := "V2NODE-HY2"
  const COMMENT := "V2NODE-HY2"

  datatype Rule = Rule(matcher: Matcher, targetPort: nat)

  // ---------- reading a line ----------

  /** Reads the rest of a line, given the open quote and the characters of the current field. */
  function Lex(line: string, quote: Option<char>, field: string): Fields {
    if line == "" then if field == "" then [] else [field]
    else
      var c, rest := line[0], line[1..];
      if quote.Some? then
        if c == quote.value then Lex(rest, None, field) else Lex(rest, quote, field + [c])
      else if c in QUOTES then Lex(rest, Some(c), field)
      else if c == ' ' || c == '\t' then (if field == "" then [] else [field]) + Lex(rest, None, "")
      else Lex(rest, None, field + [c])
  }

  function Tokenise(line: string): Fields { Lex(line, None, "") }

  method ParseIptablesSpec(line: string) returns (fields: Fields)
    ensures fields == Tokenise(line)
  {
    fields := [];
    var builder, quote := "", None;
    assert line[0..] == line;
    for i := 0 to |line|
      invariant fields + Lex(line[i..], quote, builder) == Tokenise(line)
    {
      var c := line[i];
      assert line[i..][0] == c && line[i..][1..] == line[i + 1..];
      if quote.Some? {
        if c == quote.value {
          quote := None;
        } else {
          builder := builder + [c];
        }
      } else if c in QUOTES {
        quote := Some(c);
      } else if c == ' ' || c == '\t' {
        if |builder| > 0 {
          fields := fields + [builder];
          builder := "";
        }
      } else {
        builder := builder + [c];
      }
    }
    assert line[|line|..] == "";
    if |builder| > 0 {
      fields := fields + [builder];
    }
  }

  // ---------- writing a line ----------

  /** A field without blanks, quotes or the separator of the comparison keys. */
  predicate Plain(field: string) {
    field != "" && forall i | 0 <= i < |field| :: field[i] !in SPACES && field[i] !in QUOTES && field[i] != '\0'
  }

  predicate AllPlain(fields: Fields) { forall i | 0 <= i < |fields| :: Plain(fields[i]) }

  /** A field that survives being printed on one line. */
  predicate Printable(field: string) { field != "" && '"' !in field && '\n' !in field }

  predicate AllPrintable(fields: Fields) { forall i | 0 <= i < |fields| :: Printable(fields[i]) }

  function PrintField(field: string): string {
    if Plain(field) then field else ['"'] + field + ['"']
  }

  function PrintFields(fields: Fields): (printed: seq<string>)
    ensures |printed| == |fields| && forall i | 0 <= i < |fields| :: printed[i] == PrintField(fields[i])
  {
    seq(|fields|, i requires 0 <= i < |fields| => PrintField(fields[i]))
  }

  /** How the tool prints a rule: fields separated by blanks, and quoted where necessary. */
  function PrintLine(fields: Fields): string { Join(PrintFields(fields), ' ') }

  lemma {:induction false} LexPlain(field: string, rest: string, before: string)
    requires forall i | 0 <= i < |field| :: field[i] !in SPACES && field[i] !in QUOTES
    ensures Lex(field + rest, None, before) == Lex(rest, None, before + field)
  {
    if field == "" {
      assert field + rest == rest && before + field == before;
    } else {
      LexPlain(field[1..], rest, before + [field[0]]);
      assert (field + rest)[1..] == field[1..] + rest;
      assert before + [field[0]] + field[1..] == before + field;
    }
  }

  lemma {:induction false} LexQuoted(field: string, rest: string, before: string)
    requires '"' !in field
    ensures Lex(field + ['"'] + rest, Some('"'), before) == Lex(rest, None, before + field)
  {
    var line := field + ['"'] + rest;
    if field == "" {
      assert line[1..] == rest && before + field == before;
    } else {
      LexQuoted(field[1..], rest, before + [field[0]]);
      assert line[1..] == field[1..] + ['"'] + rest;
      assert before + [field[0]] + field[1..] == before + field;
    }
  }

  lemma LexField(field: string, rest: string)
    requires Printable(field)
    ensures Lex(PrintField(field) + rest, None, "") == Lex(rest, None, field)
  {
    if Plain(field) {
      LexPlain(field, rest, "");
      assert "" + field == field;
    } else {
      var line := PrintField(field) + rest;
      assert line[1..] == field + ['"'] + rest;
      LexQuoted(field, rest, "");
      assert "" + field == field;
    }
  }

  /** Reading a printed rule gives the rule back. */
  lemma {:induction false} TokenisePrintLine(fields: Fields)
    requires AllPrintable(fields)
    ensures Tokenise(PrintLine(fields)) == fields
  {
    if |fields| == 1 {
      LexField(fields[0], "");
      assert PrintField(fields[0]) + "" == PrintField(fields[0]);
    } else if |fields| > 1 {
      TokenisePrintLine(fields[1..]);
      var tail := PrintLine(fields[1..]);
      assert PrintFields(fields)[1..] == PrintFields(fields[1..]);
      LexField(fields[0], [' '] + tail);
      assert PrintLine(fields) == PrintField(fields[0]) + ([' '] + tail);
      assert ([' '] + tail)[1..] == tail;
    }
  }

  lemma TokenisePlain(fields: Fields)
    requires AllPlain(fields)
    ensures Tokenise(Join(fields, ' ')) == fields
  {
    assert PrintFields(fields) == fields;
    TokenisePrintLine(fields);
  }

  lemma {:induction false} JoinEnds(parts: seq<string>, c: char)
    requires parts != [] && forall i | 0 <= i < |parts| :: parts[i] != ""
    ensures var s := Join(parts, c);
            s != "" && s[0] == parts[0][0] && s[|s| - 1] == parts[|parts| - 1][|parts[|parts| - 1]| - 1]
  {
    if |parts| > 1 {
      JoinEnds(parts[1..], c);
    }
  }

  lemma {:induction false} JoinFree(parts: seq<string>, separator: char, c: char)
    requires Free(parts, c) && c != separator
    ensures c !in Join(parts, separator)
  {
    if |parts| > 1 {
      JoinFree(parts[1..], separator, c);
    }
  }

  /** Nothing of a printed rule is lost by splitting the listing into trimmed lines. */
  lemma PrintLineSurvives(fields: Fields)
    requires fields != [] && AllPrintable(fields)
    ensures TrimSpace(PrintLine(fields)) == PrintLine(fields) && '\n' !in PrintLine(fields)
  {
    var printed := PrintFields(fields);
    forall i | 0 <= i < |fields|
      ensures printed[i] != "" && printed[i][0] !in SPACES && printed[i][|printed[i]| - 1] !in SPACES
              && '\n' !in printed[i]
    {
      assert '"' !in SPACES && '\n' != '"';
    }
    JoinEnds(printed, ' ');
    JoinFree(printed, ' ', '\n');
    TrimIdentity(PrintLine(fields), SPACES);
  }

  // ---------- the rules the node manages ----------

  predicate IsMark(option: string, value: string) {
    (option == "-j" && value == CHAIN) || (option == "--comment" && Trim(value, QUOTES) == COMMENT)
  }

  predicate Marked(fields: Fields) {
    |fields| >= 2 && (IsMark(fields[0], fields[1]) || Marked(fields[1..]))
  }

  predicate Managed(fields: Fields) {
    |fields| >= 4 && fields[0] == "-A" && fields[1] == "PREROUTING" && Marked(fields[2..])
  }

  method IsPortForwardRuleSpec(fields: Fields) returns (managed: bool)
    ensures managed == Managed(fields)
  {
    if |fields| < 4 || fields[0] != "-A" || fields[1] != "PREROUTING" {
      return false;
    }
    for i := 2 to |fields| - 1
      invariant Managed(fields) == Marked(fields[i..])
    {
      assert fields[i..][0] == fields[i] && fields[i..][1] == fields[i + 1] && fields[i..][1..] == fields[i + 1..];
      if fields[i] == "-j" && fields[i + 1] == CHAIN {
        return true;
      }
      if fields[i] == "--comment" && Trim(fields[i + 1], QUOTES) == COMMENT {
        return true;
      }
    }
    return false;
  }

  /** The value is the node's mark, bare or in quotes. */
  predicate MarkText(value: string) {
    exists a, b | 0 <= a <= b <= |value| :: Between(value, {'"', '\''}, a, b) && value[a..b] == "V2NODE-HY2"
  }

  /** The option and its value jump to the node's chain, or are its comment. */
  predicate NodePair(option: string, value: string) {
    (option == "-j" && value == "V2NODE-HY2") || (option == "--comment" && MarkText(value))
  }

  /** By position: some option of the rule and the field after it are such a pair. */
  predicate NodeRule(rule: Fields) {
    && |rule| >= 4 && rule[0] == "-A" && rule[1] == "PREROUTING"
    && exists i | 2 <= i < |rule| - 1 :: NodePair(rule[i], rule[i + 1])
  }

  predicate OtherRule(rule: Fields) { !NodeRule(rule) }

  lemma {:induction false} MarkedSomewhere(fields: Fields)
    ensures Marked(fields) <==> exists i | 0 <= i < |fields| - 1 :: IsMark(fields[i], fields[i + 1])
  {
    hide IsMark;
    if |fields| >= 2 {
      var rest := fields[1..];
      MarkedSomewhere(rest);
      assert forall i | 0 <= i < |rest| :: rest[i] == fields[i + 1];
      if i :| 0 <= i < |fields| - 1 && IsMark(fields[i], fields[i + 1]) {
        assert i > 0 ==> IsMark(rest[i - 1], rest[i]);
      }
      if i :| 0 <= i < |rest| - 1 && IsMark(rest[i], rest[i + 1]) {
        assert IsMark(fields[i + 1], fields[i + 2]);
      }
    }
  }

  lemma MarkMeaning(option: string, value: string)
    ensures IsMark(option, value) <==> NodePair(option, value)
  {
    assert Bare(COMMENT, QUOTES);
    TrimGives(value, QUOTES, COMMENT);
  }

  /** The node's own rules are recognised exactly. */
  lemma ManagedIsNodeRule(rule: Fields)
    ensures Managed(rule) <==> NodeRule(rule)
  {
    hide IsMark, NodePair, Marked;
    if |rule| >= 4 {
      var tail := rule[2..];
      MarkedSomewhere(tail);
      assert forall i | 0 <= i < |tail| :: tail[i] == rule[i + 2];
      forall option, value ensures IsMark(option, value) <==> NodePair(option, value) {
        MarkMeaning(option, value);
      }
      if NodeRule(rule) {
        var i :| 2 <= i < |rule| - 1 && NodePair(rule[i], rule[i + 1]);
        assert IsMark(tail[i - 2], tail[i - 2 + 1]);
      }
      if i :| 0 <= i < |tail| - 1 && IsMark(tail[i], tail[i + 1]) {
        assert rule[i + 2] == tail[i] && rule[i + 3] == tail[i + 1];
      }
    }
  }

  /**
   Only a PREROUTING rule is taken for the node's, and only for a pair of fields of it: a jump to the
   node's chain, or a comment that is its mark, bare or in quotes.
   */
  lemma RuleGoesFor(rule: Fields) returns (i: nat, value: string, a: nat, b: nat)
    requires !OtherRule(rule)
    ensures rule[..2] == ["-A", "PREROUTING"] && 2 <= i < |rule| - 1 && value == rule[i + 1]
    ensures || (rule[i] == "-j" && value == "V2NODE-HY2")
            || (rule[i] == "--comment" && a <= b <= |value| && value[a..b] == "V2NODE-HY2"
                && forall k | 0 <= k < |value| && !(a <= k < b) :: value[k] in {'"', '\''})
    ensures Managed(rule)
  {
    ManagedIsNodeRule(rule);
    i :| 2 <= i < |rule| - 1 && NodePair(rule[i], rule[i + 1]);
    value, a, b := rule[i + 1], 0, 0;
    if rule[i] == "--comment" {
      a, b :| 0 <= a <= b <= |value| && Between(value, {'"', '\''}, a, b) && value[a..b] == "V2NODE-HY2";
    }
  }

  /** Every such rule is. */
  lemma RuleGoes(rule: Fields, i: nat, value: string, a: nat, b: nat)
    requires 2 <= i < |rule| - 1 && rule[0] == "-A" && rule[1] == "PREROUTING" && value == rule[i + 1]
    requires || (rule[i] == "-j" && value == "V2NODE-HY2")
             || (rule[i] == "--comment" && a <= b <= |value| && value[a..b] == "V2NODE-HY2"
                 && forall k | 0 <= k < |value| && !(a <= k < b) :: value[k] in {'"', '\''})
    ensures !OtherRule(rule) && Managed(rule)
  {
    if rule[i] == "--comment" {
      assert Between(value, {'"', '\''}, a, b);
    }
    assert NodePair(rule[i], rule[i + 1]);
    ManagedIsNodeRule(rule);
  }

  // ---------- normal forms ----------

  /** Drops `-m udp` and the quotes around a comment. */
  function NormaliseFrom(fields: Fields, afterComment: bool): Fields {
    if fields == [] then []
    else if fields[0] == "-m" && |fields| > 1 && fields[1] == "udp" then NormaliseFrom(fields[2..], false)
    else
      [if afterComment then Trim(fields[0], QUOTES) else fields[0]]
      + NormaliseFrom(fields[1..], fields[0] == "--comment")
  }

  function Normalise(fields: Fields): Fields { NormaliseFrom(fields, false) }

  function Key(fields: Fields): string { Join(Normalise(fields), '\0') }

  method NormalizePortForwardSpecFields(fields: Fields) returns (out: Fields)
    ensures out == Normalise(fields)
  {
    hide Left, Trim;
    out := [];
    var i := 0;
    LeftAtEnds(fields);
    while i < |fields|
      invariant 0 <= i <= |fields|
      invariant out + Left(fields, i) == Normalise(fields)
    {
      LeftStep(fields, i, out);
      if fields[i] == "-m" && i + 1 < |fields| && fields[i + 1] == "udp" {
        i := i + 2;
        continue;
      }
      var value := fields[i];
      if i > 0 && fields[i - 1] == "--comment" {
        value := Trim(value, QUOTES);
      }
      out := out + [value];
      i := i + 1;
    }
  }

  /** The normal form of what is left from field `i` on. */
  function Left(fields: Fields, i: nat): Fields
    requires i <= |fields|
  {
    NormaliseFrom(fields[i..], i > 0 && fields[i - 1] == "--comment")
  }

  lemma LeftAtEnds(fields: Fields)
    ensures Left(fields, 0) == Normalise(fields) && Left(fields, |fields|) == []
  {
    assert fields[0..] == fields;
  }

  /** One step of the loop: two fields are dropped, or one is kept. */
  lemma LeftStep(fields: Fields, i: nat, out: Fields)
    requires i < |fields|
    ensures if fields[i] == "-m" && i + 1 < |fields| && fields[i + 1] == "udp"
            then out + Left(fields, i) == out + Left(fields, i + 2)
            else
              var value := if i > 0 && fields[i - 1] == "--comment" then Trim(fields[i], QUOTES) else fields[i];
              out + Left(fields, i) == out + [value] + Left(fields, i + 1)
  {
    hide Trim;
    var rest := fields[i..];
    assert rest[1..] == fields[i + 1..];
    assert |rest| > 1 ==> rest[2..] == fields[i + 2..];
  }

  /** A rule as the kernel holds it: the udp match implied by `-p udp` is not stored. */
  predicate Canonical(fields: Fields) {
    forall i | 0 <= i < |fields| - 1 :: !(fields[i] == "-m" && fields[i + 1] == "udp")
  }

  lemma {:induction false} NormaliseIdentity(fields: Fields, afterComment: bool)
    requires Canonical(fields) && AllPlain(fields)
    ensures NormaliseFrom(fields, afterComment) == fields
  {
    if fields != [] {
      TrimIdentity(fields[0], QUOTES);
      NormaliseIdentity(fields[1..], fields[0] == "--comment");
    }
  }

  // ---------- how the tool echoes a rule ----------

  function InsertUdp(fields: Fields, at: nat): Fields
    requires at <= |fields|
  {
    fields[..at] + ["-m", "udp"] + fields[at..]
  }

  /** The added match does not come between an option and its value. */
  predicate CanInsert(fields: Fields, at: nat) {
    2 <= at <= |fields| && fields[at - 1] != "-j" && fields[at - 1] != "--comment"
  }

  /** A listing repeats the fields of a rule, adding at most `-m udp` somewhere after the chain. */
  function Echo(fields: Fields, at: Option<nat>): Fields {
    if at.Some? && CanInsert(fields, at.value) then InsertUdp(fields, at.value) else fields
  }

  /** What the tool makes of the fields it is given. */
  function DropUdp(fields: Fields): Fields {
    if fields == [] then []
    else if fields[0] == "-m" && |fields| > 1 && fields[1] == "udp" then DropUdp(fields[2..])
    else [fields[0]] + DropUdp(fields[1..])
  }

  lemma InsertStep(fields: Fields, at: nat)
    requires 0 < at <= |fields|
    ensures InsertUdp(fields, at) == [fields[0]] + InsertUdp(fields[1..], at - 1)
  {}

  lemma {:induction false} DropIdentity(fields: Fields)
    requires Canonical(fields)
    ensures DropUdp(fields) == fields
  {
    if fields != [] {
      DropIdentity(fields[1..]);
    }
  }

  lemma DropFirst(field: string, rest: Fields)
    ensures field == "-m" && rest != [] && rest[0] == "udp" ==> DropUdp([field] + rest) == DropUdp(rest[1..])
    ensures !(field == "-m" && rest != [] && rest[0] == "udp") ==> DropUdp([field] + rest) == [field] + DropUdp(rest)
  {
    var fields := [field] + rest;
    assert fields[1..] == rest;
    assert |fields| > 1 ==> fields[2..] == rest[1..];
  }

  lemma {:induction false} DropInsert(fields: Fields, at: nat)
    requires Canonical(fields) && at <= |fields|
    ensures DropUdp(InsertUdp(fields, at)) == fields
  {
    hide DropUdp;
    if at == 0 {
      assert InsertUdp(fields, 0) == ["-m"] + (["udp"] + fields) && (["udp"] + fields)[1..] == fields;
      DropFirst("-m", ["udp"] + fields);
      DropIdentity(fields);
    } else {
      var rest := InsertUdp(fields[1..], at - 1);
      InsertStep(fields, at);
      DropInsert(fields[1..], at - 1);
      DropFirst(fields[0], rest);
      assert rest[0] == if at == 1 then "-m" else fields[1];
      assert [fields[0]] + fields[1..] == fields;
    }
  }

  lemma {:induction false} NormaliseInsert(fields: Fields, at: nat, afterComment: bool)
    requires Canonical(fields) && at <= |fields|
    requires if at == 0 then !afterComment else fields[at - 1] != "--comment"
    ensures NormaliseFrom(InsertUdp(fields, at), afterComment) == NormaliseFrom(fields, afterComment)
  {
    var inserted := InsertUdp(fields, at);
    if at == 0 {
      assert inserted[2..] == fields;
    } else {
      InsertStep(fields, at);
      NormaliseInsert(fields[1..], at - 1, fields[0] == "--comment");
    }
  }

  lemma {:induction false} MarkedInsert(fields: Fields, at: nat)
    requires at <= |fields|
    requires at > 0 ==> fields[at - 1] != "-j" && fields[at - 1] != "--comment"
    ensures Marked(InsertUdp(fields, at)) == Marked(fields)
  {
    var inserted := InsertUdp(fields, at);
    if at == 0 {
      assert inserted[1..] == ["udp"] + fields && inserted[1..][1..] == fields;
    } else {
      InsertStep(fields, at);
      MarkedInsert(fields[1..], at - 1);
      assert inserted[1..] == InsertUdp(fields[1..], at - 1);
    }
  }

  predicate PreroutingRule(fields: Fields) {
    |fields| >= 2 && fields[0] == "-A" && fields[1] == "PREROUTING" && Canonical(fields)
  }

  lemma ManagedInsert(fields: Fields, at: nat)
    requires PreroutingRule(fields) && CanInsert(fields, at)
    ensures Managed(InsertUdp(fields, at)) == Managed(fields)
  {
    var tail := fields[2..];
    assert at > 2 ==> tail[at - 3] == fields[at - 1];
    MarkedInsert(tail, at - 2);
    assert InsertUdp(fields, at)[2..] == InsertUdp(tail, at - 2);
    if |tail| == 1 {
      assert tail[1..] == [];
      assert !Marked(tail);
    }
  }

  /** Reading an echoed rule back changes neither who manages it nor what it is compared with. */
  lemma EchoFaithful(fields: Fields, at: Option<nat>)
    requires PreroutingRule(fields)
    ensures var e := Echo(fields, at);
            DropUdp(e) == fields && Normalise(e) == Normalise(fields) && Managed(e) == Managed(fields)
  {
    hide Marked, DropUdp, NormaliseFrom, InsertUdp;
    if at.Some? && CanInsert(fields, at.value) {
      DropInsert(fields, at.value);
      NormaliseInsert(fields, at.value, false);
      ManagedInsert(fields, at.value);
    } else {
      DropIdentity(fields);
    }
  }

  lemma EchoText(fields: Fields, at: Option<nat>)
    requires PreroutingRule(fields)
    ensures AllPrintable(fields) ==> AllPrintable(Echo(fields, at))
    ensures |Echo(fields, at)| >= 2 && Echo(fields, at)[..2] == fields[..2]
  {
    assert Printable("-m") && Printable("udp");
  }

  // ---------- the rules the node writes ----------

  function RuleSpec(rule: Rule): Fields {
    ["-A", "PREROUTING", "-p", "udp"] + rule.matcher.args
    + ["-m", "comment", "--comment", COMMENT] + ["-j", "REDIRECT", "--to-ports", Itoa(rule.targetPort)]
  }

  function RuleSpecs(rules: seq<Rule>): (specs: seq<Fields>)
    ensures |specs| == |rules| && forall i | 0 <= i < |rules| :: specs[i] == RuleSpec(rules[i])
  {
    seq(|rules|, i requires 0 <= i < |rules| => RuleSpec(rules[i]))
  }

  /** Where a redirecting rule sends a packet. */
  function Target(fields: Fields): Option<int> {
    match Lookup(fields, "--to-ports")
    case Some(port) => if Lookup(fields, "-j") == Some("REDIRECT") then Atoi(port) else None
    case None => None
  }

  /** First-match semantics of a list of rules: where a UDP packet for a port is sent. */
  function FirstMatch(specs: seq<Fields>, port: int): Option<int> {
    if specs == [] then None
    else if HasPort(specs[0], port) then Target(specs[0])
    else FirstMatch(specs[1..], port)
  }

  predicate ValidRule(rule: Rule) { Shaped(rule.matcher.args) && rule.targetPort <= MAX_PORT }

  predicate ValidRules(rules: seq<Rule>) { forall i | 0 <= i < |rules| :: ValidRule(rules[i]) }

  lemma PlainNumeric(text: string)
    requires Numeric(text)
    ensures Plain(text)
  {
    forall i | 0 <= i < |text| ensures text[i] !in SPACES && text[i] !in QUOTES && text[i] != '\0' {}
  }

  lemma PlainWords()
    ensures AllPlain(["-A", "PREROUTING", "-p", "udp"])
    ensures AllPlain(["-m", "comment", "--comment", COMMENT])
    ensures AllPlain(["-j", "REDIRECT", "--to-ports"])
    ensures AllPlain(["--dport", "--dports", "multiport"])
  {
    GraphicPlain("-A"); GraphicPlain("PREROUTING"); GraphicPlain("-p"); GraphicPlain("udp");
    GraphicPlain("-m"); GraphicPlain("comment"); GraphicPlain("--comment"); GraphicPlain(COMMENT);
    GraphicPlain("-j"); GraphicPlain("REDIRECT"); GraphicPlain("--to-ports");
    GraphicPlain("--dport"); GraphicPlain("--dports"); GraphicPlain("multiport");
    hide Plain;
  }

  lemma GraphicPlain(word: string)
    requires word != "" && forall i | 0 <= i < |word| :: '-' <= word[i] <= 'z'
    ensures Plain(word)
  {
    forall i | 0 <= i < |word| ensures word[i] !in SPACES && word[i] !in QUOTES && word[i] != '\0' {}
  }

  lemma ArgsPlain(args: Fields)
    requires Shaped(args)
    ensures AllPlain(args) && Canonical(args) && args[|args| - 1] != "udp"
  {
    PlainWords();
    assert Plain(["-m", "comment", "--comment", COMMENT][0]);
    var words := ["--dport", "--dports", "multiport"];
    assert Plain(words[0]) && Plain(words[1]) && Plain(words[2]);
    PlainNumeric(args[|args| - 1]);
    assert args[|args| - 1][0] != 'u';
  }

  lemma RuleSpecText(rule: Rule)
    requires ValidRule(rule)
    ensures PreroutingRule(RuleSpec(rule)) && AllPlain(RuleSpec(rule))
    ensures Normalise(RuleSpec(rule)) == RuleSpec(rule) && DropUdp(RuleSpec(rule)) == RuleSpec(rule)
  {
    var args, spec, port := rule.matcher.args, RuleSpec(rule), Itoa(rule.targetPort);
    hide Itoa, Plain, Numeric;
    PlainWords();
    ArgsPlain(args);
    assert Plain(port) by { PlainPort(rule.targetPort); }
    assert spec == ["-A", "PREROUTING", "-p", "udp"] + args
                   + ["-m", "comment", "--comment", COMMENT] + ["-j", "REDIRECT", "--to-ports"] + [port];
    assert Canonical(spec) && AllPlain(spec);
    NormaliseIdentity(spec, false);
    DropIdentity(spec);
  }

  lemma PlainPort(port: nat)
    ensures Plain(Itoa(port))
  {
    PlainNumeric(Itoa(port));
  }

  lemma PlainIsPrintable(fields: Fields)
    requires AllPlain(fields)
    ensures AllPrintable(fields)
  {
    forall i | 0 <= i < |fields| ensures Printable(fields[i]) {
      assert '"' in QUOTES && '\n' in SPACES;
    }
  }

  lemma NoOption(args: Fields, option: string)
    requires Shaped(args) && option != "" && option[0] == '-'
    requires option != "-m" && option != args[0] && option != "--dports"
    ensures option !in args
  {
    assert args[|args| - 1][0] != '-';
  }

  lemma RuleSpecManaged(rule: Rule)
    ensures Managed(RuleSpec(rule))
  {
    var tail := RuleSpec(rule)[2..];
    var n := |rule.matcher.args|;
    MarkedAt(tail, n + 4);
  }

  lemma {:induction false} MarkedAt(fields: Fields, i: nat)
    requires i + 1 < |fields| && IsMark(fields[i], fields[i + 1])
    ensures Marked(fields)
  {
    if i > 0 {
      MarkedAt(fields[1..], i - 1);
    }
  }

  /** A written rule redirects exactly the ports of its matcher, to its target. */
  lemma RuleSpecMeaning(rule: Rule, port: int)
    requires ValidRule(rule)
    ensures HasPort(RuleSpec(rule), port) <==> HasPort(rule.matcher.args, port)
    ensures Target(RuleSpec(rule)) == Some(rule.targetPort)
  {
    hide PortTextHas, PortListHas;
    var args := rule.matcher.args;
    var head, comment := ["-A", "PREROUTING"], ["-m", "comment", "--comment", COMMENT];
    var jump := ["-j", "REDIRECT", "--to-ports", Itoa(rule.targetPort)];
    var tail := comment + jump;
    var spec := RuleSpec(rule);
    assert spec == head + (["-p", "udp"] + (args + tail));
    assert spec == (head + ["-p", "udp"] + args + comment) + jump;
    AtoiItoa(rule.targetPort);
    LookupSkips(head, ["-p", "udp"] + (args + tail), "-p");
    var before := head + ["-p", "udp"] + args + comment;
    NoOption(args, "-j");
    NoOption(args, "--to-ports");
    NoOption(args, "-p");
    LookupSkips(before, jump, "-j");
    LookupSkips(before, jump, "--to-ports");
    LookupSkips(["-j", "REDIRECT"], ["--to-ports", Itoa(rule.targetPort)], "--to-ports");
    assert jump == ["-j", "REDIRECT"] + ["--to-ports", Itoa(rule.targetPort)];
    LookupPorts(rule, "--dport");
    LookupPorts(rule, "--dports");
    LookupSkips(args, [], "-p");
    assert args + [] == args;
  }

  lemma LookupPorts(rule: Rule, option: string)
    requires ValidRule(rule) && (option == "--dport" || option == "--dports")
    ensures Lookup(RuleSpec(rule), option) == Lookup(rule.matcher.args, option)
  {
    var args := rule.matcher.args;
    var head := ["-A", "PREROUTING", "-p", "udp"];
    var tail := ["-m", "comment", "--comment", COMMENT] + ["-j", "REDIRECT", "--to-ports", Itoa(rule.targetPort)];
    assert RuleSpec(rule) == head + (args + tail);
    LookupSkips(head, args + tail, option);
    assert args[|args| - 1][0] != '-';
    if option !in args {
      LookupSkips(args, tail, option);
      LookupSkips(tail, [], option);
      LookupSkips(args, [], option);
      assert tail + [] == tail && args + [] == args;
    } else if |args| == 4 {
      var list := ["--dports", args[3]];
      assert args == ["-m", "multiport"] + list;
      LookupSkips(["-m", "multiport"], list, option);
      LookupSkips(["-m", "multiport"], list + tail, option);
      assert args + tail == ["-m", "multiport"] + (list + tail);
    }
  }
}
