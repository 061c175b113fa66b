/**
 Port expressions such as `440-445,30000` and the iptables matchers they compile to.

 The functions say what each expression compiles to; the methods run the loops that compute it.
 What the compiled text means is given separately, by `HasPort` on the fields of a rule.
 */
module PortExpr {
  import opened Results
  import opened Text

  const MAX_PORT := 65535
  const CHUNK := 15

  type Fields = seq<string>

  datatype Range = Range(start: int, end: int) {
    predicate Contains(port: int) { start <= port <= end }
    predicate Overlaps(other: Range) { start <= other.end && other.start <= end }
  }

  datatype Matcher = Matcher(args: Fields, singlePort: int)

  datatype Compiled = Compiled(matchers: seq<Matcher>, ranges: seq<Range>)

  datatype PortError =
    EmptyExpression | EmptyToken | InvalidRange | EmptyPort | InvalidPort | PortOutOfRange | ReversedRange

  // ---------- parsing ----------

  function ParsePortNumber(token: string): (r: Result<int, PortError>)
    ensures r.Success? ==> 1 <= r.value <= MAX_PORT
  {
    if token == "" then Failure(EmptyPort)
    else
      match Atoi(token)
      case None => Failure(InvalidPort)
      case Some(port) => if port <= 0 || port > MAX_PORT then Failure(PortOutOfRange) else Success(port)
  }

  function ParsePortRange(token: string): (r: Result<Range, PortError>)
    ensures r.Success? ==> 1 <= r.value.start <= r.value.end <= MAX_PORT
  {
    var parts := NonEmpty(SplitBy(token, {'-', ':'}));
    if |parts| != 2 then Failure(InvalidRange)
    else
      match ParsePortNumber(parts[0])
      case Failure(e) => Failure(e)
      case Success(start) =>
        match ParsePortNumber(parts[1])
        case Failure(e) => Failure(e)
        case Success(end) => if start > end then Failure(ReversedRange) else Success(Range(start, end))
  }

  function ParseToken(token: string): (r: Result<Range, PortError>)
    ensures r.Success? ==> 1 <= r.value.start <= r.value.end <= MAX_PORT
  {
    if token == "" then Failure(EmptyToken)
    else if '-' in token || ':' in token then ParsePortRange(token)
    else
      match ParsePortNumber(token)
      case Failure(e) => Failure(e)
      case Success(port) => Success(Range(port, port))
  }

  function Cleaned(raw: string): string { Without(TrimSpace(raw), ' ') }

  function Tokens(raw: string): seq<string> { Split(Cleaned(raw), ',') }

  /** Every token of the expression is a port or a range of ports. */
  predicate WellFormed(raw: string) {
    Cleaned(raw) != "" && forall i | 0 <= i < |Tokens(raw)| :: ParseToken(Tokens(raw)[i]).Success?
  }

  predicate TokensDeclare(tokens: seq<string>, port: int) {
    exists i | 0 <= i < |tokens| ::
      ParseToken(tokens[i]).Success? && ParseToken(tokens[i]).value.Contains(port)
  }

  /** The meaning of an expression: the ports that some token of it lists. */
  predicate Declares(raw: string, port: int) { TokensDeclare(Tokens(raw), port) }

  // ---------- compilation ----------

  function SpanMatcher(r: Range): Matcher
    requires 0 <= r.start && 0 <= r.end
  {
    Matcher(["--dport", Itoa(r.start) + [':'] + Itoa(r.end)], 0)
  }

  function ChunkMatcher(ports: seq<nat>): Matcher
    requires ports != []
  {
    if |ports| == 1 then Matcher(["--dport", Itoa(ports[0])], ports[0])
    else Matcher(["-m", "multiport", "--dports", Join(Texts(ports), ',')], 0)
  }

  function Texts(ports: seq<nat>): (texts: seq<string>)
    ensures |texts| == |ports| && forall i | 0 <= i < |ports| :: texts[i] == Itoa(ports[i])
  {
    seq(|ports|, i requires 0 <= i < |ports| => Itoa(ports[i]))
  }

  function FlushSingles(ports: seq<nat>): seq<Matcher> {
    if ports == [] then []
    else
      var n := if |ports| > CHUNK then CHUNK else |ports|;
      [ChunkMatcher(ports[..n])] + FlushSingles(ports[n..])
  }

  /** What is left of a range when the excluded port is cut out of it. */
  function CutOut(r: Range, excluded: int): seq<Range> {
    if excluded > 0 && r.Contains(excluded) then
      (if r.start <= excluded - 1 then [Range(r.start, excluded - 1)] else []) +
      (if excluded + 1 <= r.end then [Range(excluded + 1, r.end)] else [])
    else [r]
  }

  function SpanMatchers(rs: seq<Range>): (ms: seq<Matcher>)
    requires forall r <- rs :: 0 <= r.start && 0 <= r.end
    ensures |ms| == |rs|
  {
    if rs == [] then [] else [SpanMatcher(rs[0])] + SpanMatchers(rs[1..])
  }

  function Prepend(ms: seq<Matcher>, rs: seq<Range>, rest: Result<Compiled, PortError>): Result<Compiled, PortError> {
    match rest
    case Failure(e) => Failure(e)
    case Success(c) => Success(Compiled(ms + c.matchers, rs + c.ranges))
  }

  /** Compiles the remaining tokens, `singles` being the ports that wait to be written in chunks. */
  function CompileTokens(tokens: seq<string>, excluded: int, singles: seq<nat>): Result<Compiled, PortError> {
    if tokens == [] then Success(Compiled(FlushSingles(singles), []))
    else
      match ParseToken(tokens[0])
      case Failure(e) => Failure(e)
      case Success(r) =>
        if r.start == r.end then
          if r.start == excluded then CompileTokens(tokens[1..], excluded, singles)
          else Prepend([], [r], CompileTokens(tokens[1..], excluded, singles + [r.start]))
        else
          var pieces := CutOut(r, excluded);
          Prepend(FlushSingles(singles) + SpanMatchers(pieces), pieces, CompileTokens(tokens[1..], excluded, []))
  }

  function Compile(raw: string, excluded: int): Result<Compiled, PortError> {
    if Cleaned(raw) == "" then Failure(EmptyExpression)
    else CompileTokens(Tokens(raw), excluded, [])
  }

  lemma PrependTwice(ms: seq<Matcher>, rs: seq<Range>, ms': seq<Matcher>, rs': seq<Range>,
                     rest: Result<Compiled, PortError>)
    ensures Prepend(ms, rs, Prepend(ms', rs', rest)) == Prepend(ms + ms', rs + rs', rest)
    ensures Prepend([], [], rest) == rest
  {
    if rest.Success? {
      var c := rest.value;
      assert ms + (ms' + c.matchers) == ms + ms' + c.matchers && rs + (rs' + c.ranges) == rs + rs' + c.ranges;
      assert [] + c.matchers == c.matchers && [] + c.ranges == c.ranges;
    }
  }

  method Flush(singles: seq<nat>) returns (matchers: seq<Matcher>)
    ensures matchers == FlushSingles(singles)
  {
    matchers := [];
    var rest := singles;
    while |rest| > 0
      invariant matchers + FlushSingles(rest) == FlushSingles(singles)
    {
      var chunkSize := |rest|;
      if chunkSize > CHUNK {
        chunkSize := CHUNK;
      }
      matchers := matchers + [ChunkMatcher(rest[..chunkSize])];
      rest := rest[chunkSize..];
    }
  }

  method ParsePortForwardMatchersAndRangesExcept(raw: string, excluded: int)
    returns (r: Result<Compiled, PortError>)
    ensures r == Compile(raw, excluded)
  {
    hide ParseToken;
    var cleaned := Without(TrimSpace(raw), ' ');
    if cleaned == "" {
      return Failure(EmptyExpression);
    }
    var tokens := Split(cleaned, ',');
    var matchers: seq<Matcher>, ranges: seq<Range>, singles: seq<nat> := [], [], [];
    assert tokens[0..] == tokens;
    PrependTwice([], [], [], [], CompileTokens(tokens, excluded, []));
    for i := 0 to |tokens|
      invariant Prepend(matchers, ranges, CompileTokens(tokens[i..], excluded, singles)) == Compile(raw, excluded)
    {
      var token := tokens[i];
      assert tokens[i..][0] == token && tokens[i..][1..] == tokens[i + 1..];
      var parsed := ParseToken(token);
      if parsed.Failure? {
        return Failure(parsed.error);
      }
      var start, end := parsed.value.start, parsed.value.end;
      if start == end {
        if start != excluded {
          singles := singles + [start];
          PrependTwice(matchers, ranges, [], [Range(start, start)], CompileTokens(tokens[i + 1..], excluded, singles));
          ranges := ranges + [Range(start, start)];
          assert matchers + [] == matchers;
        }
      } else {
        var flushed := Flush(singles);
        var pieces := CutOut(Range(start, end), excluded);
        PrependTwice(matchers, ranges, flushed + SpanMatchers(pieces), pieces,
                     CompileTokens(tokens[i + 1..], excluded, []));
        assert matchers + (flushed + SpanMatchers(pieces)) == matchers + flushed + SpanMatchers(pieces);
        matchers, singles := matchers + flushed, [];
        ranges := ranges + pieces;
        matchers := matchers + SpanMatchers(pieces);
      }
    }
    var flushed := Flush(singles);
    matchers := matchers + flushed;
    assert tokens[|tokens|..] == [] && ranges + [] == ranges;
    return Success(Compiled(matchers, ranges));
  }

  // ---------- what a rule's text means ----------

  /** The value that follows the first occurrence of an option. */
  function Lookup(fields: Fields, option: string): Option<string> {
    if |fields| < 2 then None
    else if fields[0] == option then Some(fields[1])
    else Lookup(fields[1..], option)
  }

  /** `443` or `440:442`, read as iptables reads a port argument. */
  predicate PortTextHas(text: string, port: int) {
    var ends := Split(text, ':');
    if |ends| == 1 then Atoi(ends[0]) == Some(port)
    else
      |ends| == 2 &&
      match (Atoi(ends[0]), Atoi(ends[1]))
      case (Some(lo), Some(hi)) => lo <= port <= hi
      case _ => false
  }

  predicate PortListHas(text: string, port: int) {
    var items := Split(text, ',');
    exists i | 0 <= i < |items| :: PortTextHas(items[i], port)
  }

  /** A UDP packet for this port passes every port condition of the rule. */
  predicate HasPort(fields: Fields, port: int) {
    && (Lookup(fields, "-p").Some? ==> Lookup(fields, "-p") == Some("udp"))
    && (Lookup(fields, "--dport").Some? ==> PortTextHas(Lookup(fields, "--dport").value, port))
    && (Lookup(fields, "--dports").Some? ==> PortListHas(Lookup(fields, "--dports").value, port))
  }

  predicate SomeMatcherHas(ms: seq<Matcher>, port: int) {
    exists i | 0 <= i < |ms| :: HasPort(ms[i].args, port)
  }

  predicate SomeRangeHas(rs: seq<Range>, port: int) {
    exists i | 0 <= i < |rs| :: rs[i].Contains(port)
  }
}
