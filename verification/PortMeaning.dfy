/** Compiling a port expression preserves its meaning. */
module PortMeaning {
  import opened Results
  import opened Text
  import opened PortExpr

  // ---------- reading options back ----------

  lemma {:induction false} LookupSkips(a: Fields, b: Fields, option: string)
    requires option !in a
    ensures Lookup(a + b, option) == Lookup(b, option)
  {
    if a == [] {
      assert a + b == b;
    } else {
      LookupSkips(a[1..], b, option);
      assert (a + b)[1..] == a[1..] + b;
      if |a + b| < 2 {
        assert |b| == 0 || |b| == 1;
      }
    }
  }

  lemma PlainNumber(n: nat, c: char)
    requires !IsDigit(c)
    ensures c !in Itoa(n)
  {}

  lemma NumberTextHas(n: nat, port: int)
    requires n <= MAX_PORT
    ensures PortTextHas(Itoa(n), port) <==> port == n
  {
    PlainNumber(n, ':');
    SplitFirst(Itoa(n), "", ':');
    AtoiItoa(n);
  }

  lemma SpanTextHas(lo: nat, hi: nat, port: int)
    requires lo <= MAX_PORT && hi <= MAX_PORT
    ensures PortTextHas(Itoa(lo) + [':'] + Itoa(hi), port) <==> lo <= port <= hi
  {
    PlainNumber(lo, ':');
    PlainNumber(hi, ':');
    SplitFirst(Itoa(lo), Itoa(hi), ':');
    SplitFirst(Itoa(hi), "", ':');
    AtoiItoa(lo);
    AtoiItoa(hi);
  }

  // ---------- the shape of compiled matchers ----------

  predicate Numeric(text: string) {
    text != "" && forall i | 0 <= i < |text| :: IsDigit(text[i]) || text[i] == ':' || text[i] == ','
  }

  /** The two forms of a compiled matcher; a multiport list holds 2 to 15 ports. */
  predicate Shaped(args: Fields) {
    || (|args| == 2 && args[0] == "--dport" && Numeric(args[1]))
    || (|args| == 4 && args[..3] == ["-m", "multiport", "--dports"] && Numeric(args[3])
        && 2 <= |Split(args[3], ',')| <= 15)
  }

  predicate AllShaped(ms: seq<Matcher>) { forall i | 0 <= i < |ms| :: Shaped(ms[i].args) }

  predicate ValidPorts(ports: seq<nat>) { forall i | 0 <= i < |ports| :: ports[i] <= MAX_PORT }

  predicate ValidRange(r: Range) { 1 <= r.start <= r.end <= MAX_PORT }

  predicate ValidRanges(rs: seq<Range>) { forall i | 0 <= i < |rs| :: ValidRange(rs[i]) }

  lemma {:induction false} JoinNumeric(texts: seq<string>)
    requires texts != [] && forall i | 0 <= i < |texts| :: Numeric(texts[i])
    ensures Numeric(Join(texts, ','))
  {
    if |texts| > 1 {
      JoinNumeric(texts[1..]);
    }
  }

  // ---------- one matcher ----------

  lemma SpanMatcherHas(r: Range, port: int)
    requires ValidRange(r)
    ensures HasPort(SpanMatcher(r).args, port) <==> r.Contains(port)
    ensures Shaped(SpanMatcher(r).args)
  {
    SpanTextHas(r.start, r.end, port);
    var args := SpanMatcher(r).args;
    assert Lookup(args, "--dport") == Some(args[1]);
    assert Lookup(args[1..], "-p").None? && Lookup(args[1..], "--dports").None?;
  }

  lemma ChunkMatcherHas(ports: seq<nat>, port: int)
    requires 0 < |ports| <= CHUNK && ValidPorts(ports)
    ensures HasPort(ChunkMatcher(ports).args, port) <==> port in ports
    ensures Shaped(ChunkMatcher(ports).args)
  {
    var args := ChunkMatcher(ports).args;
    if |ports| == 1 {
      NumberTextHas(ports[0], port);
      assert Lookup(args, "--dport") == Some(args[1]);
      assert Lookup(args[1..], "-p").None? && Lookup(args[1..], "--dports").None?;
    } else {
      var texts := Texts(ports);
      forall i | 0 <= i < |ports| ensures PortTextHas(texts[i], port) <==> port == ports[i] {
        NumberTextHas(ports[i], port);
      }
      forall i | 0 <= i < |ports| ensures ',' !in texts[i] {
        PlainNumber(ports[i], ',');
      }
      SplitJoin(texts, ',');
      JoinNumeric(texts);
      var rest := ["--dports", args[3]];
      assert args == ["-m", "multiport"] + rest;
      LookupSkips(["-m", "multiport"], rest, "--dports");
      LookupSkips(["-m", "multiport"], rest, "--dport");
      LookupSkips(["-m", "multiport"], rest, "-p");
      assert rest[1..] == [args[3]];
      assert PortListHas(args[3], port) <==> port in ports;
    }
  }

  // ---------- lists of matchers and ranges ----------

  lemma SomeMatcherAppend(a: seq<Matcher>, b: seq<Matcher>, port: int)
    ensures SomeMatcherHas(a + b, port) <==> SomeMatcherHas(a, port) || SomeMatcherHas(b, port)
  {
    forall i | 0 <= i < |a| ensures (a + b)[i] == a[i] {}
    forall i | 0 <= i < |b| ensures (a + b)[|a| + i] == b[i] {}
  }

  lemma SomeRangeAppend(a: seq<Range>, b: seq<Range>, port: int)
    ensures SomeRangeHas(a + b, port) <==> SomeRangeHas(a, port) || SomeRangeHas(b, port)
  {
    forall i | 0 <= i < |a| ensures (a + b)[i] == a[i] {}
    forall i | 0 <= i < |b| ensures (a + b)[|a| + i] == b[i] {}
  }

  lemma {:induction false} FlushHas(ports: seq<nat>, port: int)
    requires ValidPorts(ports)
    ensures SomeMatcherHas(FlushSingles(ports), port) <==> port in ports
    ensures AllShaped(FlushSingles(ports))
  {
    hide HasPort;
    if ports != [] {
      var n := if |ports| > CHUNK then CHUNK else |ports|;
      ChunkMatcherHas(ports[..n], port);
      FlushHas(ports[n..], port);
      SomeMatcherAppend([ChunkMatcher(ports[..n])], FlushSingles(ports[n..]), port);
      assert ports == ports[..n] + ports[n..];
      assert [ChunkMatcher(ports[..n])][0] == ChunkMatcher(ports[..n]);
    }
  }

  lemma {:induction false} SpansHave(rs: seq<Range>, port: int)
    requires ValidRanges(rs)
    ensures SomeMatcherHas(SpanMatchers(rs), port) <==> SomeRangeHas(rs, port)
    ensures AllShaped(SpanMatchers(rs))
  {
    hide HasPort;
    if rs != [] {
      SpanMatcherHas(rs[0], port);
      SpansHave(rs[1..], port);
      SomeMatcherAppend([SpanMatcher(rs[0])], SpanMatchers(rs[1..]), port);
      SomeRangeAppend([rs[0]], rs[1..], port);
      assert rs == [rs[0]] + rs[1..];
      assert [rs[0]][0] == rs[0] && [SpanMatcher(rs[0])][0] == SpanMatcher(rs[0]);
    }
  }

  lemma CutOutHas(r: Range, excluded: int, port: int)
    requires ValidRange(r)
    ensures SomeRangeHas(CutOut(r, excluded), port) <==> r.Contains(port) && port != excluded
    ensures ValidRanges(CutOut(r, excluded))
  {
    var pieces := CutOut(r, excluded);
    if excluded > 0 && r.Contains(excluded) {
      var left := if r.start <= excluded - 1 then [Range(r.start, excluded - 1)] else [];
      var right := if excluded + 1 <= r.end then [Range(excluded + 1, r.end)] else [];
      SomeRangeAppend(left, right, port);
      assert left != [] ==> left[0] == Range(r.start, excluded - 1);
      assert right != [] ==> right[0] == Range(excluded + 1, r.end);
    } else {
      assert pieces[0] == r;
    }
  }

  // ---------- whole expressions ----------

  lemma DeclareFirst(tokens: seq<string>, port: int)
    requires tokens != []
    ensures TokensDeclare(tokens, port) <==>
            (ParseToken(tokens[0]).Success? && ParseToken(tokens[0]).value.Contains(port))
                || TokensDeclare(tokens[1..], port)
  {
    var rest := tokens[1..];
    forall i | 1 <= i < |tokens|
      ensures rest[i - 1] == tokens[i] {}
              if i :| 0 <= i < |tokens| && ParseToken(tokens[i]).Success? && ParseToken(tokens[i]).value.Contains(port)
    {
      assert i > 0 ==> rest[i - 1] == tokens[i];
    }
  }

  lemma {:induction false} CompileTokensSucceeds(tokens: seq<string>, excluded: int, singles: seq<nat>)
    ensures CompileTokens(tokens, excluded, singles).Success? <==>
            forall i | 0 <= i < |tokens| :: ParseToken(tokens[i]).Success?
    decreases tokens
  {
    hide ParseToken, CutOut, FlushSingles, SpanMatchers, Itoa;
    if tokens != [] {
      var rest := tokens[1..];
      assert forall i | 1 <= i < |tokens| :: tokens[i] == rest[i - 1];
      var parsed := ParseToken(tokens[0]);
      if parsed.Success? {
        var port := parsed.value.start;
        if port != parsed.value.end {
          CompileTokensSucceeds(rest, excluded, []);
        } else {
          CompileTokensSucceeds(rest, excluded, if port == excluded then singles else singles + [port]);
        }
      }
    }
  }

  lemma {:induction false} CompileTokensMeaning(tokens: seq<string>, excluded: int, singles: seq<nat>, port: int)
    requires ValidPorts(singles)
    ensures var r := CompileTokens(tokens, excluded, singles);
            r.Success? ==>
              && (SomeMatcherHas(r.value.matchers, port) <==>
                  port in singles || (TokensDeclare(tokens, port) && port != excluded))
              && (SomeRangeHas(r.value.ranges, port) <==> TokensDeclare(tokens, port) && port != excluded)
              && AllShaped(r.value.matchers) && ValidRanges(r.value.ranges)
    decreases tokens
  {
    hide HasPort, ParseToken, CutOut, FlushSingles, SpanMatchers, Itoa;
    if tokens == [] {
      FlushHas(singles, port);
    } else {
      DeclareFirst(tokens, port);
      var rest := tokens[1..];
      var parsed := ParseToken(tokens[0]);
      if parsed.Success? {
        var r := parsed.value;
        if r.start == r.end && r.start == excluded {
          CompileTokensMeaning(rest, excluded, singles, port);
        } else if r.start == r.end {
          CompileTokensMeaning(rest, excluded, singles + [r.start], port);
          var tail := CompileTokens(rest, excluded, singles + [r.start]);
          if tail.Success? {
            SomeRangeAppend([r], tail.value.ranges, port);
            assert [r][0] == r;
            assert [] + tail.value.matchers == tail.value.matchers;
          }
        } else {
          var pieces := CutOut(r, excluded);
          CutOutHas(r, excluded, port);
          SpansHave(pieces, port);
          FlushHas(singles, port);
          CompileTokensMeaning(rest, excluded, [], port);
          var tail := CompileTokens(rest, excluded, []);
          if tail.Success? {
            SomeRangeAppend(pieces, tail.value.ranges, port);
            SomeMatcherAppend(FlushSingles(singles), SpanMatchers(pieces), port);
            SomeMatcherAppend(FlushSingles(singles) + SpanMatchers(pieces), tail.value.matchers, port);
          }
        }
      }
    }
  }

  /**
   An expression compiles exactly when it is well formed, and then its matchers, its ranges, and
   the declared ports without the excluded one are the same set of ports.
   */
  lemma CompileMeaning(raw: string, excluded: int, port: int)
    ensures Compile(raw, excluded).Success? <==> WellFormed(raw)
    ensures WellFormed(raw) ==>
              var c := Compile(raw, excluded).value;
              && (SomeMatcherHas(c.matchers, port) <==> Declares(raw, port) && port != excluded)
              && (SomeRangeHas(c.ranges, port) <==> Declares(raw, port) && port != excluded)
              && AllShaped(c.matchers) && ValidRanges(c.ranges)
  {
    hide HasPort;
    CompileTokensSucceeds(Tokens(raw), excluded, []);
    CompileTokensMeaning(Tokens(raw), excluded, [], port);
  }
}
