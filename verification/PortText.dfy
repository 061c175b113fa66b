/**
 What the text of a port expression means, said without the parser: an expression written from
 numbers and spans of numbers compiles to exactly the ports that these list.
 */
module PortText {
  import opened Results
  import opened Text
  import opened PortExpr
  import opened PortMeaning

  /** What can be written between two commas: a number, two numbers with `-` or `:` between them, or nothing. */
  datatype Piece = One(port: nat) | Span(first: nat, last: nat, colon: bool) | Nothing {
    function Written(): string {
      match this
      case One(port) => Itoa(port)
      case Span(first, last, colon) => Itoa(first) + [if colon then ':' else '-'] + Itoa(last)
      case Nothing => ""
    }

    predicate Valid() {
      match this
      case One(port) => 1 <= port <= 65535
      case Span(first, last, _) => 1 <= first <= last <= 65535
      case Nothing => false
    }

    predicate Lists(port: int) {
      match this
      case One(p) => port == p
      case Span(first, last, _) => first <= port <= last
      case Nothing => false
    }
  }

  function Written(pieces: seq<Piece>): (texts: seq<string>)
    ensures |texts| == |pieces| && forall i | 0 <= i < |pieces| :: texts[i] == pieces[i].Written()
  {
    seq(|pieces|, i requires 0 <= i < |pieces| => pieces[i].Written())
  }

  predicate AllValid(pieces: seq<Piece>) { forall i | 0 <= i < |pieces| :: pieces[i].Valid() }

  predicate SomeLists(pieces: seq<Piece>, port: int) { exists i | 0 <= i < |pieces| :: pieces[i].Lists(port) }

  // ---------- one piece ----------

  lemma NumberParses(n: nat)
    ensures ParsePortNumber(Itoa(n)).Success? <==> 1 <= n <= 65535
    ensures 1 <= n <= 65535 ==> ParsePortNumber(Itoa(n)) == Success(n)
  {
    if n <= MAX_INT64 {
      AtoiItoa(n);
    } else {
      assert IsDigit(Itoa(n)[0]);
      assert Atoi(Itoa(n)).None?;
    }
  }

  lemma {:induction false} SplitAtFirst(part: string, c: char, rest: string, separators: set<char>)
    requires (forall i | 0 <= i < |part| :: part[i] !in separators) && c in separators
    ensures SplitBy(part, separators) == [part]
    ensures SplitBy(part + [c] + rest, separators) == [part] + SplitBy(rest, separators)
  {
    if part == "" {
      assert part + [c] + rest == [c] + rest;
      assert ([c] + rest)[1..] == rest;
    } else {
      SplitAtFirst(part[1..], c, rest, separators);
      assert (part + [c] + rest)[1..] == part[1..] + [c] + rest;
      assert [part[0]] + part[1..] == part;
    }
  }

  lemma SpanParses(first: nat, last: nat, c: char)
    requires c == '-' || c == ':'
    ensures ParsePortRange(Itoa(first) + [c] + Itoa(last)).Success? <==> 1 <= first <= last <= 65535
    ensures 1 <= first <= last <= 65535 ==>
              ParsePortRange(Itoa(first) + [c] + Itoa(last)) == Success(Range(first, last))
  {
    var a, b := Itoa(first), Itoa(last);
    assert forall i | 0 <= i < |a| :: IsDigit(a[i]);
    assert forall i | 0 <= i < |b| :: IsDigit(b[i]);
    SplitAtFirst(a, c, b, {'-', ':'});
    SplitAtFirst(b, c, "", {'-', ':'});
    assert NonEmpty([a, b]) == [a, b] by {
      assert [a, b][1..] == [b] && [b][1..] == [] && NonEmpty([b]) == [b];
    }
    hide Itoa, ParsePortNumber;
    NumberParses(first);
    NumberParses(last);
  }

  /** A piece is accepted exactly when it is valid, and then it means the ports it lists. */
  lemma PieceParses(piece: Piece, port: int)
    ensures ParseToken(piece.Written()).Success? <==> piece.Valid()
    ensures piece.Valid() ==> (ParseToken(piece.Written()).value.Contains(port) <==> piece.Lists(port))
  {
    match piece
    case One(n) =>
      NumberParses(n);
      assert forall i | 0 <= i < |Itoa(n)| :: IsDigit(Itoa(n)[i]);
    case Span(first, last, colon) =>
      var c := if colon then ':' else '-';
      SpanParses(first, last, c);
      assert piece.Written()[|Itoa(first)|] == c;
    case Nothing =>
  }

  // ---------- blanks ----------

  lemma {:induction false} WithoutAppend(a: string, b: string, c: char)
    ensures Without(a + b, c) == Without(a, c) + Without(b, c)
  {
    if a == "" {
      assert a + b == b;
    } else {
      WithoutAppend(a[1..], b, c);
      assert (a + b)[0] == a[0] && (a + b)[1..] == a[1..] + b;
      var first := if a[0] == c then "" else [a[0]];
      assert first + (Without(a[1..], c) + Without(b, c)) == first + Without(a[1..], c) + Without(b, c);
    }
  }

  predicate OnlyBlanks(s: string) { forall i | 0 <= i < |s| :: s[i] in SPACES ==> s[i] == ' ' }

  lemma {:induction false} WithoutLeft(s: string)
    requires OnlyBlanks(s)
    ensures Without(TrimLeft(s, SPACES), ' ') == Without(s, ' ') && OnlyBlanks(TrimLeft(s, SPACES))
  {
    if s != "" && s[0] in SPACES {
      WithoutLeft(s[1..]);
    }
  }

  lemma {:induction false} WithoutRight(s: string)
    requires OnlyBlanks(s)
    ensures Without(TrimRight(s, SPACES), ' ') == Without(s, ' ')
  {
    var n := |s| - 1;
    if s != "" && s[n] in SPACES {
      WithoutRight(s[..n]);
      WithoutAppend(s[..n], [s[n]], ' ');
      assert s == s[..n] + [s[n]];
      assert Without([' '], ' ') == "";
    }
  }

  lemma {:induction false} WithoutKeeps(s: string, c: char, i: nat)
    requires i < |s| && s[i] != c
    ensures s[i] in Without(s, c)
  {
    if i > 0 {
      WithoutKeeps(s[1..], c, i - 1);
    }
  }

  predicate PortChar(c: char) { IsDigit(c) || c == '-' || c == ':' || c == ',' }

  lemma {:induction false} JoinChars(texts: seq<string>)
    requires forall i | 0 <= i < |texts| :: forall k | 0 <= k < |texts[i]| :: PortChar(texts[i][k])
    ensures forall k | 0 <= k < |Join(texts, ',')| :: PortChar(Join(texts, ',')[k])
  {
    if |texts| > 1 {
      JoinChars(texts[1..]);
    }
  }

  lemma PieceChars(piece: Piece)
    ensures forall k | 0 <= k < |piece.Written()| :: PortChar(piece.Written()[k])
    ensures ',' !in piece.Written()
  {}

  /** Blanks anywhere in an expression do not matter. */
  lemma CleanedText(raw: string, pieces: seq<Piece>)
    requires Without(raw, ' ') == Join(Written(pieces), ',')
    ensures Cleaned(raw) == Join(Written(pieces), ',')
  {
    hide PortChar;
    var texts := Written(pieces);
    forall i | 0 <= i < |texts| ensures forall k | 0 <= k < |texts[i]| :: PortChar(texts[i][k]) {
      PieceChars(pieces[i]);
    }
    JoinChars(texts);
    forall i | 0 <= i < |raw| && raw[i] != ' ' ensures raw[i] !in SPACES {
      WithoutKeeps(raw, ' ', i);
      PortCharsArePlain(raw[i]);
    }
    WithoutLeft(raw);
    WithoutRight(TrimLeft(raw, SPACES));
  }

  lemma PortCharsArePlain(c: char)
    requires PortChar(c)
    ensures c !in SPACES
  {}

  // ---------- expressions ----------

  /**
   An expression, written from pieces with commas between them and blanks anywhere, is accepted
   exactly when all its pieces are valid. Then its matchers and its ranges have exactly the ports that
   some piece lists, without the excluded one.
   */
  lemma ExpressionMeaning(raw: string, pieces: seq<Piece>, excluded: int, port: int)
    requires pieces != [] && Without(raw, ' ') == Join(Written(pieces), ',')
    ensures Compile(raw, excluded).Success? <==> AllValid(pieces)
    ensures AllValid(pieces) ==>
              var c := Compile(raw, excluded).value;
              && (SomeMatcherHas(c.matchers, port) <==> SomeLists(pieces, port) && port != excluded)
              && (SomeRangeHas(c.ranges, port) <==> SomeLists(pieces, port) && port != excluded)
    ensures WellFormed(raw) <==> AllValid(pieces)
    ensures AllValid(pieces) ==> (Declares(raw, port) <==> SomeLists(pieces, port))
  {
    hide HasPort, Compile, ParseToken, Without, TrimSpace, Join, SplitBy;
    var texts := Written(pieces);
    CleanedText(raw, pieces);
    forall i | 0 <= i < |texts| ensures ',' !in texts[i] {
      PieceChars(pieces[i]);
    }
    SplitJoin(texts, ',');
    forall i | 0 <= i < |pieces|
      ensures ParseToken(texts[i]).Success? <==> pieces[i].Valid()
      ensures pieces[i].Valid() ==> (ParseToken(texts[i]).value.Contains(port) <==> pieces[i].Lists(port))
    {
      PieceParses(pieces[i], port);
    }
    assert Cleaned(raw) == "" ==> !AllValid(pieces) by {
      EmptyText(pieces);
    }
    CompileMeaning(raw, excluded, port);
  }

  lemma EmptyText(pieces: seq<Piece>)
    requires pieces != []
    ensures Join(Written(pieces), ',') == "" ==> !AllValid(pieces)
  {
    assert pieces[0].Valid() ==> pieces[0].Written() != "";
  }
}
