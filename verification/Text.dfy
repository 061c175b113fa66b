/** The pieces of Go's integers and of its `strings` and `strconv` packages that the node relies on. */
module Text {
  import opened Results

  const MAX_INT64 := 0x7fff_ffff_ffff_ffff

  /** A result of 64-bit arithmetic, wrapped around. */
  function Wrap64(n: int): int { (n + MAX_INT64 + 1) % 0x1_0000_0000_0000_0000 - MAX_INT64 - 1 }

  // ---------- strconv ----------

  predicate IsDigit(c: char) { '0' <= c <= '9' }

  predicate AllDigits(s: string) { forall i | 0 <= i < |s| :: IsDigit(s[i]) }

  function DigitsValue(s: string): int
    requires AllDigits(s)
  {
    if s == "" then 0
    else DigitsValue(s[..|s| - 1]) * 10 + (s[|s| - 1] as int - '0' as int)
  }

  function Itoa(n: nat): (s: string)
    ensures s != "" && AllDigits(s) && DigitsValue(s) == n
  {
    var last := [(n % 10 + '0' as int) as char];
    if n < 10 then
      assert last[..0] == "";
      last
    else
      var s := Itoa(n / 10) + last;
      assert s[..|s| - 1] == Itoa(n / 10);
      s
  }

  /** An optional sign, then decimal digits, within the range of a 64-bit integer. */
  function Atoi(s: string): Option<int> {
    var signed := s != "" && (s[0] == '+' || s[0] == '-');
    var digits := if signed then s[1..] else s;
    if digits == "" || !AllDigits(digits) then None
    else
      var n := if signed && s[0] == '-' then -DigitsValue(digits) else DigitsValue(digits);
      if -MAX_INT64 - 1 <= n <= MAX_INT64 then Some(n) else None
  }

  lemma AtoiItoa(n: nat)
    requires n <= MAX_INT64
    ensures Atoi(Itoa(n)) == Some(n)
  {
    assert IsDigit(Itoa(n)[0]);
  }

  lemma ItoaInjective(m: nat, n: nat)
    requires Itoa(m) == Itoa(n)
    ensures m == n
  {
    assert DigitsValue(Itoa(m)) == DigitsValue(Itoa(n));
  }

  // ---------- strings ----------

  /** The white space of `unicode.IsSpace`. */
  const SPACES := {'\t', '\n', '\U{0B}', '\U{0C}', '\r', ' ', '\U{85}', '\U{A0}', '\U{1680}',
                   '\U{2000}', '\U{2001}', '\U{2002}', '\U{2003}', '\U{2004}', '\U{2005}', '\U{2006}',
                   '\U{2007}', '\U{2008}', '\U{2009}', '\U{200A}', '\U{2028}', '\U{2029}', '\U{202F}',
                   '\U{205F}', '\U{3000}'}

  const QUOTES := {'"', '\''}

  function TrimLeft(s: string, cutset: set<char>): string {
    if s != "" && s[0] in cutset then TrimLeft(s[1..], cutset) else s
  }

  function TrimRight(s: string, cutset: set<char>): string {
    if s != "" && s[|s| - 1] in cutset then TrimRight(s[..|s| - 1], cutset) else s
  }

  function Trim(s: string, cutset: set<char>): string {
    TrimRight(TrimLeft(s, cutset), cutset)
  }

  function TrimSpace(s: string): string { Trim(s, SPACES) }

  function TrimPrefix(s: string, prefix: string): string {
    if prefix <= s then s[|prefix|..] else s
  }

  function Without(s: string, c: char): string {
    if s == "" then ""
    else (if s[0] == c then "" else [s[0]]) + Without(s[1..], c)
  }

  function SplitBy(s: string, separators: set<char>): (parts: seq<string>)
    ensures parts != []
  {
    if s == "" then [""]
    else
      var rest := SplitBy(s[1..], separators);
      if s[0] in separators then [""] + rest else [[s[0]] + rest[0]] + rest[1..]
  }

  function Split(s: string, separator: char): seq<string> { SplitBy(s, {separator}) }

  function NonEmpty(parts: seq<string>): seq<string> {
    if parts == [] then []
    else (if parts[0] == "" then [] else [parts[0]]) + NonEmpty(parts[1..])
  }

  function Join(parts: seq<string>, separator: char): string {
    if parts == [] then ""
    else if |parts| == 1 then parts[0]
    else parts[0] + [separator] + Join(parts[1..], separator)
  }

  predicate Free(parts: seq<string>, c: char) {
    forall i | 0 <= i < |parts| :: c !in parts[i]
  }

  lemma {:induction false} SplitFirst(part: string, rest: string, c: char)
    requires c !in part
    ensures Split(part, c) == [part]
    ensures Split(part + [c] + rest, c) == [part] + Split(rest, c)
  {
    if part == "" {
      assert part + [c] + rest == [c] + rest;
      assert ([c] + rest)[1..] == rest;
    } else {
      SplitFirst(part[1..], rest, c);
      assert (part + [c] + rest)[1..] == part[1..] + [c] + rest;
      assert [part[0]] + part[1..] == part;
    }
  }

  lemma {:induction false} SplitJoin(parts: seq<string>, c: char)
    requires parts != [] && Free(parts, c)
    ensures Split(Join(parts, c), c) == parts
  {
    if |parts| == 1 {
      SplitFirst(parts[0], "", c);
    } else {
      SplitJoin(parts[1..], c);
      SplitFirst(parts[0], Join(parts[1..], c), c);
      assert [parts[0]] + parts[1..] == parts;
    }
  }

  lemma JoinInjective(a: seq<string>, b: seq<string>, c: char)
    requires a != [] && b != [] && Free(a, c) && Free(b, c)
    requires Join(a, c) == Join(b, c)
    ensures a == b
  {
    SplitJoin(a, c);
    SplitJoin(b, c);
  }

  /** Neither end of the text is in the cutset. */
  predicate Bare(s: string, cutset: set<char>) {
    s != "" ==> s[0] !in cutset && s[|s| - 1] !in cutset
  }

  lemma {:induction false} TrimLeftBare(s: string, cutset: set<char>)
    ensures TrimLeft(s, cutset) != "" ==> TrimLeft(s, cutset)[0] !in cutset
  {
    if s != "" && s[0] in cutset {
      TrimLeftBare(s[1..], cutset);
    }
  }

  lemma {:induction false} TrimRightBare(s: string, cutset: set<char>)
    ensures TrimRight(s, cutset) <= s
    ensures TrimRight(s, cutset) != "" ==> TrimRight(s, cutset)[|TrimRight(s, cutset)| - 1] !in cutset
  {
    if s != "" && s[|s| - 1] in cutset {
      TrimRightBare(s[..|s| - 1], cutset);
    }
  }

  lemma TrimBare(s: string, cutset: set<char>)
    ensures Bare(Trim(s, cutset), cutset)
  {
    TrimLeftBare(s, cutset);
    TrimRightBare(TrimLeft(s, cutset), cutset);
  }

  /** The text without `a` characters in front and those from `b` on, all of them in the cutset. */
  predicate Between(s: string, cutset: set<char>, a: int, b: int) {
    && 0 <= a <= b <= |s|
    && (forall i | 0 <= i < a :: s[i] in cutset) && forall i | b <= i < |s| :: s[i] in cutset
  }

  lemma {:induction false} TrimLeftTo(s: string, cutset: set<char>, a: nat)
    requires a < |s| && s[a] !in cutset && forall i | 0 <= i < a :: s[i] in cutset
    ensures TrimLeft(s, cutset) == s[a..]
  {
    if a > 0 {
      TrimLeftTo(s[1..], cutset, a - 1);
    }
  }

  lemma {:induction false} TrimRightTo(s: string, cutset: set<char>, b: nat)
    requires 0 < b <= |s| && s[b - 1] !in cutset && forall i | b <= i < |s| :: s[i] in cutset
    ensures TrimRight(s, cutset) == s[..b]
  {
    var n := |s| - 1;
    if b <= n {
      TrimRightTo(s[..n], cutset, b);
    }
  }

  lemma {:induction false} TrimLeftFrom(s: string, cutset: set<char>) returns (a: nat)
    ensures a <= |s| && TrimLeft(s, cutset) == s[a..] && forall i | 0 <= i < a :: s[i] in cutset
  {
    if s != "" && s[0] in cutset {
      var k := TrimLeftFrom(s[1..], cutset);
      a := k + 1;
    } else {
      a := 0;
    }
  }

  lemma {:induction false} TrimRightFrom(s: string, cutset: set<char>) returns (b: nat)
    ensures b <= |s| && TrimRight(s, cutset) == s[..b] && forall i | b <= i < |s| :: s[i] in cutset
  {
    var n := |s| - 1;
    if s != "" && s[n] in cutset {
      b := TrimRightFrom(s[..n], cutset);
    } else {
      b := |s|;
    }
  }

  /** Trimming gives a text without the cut characters at its ends exactly when only such surround it. */
  lemma TrimGives(s: string, cutset: set<char>, core: string)
    requires core != "" && Bare(core, cutset)
    ensures Trim(s, cutset) == core <==> exists a, b :: Between(s, cutset, a, b) && s[a..b] == core
  {
    if Trim(s, cutset) == core {
      var a := TrimLeftFrom(s, cutset);
      var b := TrimRightFrom(s[a..], cutset);
      assert Between(s, cutset, a, a + b) && s[a..a + b] == core;
    }
    if a, b :| Between(s, cutset, a, b) && s[a..b] == core {
      assert s[a] == core[0] && s[b - 1] == core[|core| - 1];
      TrimLeftTo(s, cutset, a);
      TrimRightTo(s[a..], cutset, b - a);
    }
  }

  lemma TrimIdentity(s: string, cutset: set<char>)
    requires Bare(s, cutset)
    ensures Trim(s, cutset) == s
  {}
}
