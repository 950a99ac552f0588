/**
  The C library string routines the relay relies on, stated on `string`:
  strchr, strtok_r with ":" as the only delimiter, isspace in the C locale and
  strtol in base 10. Splitting at every colon and dropping the empty pieces is
  the reference meaning of strtok_r's tokens; `StrtokR` is the cursor-based
  routine the code actually calls, and `StrtokRYieldsTokens` ties the two.
*/
module Text {
  import opened Wrappers
  import CInt

  /** The separator of every stream descriptor. */
  const Colon: char := ':'

  /** isspace() in the C locale. */
  predicate IsSpace(c: char) {
    c == ' ' || c == '\t' || c == '\n' || c == '\r' || c == '\U{000B}' || c == '\U{000C}'
  }

  predicate IsDigit(c: char) {
    '0' <= c <= '9'
  }

  predicate AllSpace(s: string) {
    forall i :: 0 <= i < |s| ==> IsSpace(s[i])
  }

  // ---------------------------------------------------------------------------
  // strchr

  /** strchr: the position of the first occurrence of `c` in `s`, if any. */
  function FindChar(s: string, c: char): (r: Option<nat>)
    ensures r.None? <==> c !in s
    ensures r.Some? ==> r.value < |s| && s[r.value] == c && c !in s[..r.value]
  {
    if s == [] then None
    else if s[0] == c then Some(0)
    else
      assert s == [s[0]] + s[1..];
      match FindChar(s[1..], c)
      case None => None
      case Some(i) =>
        assert s[..i + 1] == [s[0]] + s[1..][..i];
        Some(i + 1)
  }

  /** The first occurrence is the only position with `c` and no `c` before it. */
  lemma {:induction false} FindCharFirst(s: string, c: char, i: nat)
    requires i < |s| && s[i] == c && c !in s[..i]
    ensures FindChar(s, c) == Some(i)
    decreases i
  {
    if i > 0 {
      assert s[..i][0] == s[0];
      assert s[1..][..i - 1] == s[..i][1..];
      FindCharFirst(s[1..], c, i - 1);
    }
  }

  /** A range holding no colon gives a colon-free slice. */
  lemma NoColonIn(s: string, a: nat, b: nat)
    requires a <= b <= |s|
    requires forall k :: a <= k < b ==> s[k] != Colon
    ensures Colon !in s[a..b]
  {
    forall k | 0 <= k < b - a ensures s[a..b][k] != Colon {
      assert s[a..b][k] == s[a + k];
    }
  }

  // ---------------------------------------------------------------------------
  // Splitting at colons: the reference meaning of a descriptor's fields

  /** Splits `s` at every colon, keeping empty pieces. */
  function Split(s: string): (r: seq<string>)
    ensures |r| > 0
    ensures forall i :: 0 <= i < |r| ==> Colon !in r[i]
    decreases |s|
  {
    match FindChar(s, Colon)
    case None => [s]
    case Some(i) => [s[..i]] + Split(s[i + 1..])
  }

  /** Glues pieces back together with one colon between neighbours. */
  function Join(parts: seq<string>): string
    decreases |parts|
  {
    if parts == [] then ""
    else if |parts| == 1 then parts[0]
    else parts[0] + [Colon] + Join(parts[1..])
  }

  /** Splitting loses nothing: joining the pieces gives back the string. */
  lemma {:induction false} JoinSplit(s: string)
    ensures Join(Split(s)) == s
    decreases |s|
  {
    match FindChar(s, Colon)
    case None =>
    case Some(i) =>
      JoinSplit(s[i + 1..]);
      assert Split(s)[1..] == Split(s[i + 1..]);
      assert s == s[..i] + [Colon] + s[i + 1..];
  }

  /** Colon-free pieces survive a join followed by a split. */
  lemma {:induction false} SplitJoin(parts: seq<string>)
    requires |parts| > 0
    requires forall i :: 0 <= i < |parts| ==> Colon !in parts[i]
    ensures Split(Join(parts)) == parts
    decreases |parts|
  {
    if |parts| > 1 {
      var s := Join(parts);
      var n := |parts[0]|;
      assert s == parts[0] + [Colon] + Join(parts[1..]);
      assert s[..n] == parts[0];
      FindCharFirst(s, Colon, n);
      assert s[n + 1..] == Join(parts[1..]);
      SplitJoin(parts[1..]);
    }
  }

  /** Drops the empty pieces, keeping the others in order. */
  function NonEmpty(parts: seq<string>): (r: seq<string>)
    ensures |r| <= |parts|
    ensures forall i :: 0 <= i < |r| ==> r[i] != [] && r[i] in parts
    ensures forall i :: 0 <= i < |parts| && parts[i] != [] ==> parts[i] in r
  {
    if parts == [] then []
    else (if parts[0] == [] then [] else [parts[0]]) + NonEmpty(parts[1..])
  }

  /** The tokens strtok_r(":") yields: the colon-separated pieces without the empty ones. */
  function Tokens(s: string): (r: seq<string>)
    ensures forall i :: 0 <= i < |r| ==> r[i] != [] && Colon !in r[i]
  {
    NonEmpty(Split(s))
  }

  // ---------------------------------------------------------------------------
  // strtok_r

  /** The first position at or after `pos` that is not a colon. */
  function SkipColons(s: string, pos: nat): (r: nat)
    requires pos <= |s|
    ensures pos <= r <= |s|
    ensures forall k :: pos <= k < r ==> s[k] == Colon
    ensures r == |s| || s[r] != Colon
    decreases |s| - pos
  {
    if pos == |s| || s[pos] != Colon then pos else SkipColons(s, pos + 1)
  }

  /** The first colon at or after `pos`, or the end of `s`. */
  function TokenEnd(s: string, pos: nat): (r: nat)
    requires pos <= |s|
    ensures pos <= r <= |s|
    ensures forall k :: pos <= k < r ==> s[k] != Colon
    ensures r == |s| || s[r] == Colon
    decreases |s| - pos
  {
    if pos == |s| || s[pos] == Colon then pos else TokenEnd(s, pos + 1)
  }

  /** A token and the cursor strtok_r saves for its next call. */
  datatype Cut = Cut(token: string, rest: nat)

  /**
    One call of strtok_r(":") on the text from cursor `pos`: skip colons; at
    the end there is no token; otherwise the token runs to the next colon,
    which is consumed, or to the end.
  */
  function StrtokR(s: string, pos: nat): (r: Option<Cut>)
    requires pos <= |s|
    ensures r.None? <==> forall k :: pos <= k < |s| ==> s[k] == Colon
    ensures r.Some? ==> pos < r.value.rest <= |s| && r.value.token != [] && Colon !in r.value.token
  {
    var a := SkipColons(s, pos);
    if a == |s| then None
    else
      var b := TokenEnd(s, a);
      NoColonIn(s, a, b);
      Some(Cut(s[a..b], if b == |s| then b else b + 1))
  }

  /** Only colons: there is no token at all. */
  lemma NoTokensInColons(t: string)
    requires forall k :: 0 <= k < |t| ==> t[k] == Colon
    ensures Tokens(t) == []
    decreases |t|
  {
    if t != [] {
      FindCharFirst(t, Colon, 0);
      assert Split(t) == [[]] + Split(t[1..]);
      NoTokensInColons(t[1..]);
    }
  }

  /** A leading colon contributes only an empty piece. */
  lemma TokensAfterColon(t: string)
    requires t != [] && t[0] == Colon
    ensures Tokens(t) == Tokens(t[1..])
  {
    FindCharFirst(t, Colon, 0);
    assert Split(t) == [[]] + Split(t[1..]);
  }

  /** A non-empty colon-free run ended by a colon or by the end is the first token. */
  lemma TokensAfterRun(t: string, n: nat)
    requires 0 < n <= |t|
    requires Colon !in t[..n]
    requires n == |t| || t[n] == Colon
    ensures n == |t| ==> Tokens(t) == [t]
    ensures n < |t| ==> Tokens(t) == [t[..n]] + Tokens(t[n + 1..])
  {
    if n == |t| {
      assert t[..n] == t;
      assert Split(t) == [t];
    } else {
      FindCharFirst(t, Colon, n);
      assert Split(t) == [t[..n]] + Split(t[n + 1..]);
      assert t[..n] != [];
    }
  }

  /**
    Successive strtok_r calls enumerate exactly the non-empty colon-separated
    pieces, in order: each call returns the first remaining piece and leaves a
    cursor from which the rest follow.
  */
  lemma {:induction false} StrtokRYieldsTokens(s: string, pos: nat)
    requires pos <= |s|
    ensures StrtokR(s, pos).None? <==> Tokens(s[pos..]) == []
    ensures StrtokR(s, pos).Some? ==>
      Tokens(s[pos..]) == [StrtokR(s, pos).value.token] + Tokens(s[StrtokR(s, pos).value.rest..])
    decreases |s| - pos
  {
    if pos == |s| {
      assert s[pos..] == [];
    } else if s[pos] == Colon {
      SkipLeadingColon(s, pos);
      StrtokRYieldsTokens(s, pos + 1);
    } else {
      StrtokRAtToken(s, pos);
    }
  }

  /** The colon-skipping step of `StrtokRYieldsTokens`: a colon under the cursor changes neither the call nor the tokens. */
  lemma SkipLeadingColon(s: string, pos: nat)
    requires pos < |s| && s[pos] == Colon
    ensures StrtokR(s, pos) == StrtokR(s, pos + 1)
    ensures Tokens(s[pos..]) == Tokens(s[pos + 1..])
  {
    TokensAfterColon(s[pos..]);
    assert s[pos..][1..] == s[pos + 1..];
    assert SkipColons(s, pos) == SkipColons(s, pos + 1);
  }

  /** One strtok_r call from a cursor whose remaining tokens are `t`: the first of them, and a cursor before the others. */
  lemma StrtokRNext(s: string, pos: nat, t: seq<string>)
    requires pos <= |s| && Tokens(s[pos..]) == t
    ensures StrtokR(s, pos).None? <==> t == []
    ensures StrtokR(s, pos).Some? ==>
      && StrtokR(s, pos).value.token == t[0]
      && Tokens(s[StrtokR(s, pos).value.rest..]) == t[1..]
  {
    StrtokRYieldsTokens(s, pos);
  }

  /** The step of `StrtokRYieldsTokens` where the cursor sits on a token. */
  lemma StrtokRAtToken(s: string, pos: nat)
    requires pos < |s| && s[pos] != Colon
    ensures StrtokR(s, pos).Some?
    ensures Tokens(s[pos..]) == [StrtokR(s, pos).value.token] + Tokens(s[StrtokR(s, pos).value.rest..])
  {
    var b := TokenEnd(s, pos);
    assert SkipColons(s, pos) == pos;
    var c := StrtokR(s, pos).value;
    assert c.token == s[pos..b];
    NoColonIn(s, pos, b);
    if b < |s| {
      assert c.rest == b + 1;
      TokenBeforeColon(s, pos, b);
    } else {
      assert c.rest == |s|;
      LastToken(s, pos);
    }
  }

  lemma TokenBeforeColon(s: string, pos: nat, b: nat)
    requires pos < b < |s| && s[b] == Colon && Colon !in s[pos..b]
    ensures Tokens(s[pos..]) == [s[pos..b]] + Tokens(s[b + 1..])
  {
    var t, n := s[pos..], b - pos;
    assert t[..n] == s[pos..b];
    assert t[n] == Colon;
    assert t[n + 1..] == s[b + 1..];
    TokensAfterRun(t, n);
  }

  lemma LastToken(s: string, pos: nat)
    requires pos < |s| && Colon !in s[pos..]
    ensures Tokens(s[pos..]) == [s[pos..|s|]] + Tokens(s[|s|..])
  {
    var t := s[pos..];
    assert t[..|t|] == t;
    TokensAfterRun(t, |t|);
    assert s[|s|..] == [];
    NoTokensInColons([]);
    assert s[pos..|s|] == t;
  }

  /** Two tokens cannot occur without a colon between them. */
  lemma TwoTokensNeedColon(s: string)
    ensures |Tokens(s)| >= 2 ==> Colon in s
  {
  }

  /**
    The first token agrees with the prefix before the first colon exactly when
    the string does not start with a colon; a leading colon makes the prefix
    empty, which no token is.
  */
  lemma FirstTokenVersusPrefix(s: string)
    requires s != []
    ensures s[0] != Colon ==> |Tokens(s)| > 0 && Tokens(s)[0] == Split(s)[0]
    ensures s[0] == Colon ==> Split(s)[0] == [] && Split(s)[0] !in Tokens(s)
  {
    if s[0] == Colon {
      FindCharFirst(s, Colon, 0);
    } else {
      match FindChar(s, Colon)
      case None =>
        assert Split(s) == [s];
      case Some(i) =>
        assert s[..i][0] == s[0];
        assert Split(s)[0] == s[..i];
    }
  }

  // ---------------------------------------------------------------------------
  // Whitespace and strtol

  /** How many leading characters are whitespace. */
  function LeadingSpace(s: string): (n: nat)
    ensures n <= |s|
    ensures AllSpace(s[..n])
    ensures n == |s| || !IsSpace(s[n])
  {
    if s == [] || !IsSpace(s[0]) then 0
    else
      var n := 1 + LeadingSpace(s[1..]);
      assert s[..n] == [s[0]] + s[1..][..n - 1];
      n
  }

  /** The end of the run of decimal digits starting at `pos`. */
  function DigitsEnd(s: string, pos: nat): (r: nat)
    requires pos <= |s|
    ensures pos <= r <= |s|
    ensures forall k :: pos <= k < r ==> IsDigit(s[k])
    ensures r == |s| || !IsDigit(s[r])
    decreases |s| - pos
  {
    if pos == |s| || !IsDigit(s[pos]) then pos else DigitsEnd(s, pos + 1)
  }

  predicate AllDigits(s: string) {
    forall i :: 0 <= i < |s| ==> IsDigit(s[i])
  }

  /** The value of a string of decimal digits, most significant first. */
  function DecimalValue(ds: string): nat
    requires AllDigits(ds)
  {
    if ds == [] then 0
    else DecimalValue(ds[..|ds| - 1]) * 10 + (ds[|ds| - 1] as int - '0' as int)
  }

  /** The sign strtol accepts in front of the digits: none, '+' or '-'. */
  predicate IsSign(sign: string) {
    sign == [] || sign == "+" || sign == "-"
  }

  /** The shape strtol reads whole: blanks, at most one sign, then at least one digit. */
  predicate IsNumeral(blanks: string, sign: string, digits: string) {
    AllSpace(blanks) && IsSign(sign) && digits != [] && AllDigits(digits)
  }

  /** The mathematical value of a signed numeral, before any clamping. */
  function SignedValue(sign: string, digits: string): int
    requires AllDigits(digits)
  {
    if sign == "-" then -(DecimalValue(digits) as int) else DecimalValue(digits)
  }

  /**
    strtol(s, &end, 10): the value read and the index `end` points at. Leading
    whitespace and one sign are accepted; without any digit the value is 0 and
    `end` is 0; an out-of-range value is clamped to the range of long.
    `StrtolReads` and `StrtolReadsOnlyNumerals` state what it reads.
  */
  function Strtol(s: string): (r: (int, nat))
    ensures r.1 <= |s|
    ensures CInt.LongMin <= r.0 <= CInt.LongMax
    ensures r.1 == 0 ==> r.0 == 0
    ensures r.1 > 0 ==> IsDigit(s[r.1 - 1]) && (r.1 == |s| || !IsDigit(s[r.1]))
  {
    var a := LeadingSpace(s);
    var negative := a < |s| && s[a] == '-';
    var b := if a < |s| && (s[a] == '+' || s[a] == '-') then a + 1 else a;
    var e := DigitsEnd(s, b);
    if e == b then (0, 0)
    else
      var magnitude := DecimalValue(s[b..e]);
      (CInt.ClampLong(if negative then -(magnitude as int) else magnitude), e)
  }

  /** Blanks in front of text that does not start with a blank are exactly what LeadingSpace skips. */
  lemma {:induction false} LeadingSpaceOf(pre: string, rest: string)
    requires AllSpace(pre)
    requires rest == [] || !IsSpace(rest[0])
    ensures LeadingSpace(pre + rest) == |pre|
    decreases |pre|
  {
    if pre != [] {
      assert (pre + rest)[1..] == pre[1..] + rest;
      LeadingSpaceOf(pre[1..], rest);
    }
  }

  /** A run of digits followed by a non-digit or the end is read to its end. */
  lemma {:induction false} DigitsEndOf(s: string, pos: nat, e: nat)
    requires pos <= e <= |s|
    requires forall k :: pos <= k < e ==> IsDigit(s[k])
    requires e == |s| || !IsDigit(s[e])
    ensures DigitsEnd(s, pos) == e
    decreases e - pos
  {
    if pos < e {
      DigitsEndOf(s, pos + 1, e);
    }
  }

  /**
    Any numeral followed by a non-digit, or by nothing, is read to the end of
    its digits and yields its value clamped to the range of long.
  */
  lemma StrtolReads(s: string, a: nat, b: nat, e: nat)
    requires a <= b < e <= |s|
    requires IsNumeral(s[..a], s[a..b], s[b..e])
    requires e == |s| || !IsDigit(s[e])
    ensures Strtol(s) == (CInt.ClampLong(SignedValue(s[a..b], s[b..e])), e)
  {
    assert !IsSpace(s[a]) by {
      if a < b {
        assert s[a] == s[a..b][0];
      } else {
        assert s[a] == s[b..e][0];
      }
    }
    LeadingSpaceAt(s, a);
    forall k | b <= k < e ensures IsDigit(s[k]) {
      assert s[k] == s[b..e][k - b];
    }
    DigitsEndOf(s, b, e);
    StrtolFrom(s, a, b, e);
  }

  /** Blanks up to `a` and no blank at `a`: LeadingSpace stops at `a`. */
  lemma {:induction false} LeadingSpaceAt(s: string, a: nat)
    requires a <= |s| && AllSpace(s[..a])
    requires a == |s| || !IsSpace(s[a])
    ensures LeadingSpace(s) == a
    decreases a
  {
    if a > 0 {
      assert IsSpace(s[..a][0]);
      assert s[1..][..a - 1] == s[1..a];
      assert forall k :: 0 <= k < a - 1 ==> s[1..a][k] == s[..a][k + 1];
      LeadingSpaceAt(s[1..], a - 1);
    }
  }

  /** strtol in terms of where the blanks, the sign and the digits end. */
  lemma StrtolFrom(s: string, a: nat, b: nat, e: nat)
    requires a <= b < e <= |s|
    requires LeadingSpace(s) == a && IsSign(s[a..b]) && DigitsEnd(s, b) == e
    ensures Strtol(s) == (CInt.ClampLong(SignedValue(s[a..b], s[b..e])), e)
  {
    var magnitude := DecimalValue(s[b..e]);
    if a == b {
      assert IsDigit(s[a]) && s[a..b] == [];
      assert SignedValue(s[a..b], s[b..e]) == magnitude;
    } else if s[a] == '-' {
      assert s[a..b] == [s[a]] == "-";
      assert SignedValue(s[a..b], s[b..e]) == -(magnitude as int);
    } else {
      assert s[a..b] == [s[a]] == "+";
      assert SignedValue(s[a..b], s[b..e]) == magnitude;
    }
  }

  /** Whatever strtol reads is a numeral, and the value is that numeral's, clamped to the range of long. */
  lemma StrtolReadsOnlyNumerals(s: string)
    ensures var r := Strtol(s);
      r.1 > 0 ==>
        exists a, b :: && 0 <= a <= b < r.1
                       && IsNumeral(s[..a], s[a..b], s[b..r.1])
                       && r.0 == CInt.ClampLong(SignedValue(s[a..b], s[b..r.1]))
  {
    var a := LeadingSpace(s);
    var b := if a < |s| && (s[a] == '+' || s[a] == '-') then a + 1 else a;
    var e := DigitsEnd(s, b);
    if e > b {
      assert IsSign(s[a..b]) by {
        if b > a {
          assert s[a..b] == [s[a]];
        }
      }
      StrtolFrom(s, a, b, e);
      assert IsNumeral(s[..a], s[a..b], s[b..e]);
    }
  }

  /** A plain decimal numeral within range is read whole, to its exact value. */
  lemma StrtolReadsNumeral(s: string)
    requires s != [] && AllDigits(s)
    requires DecimalValue(s) <= CInt.LongMax
    ensures Strtol(s) == (DecimalValue(s) as int, |s|)
  {
    assert s[..0] == [] && s[0..0] == [] && s[0..|s|] == s;
    StrtolReads(s, 0, 0, |s|);
  }
}
