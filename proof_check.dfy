/** The difficulty predicate `valid_proof(block_string, proof)`.

    The mine handler passes the last block's canonical string already encoded to bytes, so
    the f-string `f'{block_string}{proof}'` embeds Python's literal form of those bytes
    (`b'…'`, with the escapes of `bytes.__repr__`) followed by the decimal form of the proof.
    Both renderings are modelled here, each with a parser that inverts it, so that the bytes
    fed to SHA-256 are shown to determine the block string and the proof. */
module ProofCheck {
  import opened Records
  import opened Hashing

  /** The run of hex characters a digest must start with. */
  const DIFFICULTY_PREFIX: string := "000000"

  const MINUS: byte := 45
  const BACKSLASH: byte := 92
  const SINGLE_QUOTE: byte := 39
  const DOUBLE_QUOTE: byte := 34
  const LETTER_B: byte := 98

  // ---------------------------------------------------------------------------------
  // str(proof): Python's decimal rendering of an int, as ASCII bytes.

  predicate IsDigit(c: byte) { 48 <= c <= 57 }

  predicate AllDigits(s: seq<byte>) { forall i :: 0 <= i < |s| ==> IsDigit(s[i]) }

  function NatDigits(n: nat): (digits: seq<byte>)
    decreases n
  {
    if n < 10 then [48 + n] else NatDigits(n / 10) + [48 + n % 10]
  }

  /** `str(n)`: a minus sign for negative values, then the digits without leading zeros. */
  function Decimal(n: int): (text: seq<byte>)
  {
    if n < 0 then [MINUS] + NatDigits(-n) else NatDigits(n)
  }

  function DigitsValue(s: seq<byte>): (value: nat)
    requires AllDigits(s)
  {
    if s == [] then 0 else DigitsValue(s[..|s| - 1]) * 10 + (s[|s| - 1] - 48)
  }

  /** Reads back an optionally signed run of decimal digits. */
  function ParseDecimal(s: seq<byte>): (r: Option<int>)
  {
    if |s| > 1 && s[0] == MINUS && AllDigits(s[1..]) then Some(-(DigitsValue(s[1..]) as int))
    else if |s| > 0 && AllDigits(s) then Some(DigitsValue(s))
    else None
  }

  lemma {:induction false} NatDigitsRoundTrip(n: nat)
    ensures |NatDigits(n)| > 0 && AllDigits(NatDigits(n))
    ensures DigitsValue(NatDigits(n)) == n
    decreases n
  {
    if n >= 10 {
      NatDigitsRoundTrip(n / 10);
      var d := NatDigits(n);
      assert d[..|d| - 1] == NatDigits(n / 10);
    }
  }

  /** The decimal rendering of a proof reads back as that proof. */
  lemma DecimalRoundTrip(n: int)
    ensures ParseDecimal(Decimal(n)) == Some(n)
  {
    if n < 0 {
      NatDigitsRoundTrip(-n);
      assert Decimal(n)[1..] == NatDigits(-n);
    } else {
      NatDigitsRoundTrip(n);
    }
  }

  // ---------------------------------------------------------------------------------
  // The literal form of a bytes object, `b'…'`, as `bytes.__repr__` writes it.

  /** The quote `bytes.__repr__` uses: a double quote only when the bytes contain a single
      quote and no double quote. */
  function QuoteFor(bs: seq<byte>): (q: byte)
    ensures q == SINGLE_QUOTE || q == DOUBLE_QUOTE
    ensures q == DOUBLE_QUOTE ==> SINGLE_QUOTE in bs && DOUBLE_QUOTE !in bs
  {
    if SINGLE_QUOTE in bs && DOUBLE_QUOTE !in bs then DOUBLE_QUOTE else SINGLE_QUOTE
  }

  predicate IsQuote(q: byte) { q == SINGLE_QUOTE || q == DOUBLE_QUOTE }

  /** A lower-case hex digit. */
  function HexDigit(d: nat): (c: byte)
    requires d < 16
  {
    if d < 10 then 48 + d else 87 + d
  }

  predicate IsHexDigit(c: byte) { 48 <= c <= 57 || 97 <= c <= 102 }

  function HexValue(c: byte): (d: nat)
    requires IsHexDigit(c)
  {
    if c <= 57 then c - 48 else c - 87
  }

  /** One byte inside the quotes: the quote and the backslash are escaped, tab, newline and
      carriage return get their letter escapes, other control bytes and bytes from 0x7f on
      are written `\xhh`, and printable ASCII stands for itself. */
  function EscapeByte(c: byte, q: byte): (e: seq<byte>)
  {
    if c == q || c == BACKSLASH then [BACKSLASH, c]
    else if c == 9 then [BACKSLASH, 116]
    else if c == 10 then [BACKSLASH, 110]
    else if c == 13 then [BACKSLASH, 114]
    else if c < 32 || c >= 127 then [BACKSLASH, 120, HexDigit(c / 16), HexDigit(c % 16)]
    else [c]
  }

  function EscapeAll(bs: seq<byte>, q: byte): (e: seq<byte>)
  {
    if bs == [] then [] else EscapeByte(bs[0], q) + EscapeAll(bs[1..], q)
  }

  /** `str(bs)` for a bytes object: `b`, the quote, the escaped bytes, the quote. */
  function BytesLiteral(bs: seq<byte>): (literal: seq<byte>)
  {
    var q := QuoteFor(bs);
    [LETTER_B, q] + EscapeAll(bs, q) + [q]
  }

  /** Reads one (possibly escaped) byte at the head of `s`, giving the byte and the number
      of bytes it took up. */
  function ParseUnit(s: seq<byte>, q: byte): (r: Option<(byte, nat)>)
    requires |s| > 0
    ensures r.Some? ==> 1 <= r.value.1 <= |s|
  {
    if s[0] != BACKSLASH then Some((s[0], 1))
    else if |s| < 2 then None
    else if s[1] == BACKSLASH || s[1] == q then Some((s[1], 2))
    else if s[1] == 116 then Some((9, 2))
    else if s[1] == 110 then Some((10, 2))
    else if s[1] == 114 then Some((13, 2))
    else if s[1] == 120 && |s| >= 4 && IsHexDigit(s[2]) && IsHexDigit(s[3]) then
      Some((HexValue(s[2]) * 16 + HexValue(s[3]), 4))
    else None
  }

  /** Reads escaped bytes up to the closing quote `q`, giving the bytes and what follows
      the quote. */
  function ParseBody(s: seq<byte>, q: byte): (r: Option<(seq<byte>, seq<byte>)>)
    decreases |s|
  {
    if |s| == 0 then None
    else if s[0] == q then Some(([], s[1..]))
    else
      match ParseUnit(s, q)
      case None => None
      case Some((c, width)) =>
        match ParseBody(s[width..], q)
        case None => None
        case Some((body, rest)) => Some(([c] + body, rest))
  }

  lemma HexDigitRoundTrip(d: nat)
    requires d < 16
    ensures IsHexDigit(HexDigit(d)) && HexValue(HexDigit(d)) == d
  {
  }

  /** The escape of one byte reads back as that byte, and never starts with the quote. */
  lemma ParseUnitOfEscape(c: byte, q: byte, rest: seq<byte>)
    requires IsQuote(q)
    ensures var e := EscapeByte(c, q);
      && (e + rest)[0] != q
      && ParseUnit(e + rest, q) == Some((c, |e|))
  {
    var e := EscapeByte(c, q);
    if c != q && c != BACKSLASH && c != 9 && c != 10 && c != 13 && (c < 32 || c >= 127) {
      HexDigitRoundTrip(c / 16);
      HexDigitRoundTrip(c % 16);
      var s := e + rest;
      assert s[..4] == e;
      assert HexValue(s[2]) * 16 + HexValue(s[3]) == c;
    }
  }

  lemma {:induction false} ParseBodyRoundTrip(bs: seq<byte>, q: byte, rest: seq<byte>)
    requires IsQuote(q)
    ensures ParseBody(EscapeAll(bs, q) + [q] + rest, q) == Some((bs, rest))
    decreases |bs|
  {
    var s := EscapeAll(bs, q) + [q] + rest;
    if bs == [] {
      assert s == [q] + rest;
    } else {
      var e := EscapeByte(bs[0], q);
      var tail := EscapeAll(bs[1..], q) + [q] + rest;
      assert s == e + tail;
      ParseUnitOfEscape(bs[0], q, tail);
      assert s[|e|..] == tail;
      ParseBodyRoundTrip(bs[1..], q, rest);
      assert [bs[0]] + bs[1..] == bs;
    }
  }

  // ---------------------------------------------------------------------------------
  // The hash input of valid_proof and the predicate itself.

  /** `f'{block_string}{proof}'.encode()` when `block_string` is a bytes object: the bytes
      literal followed by the decimal proof. It reads back exactly, so the bytes hashed by
      valid_proof determine the block string and the proof. */
  function Guess(blockString: seq<byte>, proof: int): (g: seq<byte>)
    ensures ParseGuess(g) == Some((blockString, proof))
  {
    var q := QuoteFor(blockString);
    var d := Decimal(proof);
    var g := BytesLiteral(blockString) + d;
    assert g[2..] == EscapeAll(blockString, q) + [q] + d;
    ParseBodyRoundTrip(blockString, q, d);
    DecimalRoundTrip(proof);
    g
  }

  /** Reads a guess back into the block string and the proof it was built from. */
  function ParseGuess(g: seq<byte>): (r: Option<(seq<byte>, int)>)
  {
    if |g| >= 2 && g[0] == LETTER_B && IsQuote(g[1]) then
      match ParseBody(g[2..], g[1])
      case None => None
      case Some((bs, rest)) =>
        match ParseDecimal(rest)
        case None => None
        case Some(p) => Some((bs, p))
    else None
  }

  /** Two different (block string, proof) pairs never give the same hash input, so a proof
      is checked against one block string only. */
  lemma GuessInjective(s1: seq<byte>, p1: int, s2: seq<byte>, p2: int)
    ensures Guess(s1, p1) == Guess(s2, p2) <==> s1 == s2 && p1 == p2
  {
    assert ParseGuess(Guess(s1, p1)) == Some((s1, p1));
    assert ParseGuess(Guess(s2, p2)) == Some((s2, p2));
  }

  /** Python's `s[:n]`: at most the first n characters. */
  function PyPrefix(s: string, n: nat): (prefix: string)
  {
    if |s| <= n then s else s[..n]
  }

  /** `valid_proof(block_string, proof)`: the digest of the guess starts with "000000".
      Python's `[:6]` of a shorter digest is the whole digest, which then cannot match. */
  predicate ValidProof(h: Hasher, blockString: seq<byte>, proof: int)
    ensures ValidProof(h, blockString, proof)
        <==> var d := h.sha256Hex(Guess(blockString, proof));
             |d| >= |DIFFICULTY_PREFIX| && d[..|DIFFICULTY_PREFIX|] == DIFFICULTY_PREFIX
  {
    PyPrefix(h.sha256Hex(Guess(blockString, proof)), |DIFFICULTY_PREFIX|) == DIFFICULTY_PREFIX
  }

  /** The number of '0' characters a digest starts with: an independent reading of the
      difficulty. */
  function LeadingZeros(d: string): (count: nat)
  {
    if d == [] || d[0] != '0' then 0 else 1 + LeadingZeros(d[1..])
  }

  lemma {:induction false} LeadingZerosAtLeast(d: string, k: nat)
    ensures LeadingZeros(d) >= k <==> k <= |d| && forall i :: 0 <= i < k ==> d[i] == '0'
    decreases k
  {
    if k > 0 && d != [] && d[0] == '0' {
      LeadingZerosAtLeast(d[1..], k - 1);
      if k <= |d| && forall i :: 0 <= i < k ==> d[i] == '0' {
        assert forall i :: 0 <= i < k - 1 ==> d[1..][i] == d[i + 1];
      }
    }
  }

  /** A digest passes the difficulty test exactly when it starts with at least as many '0'
      characters as the difficulty prefix has. */
  lemma PrefixIffLeadingZeros(d: string)
    ensures (|d| >= |DIFFICULTY_PREFIX| && d[..|DIFFICULTY_PREFIX|] == DIFFICULTY_PREFIX)
        <==> LeadingZeros(d) >= |DIFFICULTY_PREFIX|
  {
    var n := |DIFFICULTY_PREFIX|;
    LeadingZerosAtLeast(d, n);
    if n <= |d| && forall i :: 0 <= i < n ==> d[i] == '0' {
      assert d[..n] == DIFFICULTY_PREFIX;
    }
    if |d| >= n && d[..n] == DIFFICULTY_PREFIX {
      assert forall i :: 0 <= i < n ==> d[..n][i] == DIFFICULTY_PREFIX[i];
    }
  }

  /** A proof is valid exactly when the digest of its guess starts with at least
      `|DIFFICULTY_PREFIX|` (six) '0' hex characters, that is 24 zero bits. */
  lemma ValidProofIffSixLeadingZeros(h: Hasher, blockString: seq<byte>, proof: int)
    ensures ValidProof(h, blockString, proof)
        <==> LeadingZeros(h.sha256Hex(Guess(blockString, proof))) >= |DIFFICULTY_PREFIX|
  {
    PrefixIffLeadingZeros(h.sha256Hex(Guess(blockString, proof)));
  }
}
