/** Base64 as the browser's `btoa` / `atob` apply it to byte buffers.

    Encoding is the padded encoding of section 4 of RFC 4648. Decoding is the
    "forgiving-base64 decode" that `atob` runs: ASCII whitespace is dropped,
    one or two trailing `=` are removed when the length is a multiple of four,
    a length of 1 modulo 4 or any character outside the alphabet is a failure,
    and leftover low bits of the last character are discarded. */
module Base64 {
  import opened Common

  /** The 64 symbols of section 4 of RFC 4648 in value order: `A`-`Z`, `a`-`z`,
      `0`-`9`, `+` and `/`. */
  const Alphabet: string := UpperLetters + LowerLetters + Digits + "+/"

  const PadChar: char := '='

  predicate IsAlphabetChar(c: char)
  {
    ('A' <= c <= 'Z') || ('a' <= c <= 'z') || ('0' <= c <= '9') || c == '+' || c == '/'
  }

  /** The characters `Encode` may produce. */
  predicate IsEncodingChar(c: char)
  {
    IsAlphabetChar(c) || c == PadChar
  }

  /** Whitespace as the forgiving decoder understands it: TAB, LF, FF, CR, SPACE. */
  predicate IsAsciiWhitespace(c: char)
  {
    c == '\t' || c == '\n' || c as int == 0x0C || c == '\r' || c == ' '
  }

  /** The symbol for the 6-bit value `v`, read off the alphabet's four ranges. */
  function Symbol(v: nat): (c: char)
    requires v < 64
    ensures IsAlphabetChar(c)
  {
    if v < 26 then ('A' as int + v) as char
    else if v < 52 then ('a' as int + (v - 26)) as char
    else if v < 62 then ('0' as int + (v - 52)) as char
    else if v == 62 then '+'
    else '/'
  }

  /** `Symbol` is the table of section 4 of RFC 4648, entry by entry. */
  lemma AlphabetTable()
    ensures |Alphabet| == 64
    ensures forall v :: 0 <= v < 64 ==> Alphabet[v] == Symbol(v)
  {
    AsciiRuns();
  }

  /** The 6-bit value a symbol stands for. */
  function ValueOf(c: char): (v: nat)
    requires IsAlphabetChar(c)
    ensures v < 64 && Symbol(v) == c
  {
    if 'A' <= c <= 'Z' then c as int - 'A' as int
    else if 'a' <= c <= 'z' then c as int - 'a' as int + 26
    else if '0' <= c <= '9' then c as int - '0' as int + 52
    else if c == '+' then 62
    else 63
  }

  /** `ValueOf` inverts `Symbol`. */
  lemma ValueOfSymbol(v: nat)
    requires v < 64
    ensures ValueOf(Symbol(v)) == v
  {
  }

  /** Number of symbols the unpadded encoding spends on a final group of `rem` bytes. */
  function TailLength(rem: nat): nat
  {
    if rem == 0 then 0 else rem + 1
  }

  predicate AllAlphabet(u: string)
  {
    forall i :: 0 <= i < |u| ==> IsAlphabetChar(u[i])
  }

  lemma AllAlphabetConcat(u: string, w: string)
    requires AllAlphabet(u) && AllAlphabet(w)
    ensures AllAlphabet(u + w)
  {
    forall i | 0 <= i < |u + w| ensures IsAlphabetChar((u + w)[i]) {
      if i >= |u| {
        assert (u + w)[i] == w[i - |u|];
      }
    }
  }

  lemma AllAlphabetPrefix(u: string, n: nat)
    requires AllAlphabet(u) && n <= |u|
    ensures AllAlphabet(u[..n])
  {
  }

  /** The four symbols of a group of three bytes: its 24 bits read as four
      6-bit values, most significant first. */
  function EncodeTriple(b0: byte, b1: byte, b2: byte): (s: string)
    ensures |s| == 4 && AllAlphabet(s)
  {
    [Symbol(b0 / 4), Symbol(b0 % 4 * 16 + b1 / 16), Symbol(b1 % 16 * 4 + b2 / 64), Symbol(b2 % 64)]
  }

  /** The symbols of the encoding of `b`, without the trailing padding. A final
      group of one or two bytes is completed with zero bits and only the symbols
      that carry its bits are kept. */
  function EncodeGroups(b: seq<byte>): (s: string)
    ensures AllAlphabet(s)
    decreases |b|
  {
    if |b| == 0 then ""
    else if |b| == 1 then
      AllAlphabetPrefix(EncodeTriple(b[0], 0, 0), 2);
      EncodeTriple(b[0], 0, 0)[..2]
    else if |b| == 2 then
      AllAlphabetPrefix(EncodeTriple(b[0], b[1], 0), 3);
      EncodeTriple(b[0], b[1], 0)[..3]
    else
      AllAlphabetConcat(EncodeTriple(b[0], b[1], b[2]), EncodeGroups(b[3..]));
      EncodeTriple(b[0], b[1], b[2]) + EncodeGroups(b[3..])
  }

  lemma GroupRemainder(k: nat, t: nat)
    requires t < 4
    ensures (4 * k + t) % 4 == t
  {
  }

  /** Four symbols per full group, and one more than the number of bytes for a
      final partial group. */
  lemma {:induction false} EncodeGroupsLength(b: seq<byte>)
    ensures |EncodeGroups(b)| == 4 * (|b| / 3) + TailLength(|b| % 3)
    ensures |EncodeGroups(b)| % 4 != 1
    decreases |b|
  {
    if |b| >= 3 {
      EncodeGroupsLength(b[3..]);
    }
    GroupRemainder(|b| / 3, TailLength(|b| % 3));
  }

  /** The `=` characters that complete the last group of four. */
  function Padding(rem: nat): string
  {
    if rem == 1 then "==" else if rem == 2 then "=" else ""
  }

  /** `bufferToBase64`: the padded base64 text of a byte buffer. */
  function Encode(b: seq<byte>): (s: string)
    ensures forall i :: 0 <= i < |s| ==> IsEncodingChar(s[i])
  {
    EncodeGroups(b) + Padding(|b| % 3)
  }

  /** The encoding is whole groups of four: four symbols per started group
      of three bytes. */
  lemma EncodeLength(b: seq<byte>)
    ensures |Encode(b)| == 4 * (|b| / 3) + (if |b| % 3 == 0 then 0 else 4)
  {
    EncodeGroupsLength(b);
  }

  /** Drops every ASCII whitespace character. */
  function StripWhitespace(s: string): (t: string)
    ensures forall i :: 0 <= i < |t| ==> !IsAsciiWhitespace(t[i])
    ensures (forall i :: 0 <= i < |s| ==> !IsAsciiWhitespace(s[i])) ==> t == s
  {
    if |s| == 0 then ""
    else if IsAsciiWhitespace(s[0]) then StripWhitespace(s[1..])
    else [s[0]] + StripWhitespace(s[1..])
  }

  /** Removes one or two trailing `=` from text whose length is a multiple of four. */
  function StripPadding(t: string): string
  {
    if |t| % 4 == 0 && |t| >= 2 && t[|t| - 2..] == "==" then t[..|t| - 2]
    else if |t| % 4 == 0 && |t| >= 1 && t[|t| - 1] == PadChar then t[..|t| - 1]
    else t
  }

  /** The three bytes of a group of four symbols. */
  function DecodeQuad(u: string): (b: seq<byte>)
    requires |u| == 4 && AllAlphabet(u)
    ensures |b| == 3
  {
    [ValueOf(u[0]) * 4 + ValueOf(u[1]) / 16, ValueOf(u[1]) % 16 * 16 + ValueOf(u[2]) / 4,
     ValueOf(u[2]) % 4 * 64 + ValueOf(u[3])]
  }

  /** Bytes of unpadded symbols. A final group of 2 or 3 symbols is completed
      with zero bits (`A`) and yields 1 or 2 bytes; the extra bits are dropped. */
  function DecodeGroups(u: string): (b: seq<byte>)
    requires |u| % 4 != 1 && AllAlphabet(u)
    decreases |u|
  {
    if |u| == 0 then []
    else if |u| == 2 then DecodeQuad(u + "AA")[..1]
    else if |u| == 3 then DecodeQuad(u + "A")[..2]
    else DecodeQuad(u[..4]) + DecodeGroups(u[4..])
  }

  /** What the forgiving decoder is left with once whitespace and padding are
      gone. */
  function Unpadded(s: string): string
  {
    StripPadding(StripWhitespace(s))
  }

  /** Symbols the forgiving decoder accepts: alphabet only, and not one symbol
      more than a whole number of groups. */
  predicate Decodable(u: string)
  {
    |u| % 4 != 1 && AllAlphabet(u)
  }

  /** `base64ToBuffer`: `atob` followed by reading back each character code;
      `None` is the exception `atob` throws. */
  function Decode(s: string): (r: Option<seq<byte>>)
    ensures r.Some? <==> Decodable(Unpadded(s))
  {
    if Decodable(Unpadded(s)) then Some(DecodeGroups(Unpadded(s))) else None
  }

  /** The bit arithmetic of a group: the 6-bit values put back together give
      the three bytes. */
  lemma FirstByteBits(b0: byte, b1: byte)
    ensures (b0 / 4) * 4 + (b0 % 4 * 16 + b1 / 16) / 16 == b0
  {
  }

  lemma SecondByteBits(b0: byte, b1: byte, b2: byte)
    ensures (b0 % 4 * 16 + b1 / 16) % 16 * 16 + (b1 % 16 * 4 + b2 / 64) / 4 == b1
  {
  }

  lemma ThirdByteBits(b1: byte, b2: byte)
    ensures (b1 % 16 * 4 + b2 / 64) % 4 * 64 + b2 % 64 == b2
  {
  }

  /** Decoding the symbols of a group of three bytes gives the bytes back. */
  lemma DecodeEncodeTriple(b0: byte, b1: byte, b2: byte)
    ensures DecodeQuad(EncodeTriple(b0, b1, b2)) == [b0, b1, b2]
  {
    var q := EncodeTriple(b0, b1, b2);
    ValueOfSymbol(b0 / 4);
    ValueOfSymbol(b0 % 4 * 16 + b1 / 16);
    ValueOfSymbol(b1 % 16 * 4 + b2 / 64);
    ValueOfSymbol(b2 % 64);
    assert ValueOf(q[0]) == b0 / 4;
    assert ValueOf(q[1]) == b0 % 4 * 16 + b1 / 16;
    assert ValueOf(q[2]) == b1 % 16 * 4 + b2 / 64;
    assert ValueOf(q[3]) == b2 % 64;
    FirstByteBits(b0, b1);
    SecondByteBits(b0, b1, b2);
    ThirdByteBits(b1, b2);
  }

  /** A full group in front decodes on its own. */
  lemma DecodeGroupsFront(q: string, rest: string)
    requires |q| == 4 && AllAlphabet(q)
    requires |rest| % 4 != 1 && AllAlphabet(rest)
    ensures AllAlphabet(q + rest) && |q + rest| % 4 != 1
    ensures DecodeGroups(q + rest) == DecodeQuad(q) + DecodeGroups(rest)
  {
    assert (q + rest)[..4] == q;
    assert (q + rest)[4..] == rest;
  }

  /** The symbols of a final group of one byte decode to it. */
  lemma DecodeOneByteTail(b0: byte)
    ensures DecodeGroups(EncodeTriple(b0, 0, 0)[..2]) == [b0]
  {
    var q := EncodeTriple(b0, 0, 0);
    assert q[..2] + "AA" == q;
    DecodeEncodeTriple(b0, 0, 0);
  }

  /** The symbols of a final group of two bytes decode to them. */
  lemma DecodeTwoByteTail(b0: byte, b1: byte)
    ensures DecodeGroups(EncodeTriple(b0, b1, 0)[..3]) == [b0, b1]
  {
    var q := EncodeTriple(b0, b1, 0);
    assert q[..3] + "A" == q;
    DecodeEncodeTriple(b0, b1, 0);
  }

  /** The encoding of three bytes or more starts with a full group. */
  lemma EncodeGroupsFront(b: seq<byte>)
    requires |b| >= 3
    ensures EncodeGroups(b) == EncodeTriple(b[0], b[1], b[2]) + EncodeGroups(b[3..])
  {
  }

  /** Decoding the bytes of a full group gives the bytes back. */
  lemma DecodeTriplePrefix(b: seq<byte>)
    requires |b| >= 3
    ensures DecodeQuad(EncodeTriple(b[0], b[1], b[2])) == b[..3]
  {
    DecodeEncodeTriple(b[0], b[1], b[2]);
  }

  /** One full group in front: it decodes to its own three bytes. */
  lemma DecodeEncodeFront(b: seq<byte>)
    requires |b| >= 3
    ensures |EncodeGroups(b)| % 4 != 1 && |EncodeGroups(b[3..])| % 4 != 1
    ensures DecodeGroups(EncodeGroups(b)) == b[..3] + DecodeGroups(EncodeGroups(b[3..]))
  {
    EncodeGroupsLength(b);
    EncodeGroupsLength(b[3..]);
    EncodeGroupsFront(b);
    DecodeGroupsFront(EncodeTriple(b[0], b[1], b[2]), EncodeGroups(b[3..]));
    DecodeTriplePrefix(b);
  }

  lemma {:induction false} DecodeEncodeGroups(b: seq<byte>)
    ensures |EncodeGroups(b)| % 4 != 1 && DecodeGroups(EncodeGroups(b)) == b
    decreases |b|
  {
    EncodeGroupsLength(b);
    if |b| == 1 {
      DecodeOneByteTail(b[0]);
    } else if |b| == 2 {
      DecodeTwoByteTail(b[0], b[1]);
    } else if |b| >= 3 {
      DecodeEncodeGroups(b[3..]);
      DecodeEncodeFront(b);
      assert b == b[..3] + b[3..];
    }
  }

  /** Stripping the padding that completes unpadded symbols leaves the symbols. */
  lemma UnpadSymbols(g: string, rem: nat)
    requires AllAlphabet(g) && rem < 3
    requires |g| % 4 == TailLength(rem)
    ensures StripPadding(g + Padding(rem)) == g
  {
    if rem == 0 {
      assert g + Padding(rem) == g;
      if |g| > 0 {
        assert IsAlphabetChar(g[|g| - 1]);
      }
    } else if rem == 1 {
      assert (g + "==")[|g|..] == "==";
      assert (g + "==")[..|g|] == g;
    } else {
      var s := g + "=";
      assert s[|s| - 1] == PadChar;
      assert s[|s| - 2] == g[|g| - 1];
      assert IsAlphabetChar(g[|g| - 1]);
      assert s[..|s| - 1] == g;
    }
  }

  /** Stripping the padding of an encoding leaves its symbols. */
  lemma UnpadEncode(b: seq<byte>)
    ensures StripPadding(Encode(b)) == EncodeGroups(b)
  {
    EncodeGroupsLength(b);
    GroupRemainder(|b| / 3, TailLength(|b| % 3));
    UnpadSymbols(EncodeGroups(b), |b| % 3);
  }

  /** Text without whitespace or `=` is rejected when one of its characters is
      outside the alphabet. */
  lemma DecodeRejectsForeign(s: string, i: nat)
    requires forall j :: 0 <= j < |s| ==> !IsAsciiWhitespace(s[j]) && s[j] != PadChar
    requires i < |s| && !IsAlphabetChar(s[i])
    ensures Decode(s).None?
  {
    assert StripWhitespace(s) == s;
    assert s[|s| - 1] != PadChar;
    assert Unpadded(s) == s;
  }

  /** Whitespace stripping leaves an encoding alone. */
  lemma EncodedHasNoWhitespace(b: seq<byte>)
    ensures StripWhitespace(Encode(b)) == Encode(b)
  {
  }

  /** Round trip: `base64ToBuffer(bufferToBase64(b))` gives back `b`. */
  lemma DecodeEncode(b: seq<byte>)
    ensures Decode(Encode(b)) == Some(b)
  {
    EncodedHasNoWhitespace(b);
    UnpadEncode(b);
    DecodeEncodeGroups(b);
  }
}
