/** Random strings drawn from a fixed alphabet: paste keys (`generateKey` in
    src/lib/crypto.ts) and paste ids (`generateId` in src/app/api/paste/route.ts).
    The entropy source `crypto.getRandomValues` is replaced by its output: one
    random byte per character. */
module Keys {
  import opened Common

  /** The 64 key symbols, `A`-`Z`, `a`-`z`, `0`-`9`, `_` and `-` in this order:
      URL-safe, so a key can travel in a URL fragment. */
  const KeyAlphabet: string := UpperLetters + LowerLetters + Digits + "_-"

  /** The 62 id symbols, `A`-`Z`, `a`-`z`, `0`-`9` in this order. */
  const IdAlphabet: string := UpperLetters + LowerLetters + Digits

  /** Id length `generateUniqueId` asks for, and the default of `generateId`. */
  const IdLength: nat := 8

  predicate IsAlphanumeric(c: char)
  {
    ('A' <= c <= 'Z') || ('a' <= c <= 'z') || ('0' <= c <= '9')
  }

  predicate IsKeyChar(c: char)
  {
    IsAlphanumeric(c) || c == '_' || c == '-'
  }

  lemma KeyAlphabetShape()
    ensures |KeyAlphabet| == 64 && forall i :: 0 <= i < 64 ==> IsKeyChar(KeyAlphabet[i])
  {
    AsciiRuns();
    forall i | 0 <= i < 64 ensures IsKeyChar(KeyAlphabet[i]) {
      if i < 26 {
        assert KeyAlphabet[i] == UpperLetters[i];
      } else if i < 52 {
        assert KeyAlphabet[i] == LowerLetters[i - 26];
      } else if i < 62 {
        assert KeyAlphabet[i] == Digits[i - 52];
      }
    }
  }

  lemma IdAlphabetShape()
    ensures |IdAlphabet| == 62 && forall i :: 0 <= i < 62 ==> IsAlphanumeric(IdAlphabet[i])
  {
    AsciiRuns();
    forall i | 0 <= i < 62 ensures IsAlphanumeric(IdAlphabet[i]) {
      if i < 26 {
        assert IdAlphabet[i] == UpperLetters[i];
      } else if i < 52 {
        assert IdAlphabet[i] == LowerLetters[i - 26];
      } else {
        assert IdAlphabet[i] == Digits[i - 52];
      }
    }
  }

  /** One symbol per random byte: the byte's value modulo the alphabet size
      picks the symbol. */
  function Draw(alphabet: string, random: seq<byte>): (r: string)
    requires |alphabet| > 0
    ensures |r| == |random|
    ensures forall i :: 0 <= i < |r| ==> r[i] == alphabet[random[i] % |alphabet|]
    decreases |random|
  {
    if |random| == 0 then ""
    else [alphabet[random[0] % |alphabet|]] + Draw(alphabet, random[1..])
  }

  /** `generateKey(n)` given the `n` bytes it draws. */
  function GenerateKey(random: seq<byte>): (key: string)
    ensures |key| == |random|
    ensures forall i :: 0 <= i < |key| ==> key[i] == KeyAlphabet[random[i] % 64]
    ensures forall i :: 0 <= i < |key| ==> IsKeyChar(key[i])
    ensures Free(key, '#') && Free(key, ':')
  {
    KeyAlphabetShape();
    Draw(KeyAlphabet, random)
  }

  /** `generateId(n)` given the `n` bytes it draws. */
  function GenerateId(random: seq<byte>): (id: string)
    ensures |id| == |random|
    ensures forall i :: 0 <= i < |id| ==> id[i] == IdAlphabet[random[i] % 62]
    ensures forall i :: 0 <= i < |id| ==> IsAlphanumeric(id[i])
  {
    IdAlphabetShape();
    Draw(IdAlphabet, random)
  }

  /** The byte values that select symbol `k` of an alphabet of `m` symbols. */
  function Preimages(m: nat, k: nat): set<int>
    requires m > 0
  {
    set b: int | 0 <= b < 256 && b % m == k
  }

  /** Four distinct numbers form a set of four. */
  lemma CardinalityOfFour(a: int, b: int, c: int, d: int)
    requires a < b < c < d
    ensures |{a, b, c, d}| == 4
  {
    assert {a, b, c, d} == {a, b, c} + {d};
    assert {a, b, c} == {a, b} + {c};
    assert {a, b} == {a} + {b};
  }

  /** 64 divides 256: every key symbol is chosen by exactly four byte values,
      so a uniformly random byte yields a uniformly random key symbol. */
  lemma KeyDrawUnbiased(k: nat)
    requires k < 64
    ensures |Preimages(|KeyAlphabet|, k)| == 4
  {
    KeyAlphabetShape();
    var p := Preimages(64, k);
    forall b | b in p ensures b in {k, k + 64, k + 128, k + 192} {
      assert b == b / 64 * 64 + k;
    }
    assert p == {k, k + 64, k + 128, k + 192};
    CardinalityOfFour(k, k + 64, k + 128, k + 192);
  }

  /** 62 does not divide 256: the first eight id symbols (`A` to `H`) are each
      chosen by five byte values, the other 54 by four. */
  lemma IdDrawBias(k: nat)
    requires k < 62
    ensures |Preimages(|IdAlphabet|, k)| == if k < 8 then 5 else 4
  {
    IdAlphabetShape();
    var p := Preimages(62, k);
    var four := {k, k + 62, k + 124, k + 186};
    CardinalityOfFour(k, k + 62, k + 124, k + 186);
    if k < 8 {
      forall b | b in p ensures b in four + {k + 248} {
        assert b == b / 62 * 62 + k;
      }
      assert p == four + {k + 248};
    } else {
      forall b | b in p ensures b in four {
        assert b == b / 62 * 62 + k;
      }
      assert p == four;
    }
  }
}
