/** Strings of '0' and '1' characters read as unsigned binary numbers, and
    the substrings the decoder cuts out of them. */
module BinString {
  import opened Bits

  predicate IsBits(b: string) {
    forall i | 0 <= i < |b| :: b[i] == '0' || b[i] == '1'
  }

  /** `binStringToInt`: a '1' at distance i from the end of the string adds
      2^i; every other character adds nothing. */
  function BinStringToInt(s: string): (n: nat)
    ensures n < Pow2(|s|)
  {
    if s == [] then 0
    else 2 * BinStringToInt(s[..|s| - 1]) + (if s[|s| - 1] == '1' then 1 else 0)
  }

  /** A four-character string read as binary: 8, 4, 2 and 1 per '1'. */
  lemma Bin4(b: string)
    requires |b| == 4
    ensures BinStringToInt(b) == (if b[0] == '1' then 8 else 0) + (if b[1] == '1' then 4 else 0)
                                 + (if b[2] == '1' then 2 else 0) + (if b[3] == '1' then 1 else 0)
  {
    var b1, b2, b3 := b[..1], b[..2], b[..3];
    assert b1[..0] == [] && b2[..1] == b1 && b3[..2] == b2 && b[..3] == b3;
    assert BinStringToInt(b1) == if b[0] == '1' then 1 else 0;
    assert BinStringToInt(b2) == 2 * BinStringToInt(b1) + (if b[1] == '1' then 1 else 0);
    assert BinStringToInt(b3) == 2 * BinStringToInt(b2) + (if b[2] == '1' then 1 else 0);
  }

  /** Appending one more character doubles the value and adds its bit. */
  lemma AppendBit(x: int, y: int, m: int, bit: int)
    ensures 2 * (x * m + y) + bit == x * (2 * m) + (2 * y + bit)
  {
  }

  lemma {:induction false} BinStringToIntConcat(a: string, b: string)
    ensures BinStringToInt(a + b) == BinStringToInt(a) * Pow2(|b|) + BinStringToInt(b)
  {
    if b == [] {
      assert a + b == a;
    } else {
      var p, last := b[..|b| - 1], b[|b| - 1];
      var ab := a + b;
      assert ab[..|ab| - 1] == a + p && ab[|ab| - 1] == last;
      BinStringToIntConcat(a, p);
      AppendBit(BinStringToInt(a), BinStringToInt(p), Pow2(|p|), if last == '1' then 1 else 0);
    }
  }


  /** The characters [pos, pos + len) of a bit string, read as binary, are
      the value shifted right by the bits after them, modulo 2^len. */
  lemma BinField(b: string, pos: nat, len: nat)
    requires pos + len <= |b|
    ensures BinStringToInt(b[pos..pos + len])
         == (BinStringToInt(b) / Pow2(|b| - pos - len)) % Pow2(len)
  {
    var x, y, z := b[..pos], b[pos..pos + len], b[pos + len..];
    assert b == (x + y) + z;
    BinStringToIntConcat(x + y, z);
    BinStringToIntConcat(x, y);
    DivModUnique(BinStringToInt(x + y), Pow2(|z|), BinStringToInt(z));
    DivModUnique(BinStringToInt(x), Pow2(|y|), BinStringToInt(y));
  }

  /** The last `len` characters of a bit string hold its value modulo 2^len. */
  lemma BinSuffix(b: string, len: nat)
    requires len <= |b|
    ensures BinStringToInt(b[|b| - len..]) == BinStringToInt(b) % Pow2(len)
  {
    var x, y := b[..|b| - len], b[|b| - len..];
    assert b == x + y;
    BinStringToIntConcat(x, y);
    DivModUnique(BinStringToInt(x), Pow2(len), BinStringToInt(y));
  }

  /** The first `len` characters of a bit string hold its value shifted
      right by the remaining |b| - len bits. */
  lemma BinPrefix(b: string, len: nat)
    requires len <= |b|
    ensures BinStringToInt(b[..len]) == BinStringToInt(b) / Pow2(|b| - len)
  {
    var x, y := b[..len], b[len..];
    assert b == x + y;
    BinStringToIntConcat(x, y);
    DivModUnique(BinStringToInt(x), Pow2(|y|), BinStringToInt(y));
  }

  /** `std::string::substr(pos, count)` for pos <= |s| (a larger pos throws):
      at most `count` characters starting at `pos`. */
  function Substr(s: string, pos: nat, count: nat): (r: string)
    requires pos <= |s|
    ensures |r| == if pos + count <= |s| then count else |s| - pos
    ensures r == s[pos..pos + |r|]
  {
    if pos + count <= |s| then s[pos..pos + count] else s[pos..]
  }
}
