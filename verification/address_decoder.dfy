/** Decoding of a trace address into the offset, index and tag fields, done
    as the simulator does it: pad the hex string to eight digits, expand it
    into a string of '0'/'1' characters, cut substrings out of that and read
    each as an unsigned binary number. */
module AddressDecoder {
  import opened Bits
  import opened BinString
  import opened CacheLine

  /** 2^64: `size_t` arithmetic wraps modulo this. */
  const SizeModulus: int := 0x1_0000_0000_0000_0000

  predicate IsHexDigit(c: char) {
    '0' <= c <= '9' || 'a' <= c <= 'f'
  }

  /** A string of lowercase hex digits (the only digits the expansion knows). */
  predicate IsHex(s: string) {
    forall i | 0 <= i < |s| :: IsHexDigit(s[i])
  }

  /** A full 32-bit address as the decoder receives it: eight hex digits. */
  predicate IsAddress(s: string) {
    |s| == 8 && IsHex(s)
  }

  function HexDigitValue(c: char): (v: nat)
    requires IsHexDigit(c)
    ensures v < 16
  {
    if c <= '9' then c as int - '0' as int else c as int - 'a' as int + 10
  }

  /** The number a hex string denotes, most significant digit first: the
      reference against which the bit-string route is checked. */
  function HexValue(s: string): (v: nat)
    requires IsHex(s)
    ensures v < Pow2(4 * |s|)
  {
    if s == [] then 0
    else
      var p := s[..|s| - 1];
      Pow2Add(4, 4 * |p|);
      assert Pow2(4) == 16;
      16 * HexValue(p) + HexDigitValue(s[|s| - 1])
  }

  function Zeros(n: nat): (z: string)
    ensures |z| == n
    ensures forall i | 0 <= i < n :: z[i] == '0'
  {
    if n == 0 then "" else Zeros(n - 1) + "0"
  }

  /** `Access::setAddress`: prepend 8 - |t| zeros. The source computes
      8 - |t| in `size_t`, so a string longer than eight characters is
      outside what it can handle. */
  function PadAddress(t: string): (s: string)
    requires |t| <= 8
    ensures |s| == 8
    ensures IsHex(t) ==> IsAddress(s) && HexValue(s) == HexValue(t)
  {
    if IsHex(t) then
      LeadingZerosKeepValue(8 - |t|, t);
      Zeros(8 - |t|) + t
    else
      Zeros(8 - |t|) + t
  }

  lemma {:induction false} ZerosHaveNoValue(n: nat)
    ensures IsHex(Zeros(n)) && HexValue(Zeros(n)) == 0
  {
    if n > 0 {
      ZerosHaveNoValue(n - 1);
      assert Zeros(n)[..n - 1] == Zeros(n - 1);
    }
  }

  lemma {:induction false} LeadingZerosKeepValue(n: nat, t: string)
    requires IsHex(t)
    ensures IsHex(Zeros(n) + t) && HexValue(Zeros(n) + t) == HexValue(t)
  {
    if t == [] {
      ZerosHaveNoValue(n);
      assert Zeros(n) + t == Zeros(n);
    } else {
      var p := t[..|t| - 1];
      LeadingZerosKeepValue(n, p);
      assert (Zeros(n) + t)[..|Zeros(n) + t| - 1] == Zeros(n) + p;
    }
  }

  /** '1' for a set bit, '0' for a clear one. */
  function BitChar(bit: nat): (c: char)
    ensures c == '0' || c == '1'
  {
    if bit == 1 then '1' else '0'
  }

  /** The four-character group `parseHex` emits for one character: the
      digit's value in binary for a lowercase hex digit, nothing otherwise. */
  function DigitBits(c: char): (b: string)
    ensures IsBits(b)
    ensures |b| == if IsHexDigit(c) then 4 else 0
  {
    if IsHexDigit(c) then
      var v := HexDigitValue(c);
      [BitChar(v / 8), BitChar(v / 4 % 2), BitChar(v / 2 % 2), BitChar(v % 2)]
    else
      ""
  }

  /** The group of a hex digit is that digit's value in binary. */
  lemma DigitBitsValue(c: char)
    requires IsHexDigit(c)
    ensures BinStringToInt(DigitBits(c)) == HexDigitValue(c)
  {
    Bin4(DigitBits(c));
  }

  /** `parseHex`: the concatenation of the groups of the characters, in order. */
  function ParseHex(s: string): (b: string)
    ensures IsBits(b)
    ensures |b| <= 4 * |s|
    ensures IsHex(s) ==> |b| == 4 * |s|
  {
    if s == [] then ""
    else ParseHex(s[..|s| - 1]) + DigitBits(s[|s| - 1])
  }

  lemma SliceOfLeft<T>(x: seq<T>, y: seq<T>, lo: nat, hi: nat)
    requires lo <= hi <= |x|
    ensures (x + y)[lo..hi] == x[lo..hi]
  {
  }

  lemma SliceOfRight<T>(x: seq<T>, y: seq<T>)
    ensures (x + y)[|x|..|x| + |y|] == y
  {
  }

  /** Digit i of a hex string occupies characters [4i, 4i + 4) of its expansion. */
  lemma {:induction false} ParseHexDigitAt(s: string, i: nat)
    requires IsHex(s) && i < |s|
    ensures ParseHex(s)[4 * i..4 * i + 4] == DigitBits(s[i])
  {
    var p, c := s[..|s| - 1], s[|s| - 1];
    var bp, bc := ParseHex(p), DigitBits(c);
    if i < |p| {
      ParseHexDigitAt(p, i);
      SliceOfLeft(bp, bc, 4 * i, 4 * i + 4);
    } else {
      SliceOfRight(bp, bc);
    }
  }

  /** Reading the expansion of a hex string as binary gives its hex value. */
  lemma {:induction false} ParseHexValue(s: string)
    requires IsHex(s)
    ensures |ParseHex(s)| == 4 * |s|
    ensures BinStringToInt(ParseHex(s)) == HexValue(s)
  {
    if s != [] {
      var p, c := s[..|s| - 1], s[|s| - 1];
      var bp, bc := ParseHex(p), DigitBits(c);
      assert ParseHex(s) == bp + bc;
      ParseHexValue(p);
      BinStringToIntConcat(bp, bc);
      DigitBitsValue(c);
      assert |bc| == 4 && Pow2(4) == 16;
      assert BinStringToInt(bp + bc) == BinStringToInt(bp) * 16 + BinStringToInt(bc);
      assert HexValue(s) == 16 * HexValue(p) + HexDigitValue(c);
    }
  }

  /** The cache geometry read from the configuration file: associativity
      (`setSize_`), line size and total size in bytes. */
  datatype Geometry = Geometry(setSize: nat, lineSize: nat, cacheSize: nat)
  {
    /** What the constructor needs: no division by zero and no log2 of 0. */
    predicate Sized() {
      setSize >= 1 && lineSize >= 1 && cacheSize >= 1
    }

    /** `calcNumSets`: how many whole sets of `setSize` lines of
        `lineSize` bytes fit in the cache. */
    function NumSets(): (n: nat)
      requires Sized()
      ensures n * (setSize * lineSize) <= cacheSize < (n + 1) * (setSize * lineSize)
    {
      var d := setSize * lineSize;
      var n := cacheSize / d;
      assert cacheSize == n * d + cacheSize % d;
      assert (n + 1) * d == n * d + d;
      n
    }

    /** `offsetBits_`: log2 of the line size. */
    function OffsetBits(): (b: nat)
      requires Sized()
      ensures Pow2(b) <= lineSize < Pow2(b + 1)
    {
      FloorLog2(lineSize)
    }

    /** `indexBits_`, as the source computes it: log2 of the whole cache
        size, not of the number of sets. */
    function IndexBits(): (b: nat)
      requires Sized()
      ensures Pow2(b) <= cacheSize < Pow2(b + 1)
    {
      FloorLog2(cacheSize)
    }

    /** `tagBits_`: 32 - indexBits + log2(associativity), in wrapping
        `size_t` arithmetic; it only wraps when indexBits exceeds 32 plus
        log2(associativity). */
    function TagBits(): (b: nat)
      requires Sized()
      ensures b < SizeModulus
      ensures var wide := 32 - IndexBits() + FloorLog2(setSize);
        0 <= wide < SizeModulus ==> b == wide
    {
      var wide := 32 - IndexBits() + FloorLog2(setSize);
      if 0 <= wide < SizeModulus then
        DivModUnique(0, SizeModulus, wide);
        wide % SizeModulus
      else
        wide % SizeModulus
    }

    /** What decoding needs: a non-zero modulus for the index and offset and
        index fields that fit in 32 bits (otherwise `substr` throws). */
    predicate Decodable() {
      Sized() && NumSets() >= 1 && OffsetBits() + IndexBits() <= 32
    }
  }

  /** `numSets_ * setSize_` lines in all, one per `lineSize_` bytes, whenever
      the set size times the line size divides the cache size. */
  lemma GeometryBlocks(g: Geometry)
    requires g.Sized() && g.cacheSize % (g.setSize * g.lineSize) == 0
    ensures g.NumSets() * g.setSize * g.lineSize == g.cacheSize
    ensures g.NumSets() * g.setSize == g.cacheSize / g.lineSize
  {
    var n, s, l := g.NumSets(), g.setSize, g.lineSize;
    assert n * (s * l) == g.cacheSize;
    assert n * s * l == g.cacheSize;
    DivModUnique(n * s, l, 0);
  }

  /** The associativity is at most the cache size, so its log2 is at most
      indexBits. */
  lemma SetSizeFits(g: Geometry)
    requires g.Decodable()
    ensures FloorLog2(g.setSize) <= g.IndexBits()
  {
    FactorAtMost(g.setSize, g.lineSize, g.cacheSize);
    FloorLog2Monotone(g.setSize, g.cacheSize);
  }

  /** One set's worth of bytes fits in the cache, so log2(associativity) +
      offsetBits is at most indexBits. */
  lemma SetBytesFit(g: Geometry)
    requires g.Decodable()
    ensures FloorLog2(g.setSize) + g.OffsetBits() <= g.IndexBits()
  {
    var a, b := FloorLog2(g.setSize), g.OffsetBits();
    Pow2Add(a, b);
    MulMonotone(Pow2(a), g.setSize, Pow2(b));
    MulMonotone(Pow2(b), g.lineSize, g.setSize);
    assert Pow2(a + b) <= g.setSize * g.lineSize;
    QuotientAtLeastOne(g.cacheSize, g.setSize * g.lineSize);
    if g.IndexBits() < a + b {
      Pow2Monotone(g.IndexBits() + 1, a + b);
    }
  }

  /** In a decodable geometry `tagBits_` does not wrap and is at most 32.
      It is log2(associativity) + offsetBits bits wider than the 32 -
      offsetBits - indexBits bits above the index field, so it takes in that
      many leading bits of the index field, but it never reaches the offset. */
  lemma TagWidth(g: Geometry)
    requires g.Decodable()
    ensures g.TagBits() == 32 - g.IndexBits() + FloorLog2(g.setSize) <= 32
    ensures g.TagBits() == (32 - g.OffsetBits() - g.IndexBits()) + FloorLog2(g.setSize) + g.OffsetBits()
    ensures g.TagBits() <= 32 - g.OffsetBits()
  {
    SetSizeFits(g);
    SetBytesFit(g);
  }

  /** The number of bits below a field, as the field's own position gives it. */
  lemma LowBits(b: string, pos: nat, len: nat, low: nat)
    requires pos + len <= |b| && |b| - pos - len == low
    ensures Pow2(|b| - pos - len) == Pow2(low)
  {
  }

  /** A field of a bit string whose value is known, in terms of that value. */
  lemma FieldOfValue(b: string, v: nat, pos: nat, len: nat, low: nat)
    requires pos + len <= |b| && |b| - pos - len == low
    requires BinStringToInt(b) == v
    ensures BinStringToInt(b[pos..pos + len]) == (v / Pow2(low)) % Pow2(len)
  {
    BinField(b, pos, len);
    LowBits(b, pos, len, low);
  }

  /** The index field before the reduction modulo the number of sets. */
  function IndexField(g: Geometry, s: string): (n: nat)
    requires g.Sized() && g.OffsetBits() + g.IndexBits() <= 32
    requires 32 - g.OffsetBits() - g.IndexBits() <= |ParseHex(s)|
    ensures n < Pow2(g.IndexBits())
    ensures IsAddress(s) ==>
      n == (HexValue(s) / Pow2(g.OffsetBits())) % Pow2(g.IndexBits())
  {
    var b := ParseHex(s);
    var ib := g.IndexBits();
    var start := 32 - g.OffsetBits() - ib;
    var field := Substr(b, start, ib);
    Pow2Monotone(|field|, ib);
    if IsAddress(s) then
      ParseHexValue(s);
      assert field == b[start..start + ib];
      FieldOfValue(b, HexValue(s), start, ib, g.OffsetBits());
      BinStringToInt(field)
    else
      BinStringToInt(field)
  }

  /** `calcOffset`: the last offsetBits bits of the address. */
  function CalcOffset(g: Geometry, s: string): (offset: nat)
    requires g.Sized() && g.OffsetBits() <= 32
    requires 32 - g.OffsetBits() <= |ParseHex(s)|
    ensures offset < Pow2(g.OffsetBits())
    ensures IsAddress(s) ==> offset == HexValue(s) % Pow2(g.OffsetBits())
  {
    var b := ParseHex(s);
    var ob := g.OffsetBits();
    var field := Substr(b, 32 - ob, ob);
    Pow2Monotone(|field|, ob);
    if IsAddress(s) then
      ParseHexValue(s);
      assert field == b[|b| - ob..];
      BinSuffix(b, ob);
      BinStringToInt(field)
    else
      BinStringToInt(field)
  }

  /** `calcIndex`: the indexBits bits just above the offset, reduced modulo
      the number of sets. */
  function CalcIndex(g: Geometry, s: string): (index: nat)
    requires g.Decodable()
    requires 32 - g.OffsetBits() - g.IndexBits() <= |ParseHex(s)|
    ensures index < g.NumSets()
    ensures IsAddress(s) ==>
      index == (HexValue(s) / Pow2(g.OffsetBits())) % Pow2(g.IndexBits()) % g.NumSets()
  {
    IndexField(g, s) % g.NumSets()
  }

  /** `calcTag`: the first tagBits bits of the address (all 32 when tagBits
      is larger, as `substr` stops at the end of the string). */
  function CalcTag(g: Geometry, s: string): (tag: nat)
    requires g.Sized()
    ensures IsAddress(s) && g.TagBits() <= 32 ==>
      tag == HexValue(s) / Pow2(32 - g.TagBits())
    ensures IsAddress(s) && g.TagBits() > 32 ==> tag == HexValue(s)
  {
    var b := ParseHex(s);
    var field := Substr(b, 0, g.TagBits());
    if IsAddress(s) then
      ParseHexValue(s);
      if g.TagBits() <= 32 then
        assert field == b[..g.TagBits()];
        BinPrefix(b, g.TagBits());
        BinStringToInt(field)
      else
        assert field == b;
        BinStringToInt(field)
    else
      BinStringToInt(field)
  }

  /** The offset, the unreduced index and the bits above them put back
      together give the whole address; the bits above the index field are
      the decoded tag without its last log2(associativity) + offsetBits
      bits, the ones it shares with the index field. */
  lemma FieldsReassemble(g: Geometry, s: string)
    requires g.Decodable() && IsAddress(s)
    ensures var ob, ib := g.OffsetBits(), g.IndexBits();
      HexValue(s) == (HexValue(s) / Pow2(ob + ib)) * Pow2(ob + ib)
                     + IndexField(g, s) * Pow2(ob) + CalcOffset(g, s)
    ensures var ob, ib := g.OffsetBits(), g.IndexBits();
      CalcTag(g, s) / Pow2(FloorLog2(g.setSize) + ob) == HexValue(s) / Pow2(ob + ib)
  {
    var ob, ib := g.OffsetBits(), g.IndexBits();
    Pow2Add(ob, ib);
    SplitDigits(HexValue(s), Pow2(ob), Pow2(ib));
    TagAboveIndex(g, s);
  }

  /** The decoded tag shifted right by log2(associativity) + offsetBits is
      the part of the address above the index field. */
  lemma TagAboveIndex(g: Geometry, s: string)
    requires g.Decodable() && IsAddress(s)
    ensures CalcTag(g, s) / Pow2(FloorLog2(g.setSize) + g.OffsetBits())
         == HexValue(s) / Pow2(g.OffsetBits() + g.IndexBits())
  {
    TagWidth(g);
    TagValue(g, s);
    TagShift(g, CalcTag(g, s), HexValue(s));
  }

  /** The tag of an address when `tagBits_` does not wrap. */
  lemma TagValue(g: Geometry, s: string)
    requires g.Sized() && IsAddress(s) && g.TagBits() <= 32
    ensures CalcTag(g, s) == HexValue(s) / Pow2(32 - g.TagBits())
  {
  }

  /** A tag cut at bit 32 - tagBits, shifted right by log2(associativity) +
      offsetBits, is the address shifted past the index field, whenever
      `tagBits_` does not wrap. */
  lemma TagShift(g: Geometry, tag: nat, v: nat)
    requires g.Sized()
    requires g.TagBits() <= 32 && g.TagBits() + g.IndexBits() == 32 + FloorLog2(g.setSize)
    requires tag == v / Pow2(32 - g.TagBits())
    ensures tag / Pow2(FloorLog2(g.setSize) + g.OffsetBits())
         == v / Pow2(g.OffsetBits() + g.IndexBits())
  {
    ShiftTwice(v, 32 - g.TagBits(), FloorLog2(g.setSize) + g.OffsetBits(),
               tag, g.OffsetBits() + g.IndexBits());
  }

  /** Shifting right by p bits and then by q bits is shifting by p + q. */
  lemma ShiftTwice(v: nat, p: nat, q: nat, shifted: nat, total: nat)
    requires shifted == v / Pow2(p) && total == p + q
    ensures shifted / Pow2(q) == v / Pow2(total)
  {
    DivDiv(v, Pow2(p), Pow2(q));
    Pow2Add(p, q);
  }

  /** 2^c split into 2^a * 2^b parts gives 2^(c - a - b) of them. */
  lemma PowerQuotient(a: nat, b: nat, c: nat)
    requires a + b <= c
    ensures Pow2(c) / (Pow2(a) * Pow2(b)) == Pow2(c - a - b)
  {
    Pow2Add(a, b);
    Pow2Add(c - a - b, a + b);
    DivModUnique(Pow2(c - a - b), Pow2(a) * Pow2(b), 0);
  }

  /** Taking the ib bits above bit ob and reducing them modulo n = 2^k,
      k <= ib, keeps the k bits above bit ob. */
  lemma ReduceTwice(v: nat, ob: nat, ib: nat, k: nat, n: nat)
    requires k <= ib && n == Pow2(k)
    ensures (v / Pow2(ob)) % Pow2(ib) % n == (v / Pow2(ob)) % Pow2(k)
  {
    Pow2Add(k, ib - k);
    ModMod(v / Pow2(ob), Pow2(k), Pow2(ib - k));
  }

  /** The widths of a power-of-two geometry: log2 of each size, and
      2^(c - a - b) sets. */
  lemma PowerOfTwoGeometry(g: Geometry, a: nat, b: nat, c: nat)
    requires g.Decodable()
    requires g.setSize == Pow2(a) && g.lineSize == Pow2(b) && g.cacheSize == Pow2(c)
    ensures FloorLog2(g.setSize) == a && g.OffsetBits() == b && g.IndexBits() == c
    ensures a + b <= c && g.NumSets() == Pow2(c - a - b)
    ensures g.TagBits() == 32 - (c - a)
  {
    FloorLog2OfPow2(a);
    FloorLog2OfPow2(b);
    FloorLog2OfPow2(c);
    SetBytesFit(g);
    TagWidth(g);
    PowerQuotient(a, b, c);
  }

  /** The three fields of an address in a power-of-two geometry, each as
      a bit range of the address value. */
  lemma PowerOfTwoFields(g: Geometry, s: string, a: nat, b: nat, c: nat)
    requires g.Decodable() && IsAddress(s)
    requires g.setSize == Pow2(a) && g.lineSize == Pow2(b) && g.cacheSize == Pow2(c)
    ensures a + b <= c && g.TagBits() <= 32
    ensures 32 - g.TagBits() == g.OffsetBits() + (c - a - b)
    ensures CalcTag(g, s) == HexValue(s) / Pow2(32 - g.TagBits())
    ensures CalcIndex(g, s) == (HexValue(s) / Pow2(g.OffsetBits())) % Pow2(c - a - b)
    ensures CalcOffset(g, s) == HexValue(s) % Pow2(g.OffsetBits())
  {
    PowerOfTwoGeometry(g, a, b, c);
    IndexOfPowerOfTwo(g, s, a, b, c);
    TagValue(g, s);
  }

  /** With power-of-two sizes the index is the log2(numSets) bits above
      the offset. */
  lemma IndexOfPowerOfTwo(g: Geometry, s: string, a: nat, b: nat, c: nat)
    requires g.Decodable() && IsAddress(s)
    requires g.setSize == Pow2(a) && g.lineSize == Pow2(b) && g.cacheSize == Pow2(c)
    ensures a + b <= c
    ensures CalcIndex(g, s) == (HexValue(s) / Pow2(g.OffsetBits())) % Pow2(c - a - b)
  {
    PowerOfTwoGeometry(g, a, b, c);
    ReduceTwice(HexValue(s), g.OffsetBits(), g.IndexBits(), c - a - b, g.NumSets());
  }

  /** Building a trace record (`operator()`, after tokenizing): an
      operation, the padded address and its three decoded fields, with the
      state flags of a fresh `Access(op)`. */
  function DecodeEntry(g: Geometry, op: Op, t: string): (a: Access)
    requires g.Decodable() && |t| <= 8
    requires 32 - g.OffsetBits() <= |ParseHex(PadAddress(t))|
    ensures Fresh(a) && a.op == op && a.address == PadAddress(t)
    ensures a.index < g.NumSets()
    ensures IsHex(t) ==>
      a.offset == HexValue(t) % Pow2(g.OffsetBits()) &&
      a.index == (HexValue(t) / Pow2(g.OffsetBits())) % Pow2(g.IndexBits()) % g.NumSets() &&
      g.TagBits() <= 32 && a.tag == HexValue(t) / Pow2(32 - g.TagBits())
  {
    var s := PadAddress(t);
    var offset, index, tag := CalcOffset(g, s), CalcIndex(g, s), CalcTag(g, s);
    if IsHex(t) then
      TagWidth(g);
      Access(op, s, offset, index, tag, 0, true, false)
    else
      Access(op, s, offset, index, tag, 0, true, false)
  }
}
