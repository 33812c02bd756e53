/** BLAKE2b as RFC 7693 defines it, written as pure functions: the constants
    (sections 2.6 and 2.7), little-endian byte/word conversion (section 2.4),
    the parameter block (section 2.5), the mixing function G (section 3.1),
    the compression function F (section 3.2) and the whole-message digest
    (section 3.3). The streaming object in module Blake2bImpl is proved
    against these definitions.

    A note on form. Several definitions here (SigmaRow, GWords, G, Round, F
    and Word64) are a call to a helper with an extra `delay` argument that
    counts down to 0 and changes nothing on the way: the helper's value is
    the definition written out at delay 0. This is only a device for the
    verifier, which otherwise expands the SIGMA table, the eight steps of G
    or the twelve rounds of F wherever the name occurs and runs out of
    resource. Each such definition has an unfolding lemma (SigmaRowIsTableRow,
    GWordsDefinition, GUpdatesFour, RoundDefinition, FDefinition) that states
    the written-out definition, and proofs call it where they need it. */
module Blake2bSpec {

  type Byte = bv8
  type Word = bv64

  /** An index into the 16-word working vector or the 16-word message block. */
  type Index16 = k: nat | k < 16

  /** Block size bb of BLAKE2b in bytes. */
  const BLOCK_BYTES: nat := 128

  const TWO_64: int := 0x1_0000_0000_0000_0000
  const TWO_128: int := 0x1_0000_0000_0000_0000_0000_0000_0000_0000

  /** Initialization vector (RFC 7693 section 2.6). */
  const IV: seq<Word> := [
    0x6A09E667F3BCC908,
    0xBB67AE8584CAA73B,
    0x3C6EF372FE94F82B,
    0xA54FF53A5F1D36F1,
    0x510E527FADE682D1,
    0x9B05688C2B3E6C1F,
    0x1F83D9ABFB41BD6B,
    0x5BE0CD19137E2179
  ]

  /** Message schedule (RFC 7693 section 2.7): row r selects, for round r,
      which message word feeds each of the 16 inputs of the eight G calls. */
  const SIGMA: seq<seq<Index16>> := [
    [ 0,  1,  2,  3,  4,  5,  6,  7,  8,  9, 10, 11, 12, 13, 14, 15],
    [14, 10,  4,  8,  9, 15, 13,  6,  1, 12,  0,  2, 11,  7,  5,  3],
    [11,  8, 12,  0,  5,  2, 15, 13, 10, 14,  3,  6,  7,  1,  9,  4],
    [ 7,  9,  3,  1, 13, 12, 11, 14,  2,  6,  5, 10,  4,  0, 15,  8],
    [ 9,  0,  5,  7,  2,  4, 10, 15, 14,  1, 11, 12,  6,  8,  3, 13],
    [ 2, 12,  6, 10,  0, 11,  8,  3,  4, 13,  7,  5, 15, 14,  1,  9],
    [12,  5,  1, 15, 14, 13,  4, 10,  0,  7,  6,  3,  9,  2,  8, 11],
    [13, 11,  7, 14, 12,  1,  3,  9,  5,  0, 15,  4,  8,  6,  2, 10],
    [ 6, 15, 14,  9, 11,  3,  0,  8, 12,  2, 13,  7,  1,  4, 10,  5],
    [10,  2,  8,  4,  7,  6,  1,  5, 15, 11,  9, 14,  3, 12, 13,  0]
  ]

  /** The table has ten rows of sixteen entries. */
  lemma {:induction false} SigmaShape()
    ensures |SIGMA| == 10
    ensures forall r :: 0 <= r < 10 ==> |SIGMA[r]| == 16
  {
  }

  /** Row r of SIGMA, reached after two levels of recursion that change
      nothing, so that the verifier does not expand the 160 table entries
      wherever a round refers to its row. SigmaRowIsTableRow gives the row. */
  function SigmaRow(r: nat): (s: seq<Index16>)
    requires r < 10
    ensures |s| == 16
  {
    RowOfSigma(r, 2)
  }

  function RowOfSigma(r: nat, delay: nat): (s: seq<Index16>)
    requires r < 10
    ensures |s| == 16
  {
    if delay == 0 then SigmaShape(); SIGMA[r] else RowOfSigma(r, delay - 1)
  }

  lemma {:induction false} SigmaRowIsTableRow(r: nat)
    requires r < 10
    ensures SigmaRow(r) == SIGMA[r]
  {
    assert SigmaRow(r) == RowOfSigma(r, 1) == RowOfSigma(r, 0);
  }

  /** The table has ten rows of sixteen entries, all below 16 by their type,
      and every row is a permutation of 0..15: its entries are pairwise distinct. */
  lemma {:induction false} SigmaRowsArePermutations()
    ensures |SIGMA| == 10
    ensures forall r :: 0 <= r < 10 ==> |SIGMA[r]| == 16
    ensures forall r, j, k :: 0 <= r < 10 && 0 <= j < k < 16 ==> SIGMA[r][j] != SIGMA[r][k]
  {
    SigmaRow0(); SigmaRow1(); SigmaRow2(); SigmaRow3(); SigmaRow4();
    SigmaRow5(); SigmaRow6(); SigmaRow7(); SigmaRow8(); SigmaRow9();
  }

  lemma {:induction false} SigmaRow0()
    ensures |SIGMA[0]| == 16 && forall j, k :: 0 <= j < k < 16 ==> SIGMA[0][j] != SIGMA[0][k]
  {
  }

  lemma {:induction false} SigmaRow1()
    ensures |SIGMA[1]| == 16 && forall j, k :: 0 <= j < k < 16 ==> SIGMA[1][j] != SIGMA[1][k]
  {
  }

  lemma {:induction false} SigmaRow2()
    ensures |SIGMA[2]| == 16 && forall j, k :: 0 <= j < k < 16 ==> SIGMA[2][j] != SIGMA[2][k]
  {
  }

  lemma {:induction false} SigmaRow3()
    ensures |SIGMA[3]| == 16 && forall j, k :: 0 <= j < k < 16 ==> SIGMA[3][j] != SIGMA[3][k]
  {
  }

  lemma {:induction false} SigmaRow4()
    ensures |SIGMA[4]| == 16 && forall j, k :: 0 <= j < k < 16 ==> SIGMA[4][j] != SIGMA[4][k]
  {
  }

  lemma {:induction false} SigmaRow5()
    ensures |SIGMA[5]| == 16 && forall j, k :: 0 <= j < k < 16 ==> SIGMA[5][j] != SIGMA[5][k]
  {
  }

  lemma {:induction false} SigmaRow6()
    ensures |SIGMA[6]| == 16 && forall j, k :: 0 <= j < k < 16 ==> SIGMA[6][j] != SIGMA[6][k]
  {
  }

  lemma {:induction false} SigmaRow7()
    ensures |SIGMA[7]| == 16 && forall j, k :: 0 <= j < k < 16 ==> SIGMA[7][j] != SIGMA[7][k]
  {
  }

  lemma {:induction false} SigmaRow8()
    ensures |SIGMA[8]| == 16 && forall j, k :: 0 <= j < k < 16 ==> SIGMA[8][j] != SIGMA[8][k]
  {
  }

  lemma {:induction false} SigmaRow9()
    ensures |SIGMA[9]| == 16 && forall j, k :: 0 <= j < k < 16 ==> SIGMA[9][j] != SIGMA[9][k]
  {
  }

  /* ---- Little-endian conversion (RFC 7693 section 2.4) ---- */

  /** The word whose little-endian bytes are b[off..off + 8]. */
  function LoadWord(b: seq<Byte>, off: nat): Word
    requires off + 8 <= |b|
  {
    (b[off] as Word)
    | ((b[off + 1] as Word) << 8)
    | ((b[off + 2] as Word) << 16)
    | ((b[off + 3] as Word) << 24)
    | ((b[off + 4] as Word) << 32)
    | ((b[off + 5] as Word) << 40)
    | ((b[off + 6] as Word) << 48)
    | ((b[off + 7] as Word) << 56)
  }

  /** The eight little-endian bytes of w, least significant first. */
  function StoreWord(w: Word): (b: seq<Byte>)
    ensures |b| == 8
    ensures LoadWord(b, 0) == w
  {
    [ (w & 0xFF) as Byte,
      ((w >> 8) & 0xFF) as Byte,
      ((w >> 16) & 0xFF) as Byte,
      ((w >> 24) & 0xFF) as Byte,
      ((w >> 32) & 0xFF) as Byte,
      ((w >> 40) & 0xFF) as Byte,
      ((w >> 48) & 0xFF) as Byte,
      ((w >> 56) & 0xFF) as Byte ]
  }

  /** Storing a loaded word gives back the eight bytes it was loaded from. */
  lemma {:induction false} StoreLoadWord(b: seq<Byte>, off: nat)
    requires off + 8 <= |b|
    ensures StoreWord(LoadWord(b, off)) == b[off..off + 8]
  {
  }

  /** The 16 message words m[0..15] of a 128-byte block. */
  function Words(block: seq<Byte>): (m: seq<Word>)
    requires |block| == BLOCK_BYTES
    ensures |m| == 16
  {
    seq(16, j requires 0 <= j < 16 => LoadWord(block, 8 * j))
  }

  /** The little-endian byte image of a word array. */
  function LEBytes(h: seq<Word>): (b: seq<Byte>)
    ensures |b| == 8 * |h|
  {
    if |h| == 0 then [] else StoreWord(h[0]) + LEBytes(h[1..])
  }

  /** Byte 8 * j + k of the image is byte k of word j. */
  lemma {:induction false} LEBytesAt(h: seq<Word>, j: nat, k: nat)
    requires j < |h| && k < 8
    ensures LEBytes(h)[8 * j + k] == StoreWord(h[j])[k]
  {
    if j > 0 {
      LEBytesAt(h[1..], j - 1, k);
      assert h[1..][j - 1] == h[j];
    }
  }

  /** Decoding a block into words and encoding the words again is the identity. */
  lemma {:induction false} LEBytesOfWords(block: seq<Byte>)
    requires |block| == BLOCK_BYTES
    ensures LEBytes(Words(block)) == block
  {
    var m := Words(block);
    forall i | 0 <= i < BLOCK_BYTES
      ensures LEBytes(m)[i] == block[i]
    {
      var j := i / 8;
      LEBytesAt(m, j, i % 8);
      StoreLoadWord(block, 8 * j);
      assert StoreWord(m[j]) == block[8 * j..8 * j + 8];
    }
  }

  /** A word is loaded back from any eight bytes equal to its encoding. */
  lemma {:induction false} LoadStoredWord(b: seq<Byte>, off: nat, w: Word)
    requires off + 8 <= |b|
    requires forall k :: 0 <= k < 8 ==> b[off + k] == StoreWord(w)[k]
    ensures LoadWord(b, off) == w
  {
    var s := StoreWord(w);
    assert b[off] == s[0] && b[off + 1] == s[1] && b[off + 2] == s[2] && b[off + 3] == s[3];
    assert b[off + 4] == s[4] && b[off + 5] == s[5] && b[off + 6] == s[6] && b[off + 7] == s[7];
    assert LoadWord(b, off) == LoadWord(s, 0);
  }

  /** Loading word j back from the byte image gives h[j]. */
  lemma {:induction false} LoadWordOfLEBytes(h: seq<Word>, j: nat)
    requires j < |h|
    ensures LoadWord(LEBytes(h), 8 * j) == h[j]
  {
    var b := LEBytes(h);
    forall k | 0 <= k < 8
      ensures b[8 * j + k] == StoreWord(h[j])[k]
    {
      LEBytesAt(h, j, k);
    }
    LoadStoredWord(b, 8 * j, h[j]);
  }

  /** Encoding 16 words into bytes and decoding them again is the identity. */
  lemma {:induction false} WordsOfLEBytes(h: seq<Word>)
    requires |h| == 16
    ensures |LEBytes(h)| == BLOCK_BYTES && Words(LEBytes(h)) == h
  {
    forall j | 0 <= j < 16
      ensures Words(LEBytes(h))[j] == h[j]
    {
      LoadWordOfLEBytes(h, j);
    }
  }

  /* ---- Parameter block (RFC 7693 section 2.5) ---- */

  /** The 64-byte parameter block of sequential BLAKE2b without salt or
      personalization: digest length, key length, fanout 1, depth 1, then zeros. */
  function ParameterBlock(kk: Byte, nn: Byte): (p: seq<Byte>)
    ensures |p| == 64
  {
    [nn, kk, 1, 1] + seq(60, _ => 0)
  }

  /** The initial chaining value h[0..7]: IV with h[0] mixed with the key
      length kk and the digest length nn. */
  function ParamInit(kk: Byte, nn: Byte): (h: seq<Word>)
    ensures |h| == 8
  {
    IV[0 := IV[0] ^ 0x01010000 ^ ((kk as Word) << 8) ^ (nn as Word)]
  }

  /** Word 0 of the parameter block holds nn, kk, fanout 1 and depth 1. */
  lemma {:induction false} ParameterWordZero(kk: Byte, nn: Byte)
    ensures LoadWord(ParameterBlock(kk, nn), 0) == 0x01010000 ^ ((kk as Word) << 8) ^ (nn as Word)
  {
    var p := ParameterBlock(kk, nn);
    assert p[0] == nn && p[1] == kk && p[2] == 1 && p[3] == 1;
    assert p[4] == 0 && p[5] == 0 && p[6] == 0 && p[7] == 0;
  }

  /** Words 1 to 7 of the parameter block are zero. */
  lemma {:induction false} ParameterWordsZero(kk: Byte, nn: Byte, i: nat)
    requires 1 <= i < 8
    ensures LoadWord(ParameterBlock(kk, nn), 8 * i) == 0
  {
    var p := ParameterBlock(kk, nn);
    assert forall j :: 4 <= j < 64 ==> p[j] == 0;
  }

  /** The initial chaining value is the IV xored word by word with the
      little-endian words of the parameter block. */
  lemma {:induction false} ParamInitIsParameterBlock(kk: Byte, nn: Byte)
    ensures forall i :: 0 <= i < 8 ==> ParamInit(kk, nn)[i] == IV[i] ^ LoadWord(ParameterBlock(kk, nn), 8 * i)
  {
    ParameterWordZero(kk, nn);
    forall i | 1 <= i < 8
      ensures ParamInit(kk, nn)[i] == IV[i] ^ LoadWord(ParameterBlock(kk, nn), 8 * i)
    {
      ParameterWordsZero(kk, nn, i);
    }
  }

  /* ---- Mixing function G (RFC 7693 section 3.1) ---- */

  /** The two kinds of step G is made of: a sum into v[a] or v[c] (modulo
      2^64, as all additions here), and the xor of two words rotated right by
      one of the constants R1..R4 = 32, 24, 16, 63. */
  function Sum3(a: Word, b: Word, x: Word): Word
  {
    a + (b + x)
  }

  function Sum(c: Word, d: Word): Word
  {
    c + d
  }

  function XorRotR1(d: Word, a: Word): Word
  {
    (d ^ a).RotateRight(32)
  }

  function XorRotR2(b: Word, c: Word): Word
  {
    (b ^ c).RotateRight(24)
  }

  function XorRotR3(d: Word, a: Word): Word
  {
    (d ^ a).RotateRight(16)
  }

  function XorRotR4(b: Word, c: Word): Word
  {
    (b ^ c).RotateRight(63)
  }

  /** G of RFC 7693 section 3.1 on the four words it reads and writes,
      v[a], v[b], v[c], v[d], with message words x and y. */
  function GWords(a: Word, b: Word, c: Word, d: Word, x: Word, y: Word): (Word, Word, Word, Word)
  {
    Mixing(a, b, c, d, x, y, 2)
  }

  /** The value of G, reached after `delay` levels of recursion that change
      nothing. The barrier keeps the verifier from unfolding the word
      arithmetic wherever G occurs; lemma GWordsDefinition exposes it. */
  function Mixing(a: Word, b: Word, c: Word, d: Word, x: Word, y: Word, delay: nat): (Word, Word, Word, Word)
  {
    if delay == 0 then
      var a := Sum3(a, b, x);
      var d := XorRotR1(d, a);
      var c := Sum(c, d);
      var b := XorRotR2(b, c);
      var a := Sum3(a, b, y);
      var d := XorRotR3(d, a);
      var c := Sum(c, d);
      var b := XorRotR4(b, c);
      (a, b, c, d)
    else Mixing(a, b, c, d, x, y, delay - 1)
  }

  /** G is the eight steps: two rounds of a sum into a, an xor-rotate into d,
      a sum into c and an xor-rotate into b. */
  lemma {:induction false} GWordsDefinition(a: Word, b: Word, c: Word, d: Word, x: Word, y: Word,
                         a1: Word, d1: Word, c1: Word, b1: Word, a2: Word, d2: Word, c2: Word, b2: Word)
    requires a1 == Sum3(a, b, x) && d1 == XorRotR1(d, a1) && c1 == Sum(c, d1) && b1 == XorRotR2(b, c1)
    requires a2 == Sum3(a1, b1, y) && d2 == XorRotR3(d1, a2) && c2 == Sum(c1, d2) && b2 == XorRotR4(b1, c2)
    ensures GWords(a, b, c, d, x, y) == (a2, b2, c2, d2)
  {
    assert GWords(a, b, c, d, x, y) == Mixing(a, b, c, d, x, y, 1) == Mixing(a, b, c, d, x, y, 0);
  }

  /** The mixing function G(v, a, b, c, d, x, y) on the working vector, for
      four distinct positions: only v[a], v[b], v[c] and v[d] change. */
  function G(v: seq<Word>, a: Index16, b: Index16, c: Index16, d: Index16, x: Word, y: Word): (r: seq<Word>)
    requires |v| == 16
    requires a != b && a != c && a != d && b != c && b != d && c != d
    ensures |r| == 16
  {
    MixVector(v, a, b, c, d, x, y, 2)
  }

  /** The value of G on the working vector, behind `delay` levels of recursion
      that change nothing, so that the verifier does not unfold the 96 vector
      updates of F; lemma GUpdatesFour states what G does. */
  function MixVector(v: seq<Word>, a: Index16, b: Index16, c: Index16, d: Index16, x: Word, y: Word, delay: nat): (r: seq<Word>)
    requires |v| == 16
    requires a != b && a != c && a != d && b != c && b != d && c != d
    ensures |r| == 16
  {
    if delay == 0 then
      var q := GWords(v[a], v[b], v[c], v[d], x, y);
      v[a := q.0][b := q.1][c := q.2][d := q.3]
    else MixVector(v, a, b, c, d, x, y, delay - 1)
  }

  /** G writes the four words GWords computes to positions a, b, c, d and
      leaves the other twelve words as they were; and these facts determine
      G's result. */
  lemma {:induction false} GUpdatesFour(v: seq<Word>, a: Index16, b: Index16, c: Index16, d: Index16, x: Word, y: Word, r: seq<Word>)
    requires |v| == 16
    requires a != b && a != c && a != d && b != c && b != d && c != d
    ensures r == G(v, a, b, c, d, x, y) <==>
      |r| == 16 && (r[a], r[b], r[c], r[d]) == GWords(v[a], v[b], v[c], v[d], x, y)
      && forall j :: 0 <= j < 16 && j != a && j != b && j != c && j != d ==> r[j] == v[j]
  {
    var g := G(v, a, b, c, d, x, y);
    assert g == MixVector(v, a, b, c, d, x, y, 1) == MixVector(v, a, b, c, d, x, y, 0);
    if |r| == 16 && (r[a], r[b], r[c], r[d]) == GWords(v[a], v[b], v[c], v[d], x, y)
      && forall j :: 0 <= j < 16 && j != a && j != b && j != c && j != d ==> r[j] == v[j] {
      assert forall j :: 0 <= j < 16 ==> r[j] == g[j];
    }
  }

  /* ---- Compression function F (RFC 7693 section 3.2) ---- */

  /** The message words in the order schedule row s selects them: m[s[0]], ..., m[s[15]]. */
  function Schedule(m: seq<Word>, s: seq<Index16>): (x: seq<Word>)
    requires |m| == 16 && |s| == 16
    ensures |x| == 16
    ensures forall k :: 0 <= k < 16 ==> x[k] == m[s[k]]
  {
    seq(16, k requires 0 <= k < 16 => m[s[k]])
  }

  /** One round with schedule row s, as RFC 7693 section 3.2 writes it: G on
      the four columns of the 4x4 working matrix, then on its four diagonals,
      call i taking message words m[s[2 * i]] and m[s[2 * i + 1]]. */
  function Round(v: seq<Word>, m: seq<Word>, s: seq<Index16>): (r: seq<Word>)
    requires |v| == 16 && |m| == 16 && |s| == 16
    ensures |r| == 16
  {
    Mixing16(v, m, s, 2)
  }

  /** The value of Round, reached after `delay` levels of recursion that
      change nothing, so that the verifier does not expand the eight calls of
      G wherever a round occurs; lemma RoundDefinition exposes them. */
  function Mixing16(v: seq<Word>, m: seq<Word>, s: seq<Index16>, delay: nat): (r: seq<Word>)
    requires |v| == 16 && |m| == 16 && |s| == 16
    ensures |r| == 16
  {
    if delay == 0 then
      var x := Schedule(m, s);
      var v := G(v, 0, 4,  8, 12, x[ 0], x[ 1]);
      var v := G(v, 1, 5,  9, 13, x[ 2], x[ 3]);
      var v := G(v, 2, 6, 10, 14, x[ 4], x[ 5]);
      var v := G(v, 3, 7, 11, 15, x[ 6], x[ 7]);
      var v := G(v, 0, 5, 10, 15, x[ 8], x[ 9]);
      var v := G(v, 1, 6, 11, 12, x[10], x[11]);
      var v := G(v, 2, 7,  8, 13, x[12], x[13]);
      G(v, 3, 4,  9, 14, x[14], x[15])
    else Mixing16(v, m, s, delay - 1)
  }

  /** The eight calls of G that make up a round. */
  lemma {:induction false} RoundDefinition(v: seq<Word>, m: seq<Word>, s: seq<Index16>)
    requires |v| == 16 && |m| == 16 && |s| == 16
    ensures var x := Schedule(m, s);
      var v1 := G(v, 0, 4,  8, 12, x[ 0], x[ 1]);
      var v2 := G(v1, 1, 5,  9, 13, x[ 2], x[ 3]);
      var v3 := G(v2, 2, 6, 10, 14, x[ 4], x[ 5]);
      var v4 := G(v3, 3, 7, 11, 15, x[ 6], x[ 7]);
      var v5 := G(v4, 0, 5, 10, 15, x[ 8], x[ 9]);
      var v6 := G(v5, 1, 6, 11, 12, x[10], x[11]);
      var v7 := G(v6, 2, 7,  8, 13, x[12], x[13]);
      Round(v, m, s) == G(v7, 3, 4,  9, 14, x[14], x[15])
  {
    assert Round(v, m, s) == Mixing16(v, m, s, 1) == Mixing16(v, m, s, 0);
  }

  /** The first n of the twelve rounds; round i uses row SIGMA[i % 10]. */
  function Rounds(v: seq<Word>, m: seq<Word>, n: nat): (r: seq<Word>)
    requires |v| == 16 && |m| == 16 && n <= 12
    ensures |r| == 16
  {
    if n == 0 then v
    else
      Round(Rounds(v, m, n - 1), m, SigmaRow((n - 1) % 10))
  }

  /** Round n + 1 applies row SIGMA[n % 10] to the result of the first n. */
  lemma {:induction false} RoundsStep(v: seq<Word>, m: seq<Word>, n: nat)
    requires |v| == 16 && |m| == 16 && n < 12
    ensures Rounds(v, m, n + 1) == Round(Rounds(v, m, n), m, SigmaRow(n % 10))
  {
    assert (n + 1) - 1 == n;
  }

  /** The 64-bit word whose bits are the binary digits of n. */
  function Word64(n: nat): (w: Word)
    requires n < TWO_64
    ensures n == 0 ==> w == 0
    decreases n, 3
  {
    BinaryWord(n, 2)
  }

  /** Word64(n), reached after `delay` levels that change nothing, so that
      the verifier does not unfold the binary digits wherever a counter word
      occurs. */
  function BinaryWord(n: nat, delay: nat): (w: Word)
    requires n < TWO_64
    ensures n == 0 ==> w == 0
    decreases n, delay
  {
    if delay == 0 then
      if n == 0 then 0
      else (Word64(n / 2) << 1) | (if n % 2 == 1 then 1 else 0)
    else BinaryWord(n, delay - 1)
  }

  /** The low and the high 64-bit word of the 128-bit byte counter t. */
  function LowWord(t: nat): Word
    requires t < TWO_128
  {
    Word64(t % TWO_64)
  }

  function HighWord(t: nat): Word
    requires t < TWO_128
  {
    Word64(t / TWO_64)
  }

  /** The mask xored into v[14]: all ones for the final block, zero otherwise. */
  function FinalMask(f: bool): Word
  {
    if f then 0xFFFF_FFFF_FFFF_FFFF else 0
  }

  /** The working vector before the rounds: the 16 words v with the low counter
      word lo xored into v[12], the high one hi into v[13], and v[14] inverted
      for the final block. */
  function InitWork(v: seq<Word>, lo: Word, hi: Word, f: bool): (r: seq<Word>)
    requires |v| == 16
    ensures |r| == 16
  {
    v[12 := Xor(v[12], lo)][13 := Xor(v[13], hi)][14 := Xor(v[14], FinalMask(f))]
  }

  /** One xor into a word of the working vector. */
  function Xor(a: Word, b: Word): Word
  {
    a ^ b
  }

  /** For a counter below 2^64 the low counter word is the counter itself
      and the high one is zero, so v[13] keeps its value. */
  lemma {:induction false} CounterBelow64(t: nat)
    requires t < TWO_64
    ensures LowWord(t) == Word64(t)
    ensures HighWord(t) == 0
  {
    assert t % TWO_64 == t;
    assert t / TWO_64 == 0;
  }

  /** Word i of the new chaining value: h[i] ^ v[i] ^ v[i + 8]. */
  function Fold(h: Word, lo: Word, hi: Word): Word
  {
    h ^ lo ^ hi
  }

  /** The new chaining value: each h[i] xored with both halves of the
      working vector. */
  function FeedForward(h: seq<Word>, v: seq<Word>): (r: seq<Word>)
    requires |h| == 8 && |v| == 16
    ensures |r| == 8
  {
    seq(8, i requires 0 <= i < 8 => Fold(h[i], v[i], v[i + 8]))
  }

  /** The compression function F(h, m, t, f): initialize the working vector
      from h, IV, the counter t and the final-block flag f, run the twelve
      rounds on message block m, and fold the two halves into h. */
  function F(h: seq<Word>, m: seq<Word>, t: nat, f: bool): (r: seq<Word>)
    requires |h| == 8 && |m| == 16 && t < TWO_128
    ensures |r| == 8
  {
    Compression(h, m, t, f, 2)
  }

  /** The value of F, reached after `delay` levels of recursion that change
      nothing. The single level F uses keeps the verifier from unfolding the
      768 mixing steps wherever F occurs; lemma FDefinition exposes them
      where a proof needs them. */
  function Compression(h: seq<Word>, m: seq<Word>, t: nat, f: bool, delay: nat): (r: seq<Word>)
    requires |h| == 8 && |m| == 16 && t < TWO_128
    ensures |r| == 8
  {
    if delay == 0 then FeedForward(h, Rounds(InitWork(h + IV, LowWord(t), HighWord(t), f), m, 12))
    else Compression(h, m, t, f, delay - 1)
  }

  /** F is the feed-forward of twelve rounds on the initialized working vector. */
  lemma {:induction false} FDefinition(h: seq<Word>, m: seq<Word>, t: nat, f: bool, v: seq<Word>)
    requires |h| == 8 && |m| == 16 && t < TWO_128
    requires v == Rounds(InitWork(h + IV, LowWord(t), HighWord(t), f), m, 12)
    ensures F(h, m, t, f) == FeedForward(h, v)
  {
    assert F(h, m, t, f) == Compression(h, m, t, f, 1) == Compression(h, m, t, f, 0);
  }

  /* ---- Padding and the data blocks (RFC 7693 section 3.3) ---- */

  /** x followed by zero bytes up to one block. */
  function ZeroPad(x: seq<Byte>): (r: seq<Byte>)
    requires |x| <= BLOCK_BYTES
    ensures |r| == BLOCK_BYTES
    ensures r[..|x|] == x
    ensures forall j :: |x| <= j < BLOCK_BYTES ==> r[j] == 0
  {
    x + seq(BLOCK_BYTES - |x|, _ => 0)
  }

  /** The message split into ceil(|m| / 128) blocks, the last one zero-padded. */
  function MessageBlocks(m: seq<Byte>): (r: seq<seq<Byte>>)
    ensures |r| == (|m| + 127) / 128
    ensures forall i :: 0 <= i < |r| ==> |r[i]| == BLOCK_BYTES
    decreases |m|
  {
    if |m| == 0 then []
    else if |m| <= BLOCK_BYTES then [ZeroPad(m)]
    else [m[..BLOCK_BYTES]] + MessageBlocks(m[BLOCK_BYTES..])
  }

  function Min(a: int, b: int): int
  {
    if a < b then a else b
  }

  /** Block i of the message is bytes 128 * i up to 128 * i + 128 (or the end), zero-padded. */
  lemma {:induction false} MessageBlocksAt(m: seq<Byte>, i: nat)
    requires i < |MessageBlocks(m)|
    ensures 128 * i < |m|
    ensures MessageBlocks(m)[i] == ZeroPad(m[128 * i..Min(128 * i + 128, |m|)])
    decreases |m|
  {
    if |m| <= BLOCK_BYTES {
      assert m[0..|m|] == m;
    } else if i == 0 {
      assert ZeroPad(m[..128]) == m[..128];
    } else {
      MessageBlocksAt(m[BLOCK_BYTES..], i - 1);
      var rest := m[BLOCK_BYTES..];
      SliceOfDrop(m, BLOCK_BYTES, 128 * (i - 1), Min(128 * (i - 1) + 128, |rest|),
        128 * i, Min(128 * i + 128, |m|));
    }
  }

  /** A slice of m[k..] is the slice of m shifted by k. */
  lemma {:induction false} SliceOfDrop(m: seq<Byte>, k: nat, lo: nat, hi: nat, a: nat, b: nat)
    requires lo <= hi && k + hi <= |m| && a == k + lo && b == k + hi
    ensures m[k..][lo..hi] == m[a..b]
  {
  }

  /** Total bytes fed to the compression function: the padded key block, if any, and the message. */
  function StreamLength(key: seq<Byte>, msg: seq<Byte>): nat
  {
    (if |key| > 0 then BLOCK_BYTES else 0) + |msg|
  }

  /** The data blocks d[0..dd-1]: the padded key (if kk > 0) and the padded
      message; a single zero block when both are empty. */
  function DataBlocks(key: seq<Byte>, msg: seq<Byte>): (d: seq<seq<Byte>>)
    requires |key| <= BLOCK_BYTES
    ensures |d| == if StreamLength(key, msg) == 0 then 1 else (StreamLength(key, msg) + 127) / 128
    ensures forall i :: 0 <= i < |d| ==> |d[i]| == BLOCK_BYTES
  {
    var d := (if |key| > 0 then [ZeroPad(key)] else []) + MessageBlocks(msg);
    if d == [] then [ZeroPad([])] else d
  }

  /** Compress the given non-final blocks in order; block i (0-based) is
      compressed with byte counter (i + 1) * 128. */
  function HashBlocks(h: seq<Word>, blocks: seq<seq<Byte>>): (r: seq<Word>)
    requires |h| == 8
    requires forall i :: 0 <= i < |blocks| ==> |blocks[i]| == BLOCK_BYTES
    requires |blocks| * BLOCK_BYTES < TWO_128
    ensures |r| == 8
  {
    if |blocks| == 0 then h
    else
      var last := |blocks| - 1;
      F(HashBlocks(h, blocks[..last]), Words(blocks[last]), |blocks| * BLOCK_BYTES, false)
  }

  /** The first nn bytes of the chaining value after compressing the data
      blocks d from h: all but the last in order, then the last one as the
      final block with byte counter t. */
  function DigestOfBlocks(h: seq<Word>, d: seq<seq<Byte>>, t: nat, nn: nat): (r: seq<Byte>)
    requires |h| == 8 && 0 < |d| && (|d| - 1) * BLOCK_BYTES < TWO_128 && t < TWO_128 && nn <= 64
    requires forall i :: 0 <= i < |d| ==> |d[i]| == BLOCK_BYTES
    ensures |r| == nn
  {
    LEBytes(F(HashBlocks(h, d[..|d| - 1]), Words(d[|d| - 1]), t, true))[..nn]
  }

  /** BLAKE2b(key, msg, nn) of RFC 7693 section 3.3: the last data block is
      final, with counter ll, or ll + 128 when there is a key. */
  function Digest(key: seq<Byte>, msg: seq<Byte>, nn: nat): (r: seq<Byte>)
    requires 1 <= nn <= 64 && |key| <= 64
    requires StreamLength(key, msg) < TWO_128
    ensures |r| == nn
  {
    DigestOfBlocks(ParamInit(|key| as Byte, nn as Byte), DataBlocks(key, msg), StreamLength(key, msg), nn)
  }
}
