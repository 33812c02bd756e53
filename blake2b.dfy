/** The BLAKE2b object of Blake2b.cpp: a class whose fields are the running
    hash, the pending 128-byte block and its counters, with the operations
    Init, Update and Finalize, the compression routine working in place on
    arrays, and the mixing routine. Init, Update and Finalize are proved to
    have the effect that module Blake2bState gives the same operation on the
    object's state, so the theorems proved there (the digest is the one of
    RFC 7693) carry over to the class; compress and mix are proved against F
    and G of module Blake2bSpec. mix takes its four words as values and
    returns them, and the caller writes them back into the working vector. */
module Blake2bImpl {
  import opened Blake2bSpec
  import opened Blake2bState

  /* ---- rotateRight and mix ---- */

  /** rotateRight on 64-bit words: the bits shifted out on the right come back
      on the left. The shift by 64 - moves is only defined for 0 < moves. */
  function RotateRight(x: Word, moves: bv32): (r: Word)
    requires 0 < moves < 64
  {
    (x >> moves) | (x << (64 - moves))
  }

  /** For the four amounts mix uses, rotateRight is the rotation of RFC 7693. */
  lemma {:induction false} RotateRightRotates(x: Word)
    ensures RotateRight(x, 32) == x.RotateRight(32)
    ensures RotateRight(x, 24) == x.RotateRight(24)
    ensures RotateRight(x, 16) == x.RotateRight(16)
    ensures RotateRight(x, 63) == x.RotateRight(63)
  {
  }

  /* Each statement of mix is one step of G; the lemmas below name the step.
     Keeping the steps apart keeps the proof of mix to congruence: a single
     chain of word equations makes the solver search bit by bit. */

  lemma {:induction false} SumStep(r: Word, a: Word, b: Word, x: Word)
    requires r == a + (b + x)
    ensures r == Sum3(a, b, x)
  {
  }

  lemma {:induction false} AddStep(r: Word, c: Word, d: Word)
    requires r == c + d
    ensures r == Sum(c, d)
  {
  }

  lemma {:induction false} RotateStepR1(r: Word, d: Word, a: Word)
    requires r == RotateRight(d ^ a, 32)
    ensures r == XorRotR1(d, a)
  {
    RotateRightRotates(d ^ a);
  }

  lemma {:induction false} RotateStepR2(r: Word, b: Word, c: Word)
    requires r == RotateRight(b ^ c, 24)
    ensures r == XorRotR2(b, c)
  {
    RotateRightRotates(b ^ c);
  }

  lemma {:induction false} RotateStepR3(r: Word, d: Word, a: Word)
    requires r == RotateRight(d ^ a, 16)
    ensures r == XorRotR3(d, a)
  {
    RotateRightRotates(d ^ a);
  }

  lemma {:induction false} RotateStepR4(r: Word, b: Word, c: Word)
    requires r == RotateRight(b ^ c, 63)
    ensures r == XorRotR4(b, c)
  {
    RotateRightRotates(b ^ c);
  }

  /** mix: G on four words of the working vector with message words x and y.
      The words mix takes by reference are passed in and returned. */
  method Mix(vA: Word, vB: Word, vC: Word, vD: Word, x: Word, y: Word) returns (a: Word, b: Word, c: Word, d: Word)
    ensures (a, b, c, d) == GWords(vA, vB, vC, vD, x, y)
  {
    a, b, c, d := vA, vB, vC, vD;
    a := a + (b + x);
    SumStep(a, vA, vB, x);
    d := RotateRight(d ^ a, 32);
    RotateStepR1(d, vD, a);
    c := c + d;
    AddStep(c, vC, d);
    b := RotateRight(b ^ c, 24);
    RotateStepR2(b, vB, c);
    ghost var a1, b1, c1, d1 := a, b, c, d;
    a := a + (b + y);
    SumStep(a, a1, b1, y);
    d := RotateRight(d ^ a, 16);
    RotateStepR3(d, d1, a);
    c := c + d;
    AddStep(c, c1, d);
    b := RotateRight(b ^ c, 63);
    RotateStepR4(b, b1, c);
    GWordsDefinition(vA, vB, vC, vD, x, y, a1, d1, c1, b1, a, d, c, b);
  }

  /** The call mix(v[a], v[b], v[c], v[d], x, y) of compress, which passes
      four words of the working vector by reference: afterwards the vector is
      G(v, a, b, c, d, x, y). */
  method MixAt(v: array<Word>, a: Index16, b: Index16, c: Index16, d: Index16, x: Word, y: Word)
    requires v.Length == 16
    requires a != b && a != c && a != d && b != c && b != d && c != d
    modifies v
    ensures v[..] == G(old(v[..]), a, b, c, d, x, y)
  {
    ghost var u := v[..];
    v[a], v[b], v[c], v[d] := Mix(v[a], v[b], v[c], v[d], x, y);
    GUpdatesFour(u, a, b, c, d, x, y, v[..]);
  }

  /** One iteration of compress's round loop: mix on the four columns of the
      working vector, then on its four diagonals, with the message words that
      schedule row s selects. */
  method MixRound(v: array<Word>, m: seq<Word>, s: seq<Index16>)
    requires v.Length == 16 && |m| == 16 && |s| == 16
    modifies v
    ensures v[..] == Round(old(v[..]), m, s)
  {
    ghost var u := v[..];
    MixAt(v, 0, 4, 8, 12, m[s[0]], m[s[1]]);
    MixAt(v, 1, 5, 9, 13, m[s[2]], m[s[3]]);
    MixAt(v, 2, 6, 10, 14, m[s[4]], m[s[5]]);
    MixAt(v, 3, 7, 11, 15, m[s[6]], m[s[7]]);
    MixAt(v, 0, 5, 10, 15, m[s[8]], m[s[9]]);
    MixAt(v, 1, 6, 11, 12, m[s[10]], m[s[11]]);
    MixAt(v, 2, 7, 8, 13, m[s[12]], m[s[13]]);
    MixAt(v, 3, 4, 9, 14, m[s[14]], m[s[15]]);
    RoundDefinition(u, m, s);
  }

  /* ---- compress's working vector ---- */

  /** std::copy of the sequence src into the array dst from position at on. */
  method Copy<T>(src: seq<T>, dst: array<T>, at: nat)
    requires at + |src| <= dst.Length
    modifies dst
    ensures forall j :: 0 <= j < dst.Length ==>
      dst[j] == if at <= j < at + |src| then src[j - at] else old(dst[j])
  {
    for i := 0 to |src|
      invariant forall j :: 0 <= j < dst.Length ==>
        dst[j] == if at <= j < at + i then src[j - at] else old(dst[j])
    {
      dst[at + i] := src[i];
    }
  }

  /** The copies of the hash and of IV make the working vector h + IV. */
  lemma {:induction false} WorkingVectorLoaded(h: seq<Word>, v: seq<Word>)
    requires |h| == 8 && |v| == 16
    requires forall j :: 0 <= j < 8 ==> v[j] == h[j]
    requires forall j :: 8 <= j < 16 ==> v[j] == IV[j - 8]
    ensures v == h + IV
  {
  }

  /** A working vector that differs from w only in v[12], v[13] and v[14],
      which hold the three xors of RFC 7693, is InitWork(w, lo, hi, f). */
  lemma {:induction false} InitWorkAt(w: seq<Word>, lo: Word, hi: Word, f: bool, v: seq<Word>)
    requires |w| == 16 && |v| == 16
    requires v[12] == Xor(w[12], lo) && v[13] == Xor(w[13], hi) && v[14] == Xor(w[14], FinalMask(f))
    requires forall k :: 0 <= k < 16 && k != 12 && k != 13 && k != 14 ==> v[k] == w[k]
    ensures v == InitWork(w, lo, hi, f)
  {
  }

  lemma {:induction false} XorStep(r: Word, a: Word, b: Word)
    requires r == a ^ b
    ensures r == Xor(a, b)
  {
  }

  lemma {:induction false} XorZero(a: Word)
    ensures Xor(a, 0) == a
  {
  }

  /** The first part of compress: v[0..7] copied from the hash, v[8..15] from
      IV, the byte counter xored into v[12] and, for the final block, v[14]
      inverted. */
  method LoadWorkingVector(hash: array<Word>, t: nat, finalChunk: bool) returns (v: array<Word>)
    requires hash.Length == 8 && t < TWO_64
    ensures fresh(v) && v.Length == 16
    ensures v[..] == InitWork(hash[..] + IV, LowWord(t), HighWord(t), finalChunk)
  {
    v := new Word[16];
    Copy(hash[..], v, 0);
    Copy(IV, v, 8);
    WorkingVectorLoaded(hash[..], v[..]);
    ghost var w := v[..];
    var v12, v14 := v[12], v[14];
    v[12] := v12 ^ Word64(t);
    XorStep(v[12], v12, Word64(t));
    // the high counter word is zero, so v[13] needs no update
    CounterBelow64(t);
    XorZero(w[13]);
    if finalChunk {
      v[14] := v14 ^ 0xFFFF_FFFF_FFFF_FFFF;
      XorStep(v[14], v14, 0xFFFF_FFFF_FFFF_FFFF);
    } else {
      XorZero(w[14]);
    }
    InitWorkAt(w, LowWord(t), HighWord(t), finalChunk, v[..]);
  }

  /** The round loop of compress: twelve rounds, round i with row
      SIGMA[i % 10]. */
  method MixRounds(v: array<Word>, m: seq<Word>)
    requires v.Length == 16 && |m| == 16
    modifies v
    ensures v[..] == Rounds(old(v[..]), m, 12)
  {
    ghost var v0 := v[..];
    for i := 0 to 12
      invariant v[..] == Rounds(v0, m, i)
    {
      MixRound(v, m, SigmaRow(i % 10));
      RoundsStep(v0, m, i);
    }
  }

  /** The last loop of compress: each hash word xored with both halves of the
      working vector. */
  method FoldInto(hash: array<Word>, v: seq<Word>)
    requires hash.Length == 8 && |v| == 16
    modifies hash
    ensures hash[..] == FeedForward(old(hash[..]), v)
  {
    ghost var h0 := hash[..];
    for i := 0 to 8
      invariant forall j :: 0 <= j < i ==> hash[j] == FeedForward(h0, v)[j]
      invariant forall j :: i <= j < 8 ==> hash[j] == h0[j]
    {
      FoldWord(hash, v, i);
    }
  }

  /** The statement m_hash[i] ^= v[i] ^ v[i + 8] of compress's last loop. */
  method FoldWord(hash: array<Word>, v: seq<Word>, i: nat)
    requires hash.Length == 8 && |v| == 16 && i < 8
    modifies hash
    ensures hash[i] == Fold(old(hash[i]), v[i], v[i + 8])
    ensures forall j :: 0 <= j < 8 && j != i ==> hash[j] == old(hash[j])
  {
    var folded := hash[i] ^ (v[i] ^ v[i + 8]);
    FoldStep(folded, hash[i], v[i], v[i + 8]);
    hash[i] := folded;
  }

  /** The statement m_hash[i] ^= v[i] ^ v[i + 8] computes word i of the feed-forward. */
  lemma {:induction false} FoldStep(r: Word, h: Word, lo: Word, hi: Word)
    requires r == h ^ (lo ^ hi)
    ensures r == Fold(h, lo, hi)
  {
  }

  /* ---- Init, Update and Finalize: buffer operations ---- */

  /** std::memset(&dst[from], 0, dst.Length - from): zero the buffer from
      position from to its end. */
  method ZeroFrom(dst: array<Byte>, from: nat)
    requires from <= dst.Length
    modifies dst
    ensures forall j :: 0 <= j < dst.Length ==> dst[j] == if j < from then old(dst[j]) else 0
  {
    for i := from to dst.Length
      invariant forall j :: 0 <= j < dst.Length ==> dst[j] == if from <= j < i then 0 else old(dst[j])
    {
      dst[i] := 0;
    }
  }

  /** A block that starts with x and is zero after it is ZeroPad(x). */
  lemma {:induction false} PaddedBlock(c: seq<Byte>, x: seq<Byte>)
    requires |c| == BLOCK_BYTES && |x| <= BLOCK_BYTES
    requires forall j :: 0 <= j < |x| ==> c[j] == x[j]
    requires forall j :: |x| <= j < BLOCK_BYTES ==> c[j] == 0
    ensures c == ZeroPad(x)
  {
    var z := ZeroPad(x);
    forall j | 0 <= j < BLOCK_BYTES
      ensures c[j] == z[j]
    {
      if j < |x| {
        assert z[..|x|][j] == x[j];
      }
    }
  }

  /** A buffer that holds x at offset at and buf elsewhere is Overwrite(buf, at, x). */
  lemma {:induction false} OverwrittenBlock(c: seq<Byte>, buf: seq<Byte>, at: nat, x: seq<Byte>)
    requires |c| == |buf| && at + |x| <= |buf|
    requires forall j :: 0 <= j < |c| ==> c[j] == if at <= j < at + |x| then x[j - at] else buf[j]
    ensures c == Overwrite(buf, at, x)
  {
    forall j | 0 <= j < |c|
      ensures c[j] == Overwrite(buf, at, x)[j]
    {
      OverwriteAt(buf, at, x, j);
    }
  }

  /** The statement m_hash[0] ^= 0x01010000 ^ (kk << 8) ^ nn xors the
      parameter word into the copy of IV[0]. */
  lemma {:induction false} ParameterStep(r: Word, a: Word, kk: Byte, nn: Byte)
    requires r == a ^ (0x01010000 ^ ((kk as Word) << 8) ^ (nn as Word))
    ensures r == a ^ 0x01010000 ^ ((kk as Word) << 8) ^ (nn as Word)
  {
  }

  /** IV with word 0 xored with the parameter word is ParamInit. */
  lemma {:induction false} ParameterWords(h: seq<Word>, kk: Byte, nn: Byte)
    requires |h| == 8
    requires h[0] == IV[0] ^ 0x01010000 ^ ((kk as Word) << 8) ^ (nn as Word)
    requires forall j :: 1 <= j < 8 ==> h[j] == IV[j]
    ensures h == ParamInit(kk, nn)
  {
  }

  /** Lines 111-114 of Init: copy IV into the hash and xor the parameter word
      (key length kk, digest length nn, fanout and depth 1) into word 0. */
  method LoadParameters(hash: array<Word>, kk: Byte, nn: Byte)
    requires hash.Length == 8
    modifies hash
    ensures hash[..] == ParamInit(kk, nn)
  {
    Copy(IV, hash, 0);
    var h0 := hash[0];
    var mixed := h0 ^ (0x01010000 ^ ((kk as Word) << 8) ^ (nn as Word));
    ParameterStep(mixed, h0, kk, nn);
    hash[0] := mixed;
    ParameterWords(hash[..], kk, nn);
  }

  /** Lines 122-125 of Init: copy the key to the start of the block and zero
      the rest of it (the padding the source means to write; see the README's
      findings). */
  method LoadKey(chunk: array<Byte>, key: seq<Byte>)
    requires chunk.Length == BLOCK_BYTES && |key| <= BLOCK_BYTES
    modifies chunk
    ensures chunk[..] == ZeroPad(key)
  {
    Copy(key, chunk, 0);
    ZeroFrom(chunk, |key|);
    PaddedBlock(chunk[..], key);
  }

  /** One pass of Update's loop: flush a full block, then copy the size bytes
      that fit. */
  lemma {:induction false} UpdatePass(st: State, rest: seq<Byte>, size: nat)
    requires WellFormed(st) && |rest| > 0 && st.bytesCompressed + |rest| < TWO_64
    requires size == Min(BLOCK_BYTES - FlushIfFull(st).chunkSize, |rest|)
    ensures size <= |rest|
    ensures Absorb(st, rest) == Absorb(CopyIn(FlushIfFull(st), rest[..size]), rest[size..])
  {
    AbsorbStartsWithFlush(st, rest);
    AbsorbPass(FlushIfFull(st), rest);
  }

  /** Slicing the suffix s[i..] at k, that is, s at j. */
  lemma {:induction false} SliceOfSuffix<T>(s: seq<T>, i: nat, k: nat, j: nat)
    requires j == i + k <= |s|
    ensures s[i..][..k] == s[i..j] && s[i..][k..] == s[j..]
  {
  }

  /** Lines 211-213 of Finalize: a fresh n-byte vector receiving the first n
      bytes of the hash words as they lie in memory on a little-endian host. */
  method CopyOut(hash: array<Word>, n: nat) returns (out: array<Byte>)
    requires hash.Length == 8 && n <= 64
    ensures fresh(out) && out[..] == LEBytes(hash[..])[..n]
  {
    out := new Byte[n];
    for i := 0 to n
      invariant forall j :: 0 <= j < i ==> out[j] == StoreWord(hash[j / 8])[j % 8]
    {
      out[i] := StoreWord(hash[i / 8])[i % 8];
    }
    forall j | 0 <= j < n
      ensures out[j] == LEBytes(hash[..])[j]
    {
      LEBytesAt(hash[..], j / 8, j % 8);
    }
  }

  /* ---- The object ---- */

  /** Outcome of Init: done, or rejected with the reason the source throws
      std::invalid_argument for. */
  datatype Status = Done | Rejected(error: InitError)

  class Blake2b {
    /** m_hash: the running hash h[0..7]. */
    const hash: array<Word>
    /** m_chunk: the pending 128-byte block, addressed byte by byte. */
    const chunk: array<Byte>
    /** m_chunkSize: how many bytes of chunk are pending. */
    var chunkSize: nat
    /** m_bytesCompressed: the byte counter t. */
    var bytesCompressed: nat
    /** m_outputHashLength: the digest length in bytes. */
    var outputLength: nat

    /** The object's fields as a value of module Blake2bState. */
    ghost function Current(): State
      reads this, hash, chunk
    {
      State(hash[..], chunk[..], chunkSize, bytesCompressed, outputLength)
    }

    ghost predicate Valid()
      reads this, hash, chunk
    {
      hash.Length == 8 && chunk.Length == BLOCK_BYTES && WellFormed(Current())
    }

    /** A new object: zero hash and block, empty block, counter 0, and a
        64-byte digest length. */
    constructor ()
      ensures Valid() && fresh(hash) && fresh(chunk)
      ensures Current() == State(seq(8, _ => 0), seq(BLOCK_BYTES, _ => 0), 0, 0, 64)
    {
      hash := new Word[8](_ => 0);
      chunk := new Byte[BLOCK_BYTES](_ => 0);
      chunkSize := 0;
      bytesCompressed := 0;
      outputLength := 64;
      new;
      assert hash[..] == seq(8, _ => 0);
      assert chunk[..] == seq(BLOCK_BYTES, _ => 0);
    }

    /** Init(key, outputHashLength): reject an output length outside 1..64 or
        a key longer than 64 bytes, changing nothing; otherwise load the
        parameter-block IV, and make a key the first, full pending block. */
    method Init(key: seq<Byte>, outputHashLength: Byte) returns (status: Status)
      requires Valid()
      modifies this, hash, chunk
      ensures Valid()
      ensures var r := Initialize(old(Current()), key, outputHashLength);
        if r.Success? then status == Done && Current() == r.value
        else status == Rejected(r.error) && Current() == old(Current())
    {
      if outputHashLength > 64 || outputHashLength < 1 {
        return Rejected(InvalidOutputLength);
      }
      if |key| > 64 {
        return Rejected(KeyTooLong);
      }
      Load(key, outputHashLength);
      status := Done;
    }

    /** Lines 110-138 of Init, on arguments that passed its checks. */
    method Load(key: seq<Byte>, outputHashLength: Byte)
      requires Valid() && 1 <= outputHashLength <= 64 && |key| <= 64
      modifies this, hash, chunk
      ensures Valid()
      ensures |key| > 0 ==> Current() == State(ParamInit(|key| as Byte, outputHashLength), ZeroPad(key),
        BLOCK_BYTES, BLOCK_BYTES, outputHashLength as nat)
      ensures |key| == 0 ==> Current() == State(ParamInit(0, outputHashLength), old(chunk[..]),
        0, 0, outputHashLength as nat)
    {
      LoadParameters(hash, |key| as Byte, outputHashLength);
      if |key| > 0 {
        LoadKey(chunk, key);
        chunkSize := BLOCK_BYTES;
        bytesCompressed := BLOCK_BYTES;
      } else {
        chunkSize := 0;
        bytesCompressed := 0;
      }
      outputLength := outputHashLength as nat;
    }

    /** Update(data, len): while input remains, compress a full pending block
        as a non-final block, then copy as many bytes as fit into the block at
        offset chunkSize and count them. */
    method Update(data: seq<Byte>)
      requires Valid() && bytesCompressed + |data| < TWO_64
      modifies this, hash, chunk
      ensures Valid() && Current() == Absorb(old(Current()), data)
    {
      ghost var target := Absorb(Current(), data);
      var offset: nat := 0;
      var len: nat := |data|;
      while len > 0
        invariant Valid() && offset + len == |data|
        invariant bytesCompressed + len < TWO_64
        invariant Absorb(Current(), data[offset..]) == target
        decreases len
      {
        var next := UpdatePassStep(data, offset);
        len := len - (next - offset);
        offset := next;
      }
    }

    /** One pass of Update's loop (lines 158-190) on the input from offset on:
        it takes in size bytes, leaving the rest of the input to absorb. */
    method UpdatePassStep(data: seq<Byte>, offset: nat) returns (next: nat)
      requires Valid() && offset < |data| && bytesCompressed + (|data| - offset) < TWO_64
      modifies this, hash, chunk
      ensures Valid() && offset < next <= |data|
      ensures next - offset == Min(BLOCK_BYTES - FlushIfFull(old(Current())).chunkSize, |data| - offset)
      ensures Current() == CopyIn(FlushIfFull(old(Current())), data[offset..next])
      ensures bytesCompressed == old(bytesCompressed) + (next - offset)
      ensures Absorb(Current(), data[next..]) == Absorb(old(Current()), data[offset..])
    {
      ghost var st, rest := Current(), data[offset..];
      FlushIfFullBlock();
      var size: nat := BLOCK_BYTES - chunkSize;
      if size > |data| - offset {
        size := |data| - offset;
      }
      next := offset + size;
      UpdatePass(st, rest, size);
      SliceOfSuffix(data, offset, size, next);
      Append(data[offset..next]);
    }

    /** Lines 158-162 of Update: a full pending block is compressed as a
        non-final block and emptied. */
    method FlushIfFullBlock()
      requires Valid()
      modifies this, hash
      ensures Valid() && Current() == FlushIfFull(old(Current()))
    {
      if chunkSize == BLOCK_BYTES {
        Compress(false);
        chunkSize := 0;
      }
    }

    /** Lines 173-186 of Update: copy piece into the block at offset
        chunkSize and count it in both chunkSize and the counter. */
    method Append(piece: seq<Byte>)
      requires Valid() && chunkSize + |piece| <= BLOCK_BYTES && bytesCompressed + |piece| < TWO_64
      modifies this, chunk
      ensures Valid() && Current() == CopyIn(old(Current()), piece)
    {
      ghost var c0 := chunk[..];
      Copy(piece, chunk, chunkSize);
      OverwrittenBlock(chunk[..], c0, chunkSize, piece);
      chunkSize := chunkSize + |piece|;
      bytesCompressed := bytesCompressed + |piece|;
    }

    /** Finalize(): zero the pending block from chunkSize to its end,
        compress it as the final block, and return the first outputLength
        bytes of the hash. */
    method Finalize() returns (digest: seq<Byte>)
      requires Valid()
      modifies hash, chunk
      ensures Valid() && Current() == FinalizeState(old(Current()))
      ensures digest == Output(old(Current()))
    {
      ghost var st := Current();
      ZeroFrom(chunk, chunkSize);
      PaddedBlock(chunk[..], st.chunk[..chunkSize]);
      Compress(true);
      var finalHash := CopyOut(hash, outputLength);
      digest := finalHash[..];
    }

    /** compress: F on the running hash with the pending block as message,
        the byte counter and the final-block flag. */
    method Compress(finalChunk: bool)
      requires Valid()
      modifies hash
      ensures Valid()
      ensures hash[..] == F(old(hash[..]), Words(chunk[..]), bytesCompressed, finalChunk)
    {
      ghost var h0 := hash[..];
      var m := Words(chunk[..]);
      var v := LoadWorkingVector(hash, bytesCompressed, finalChunk);
      MixRounds(v, m);
      FoldInto(hash, v[..]);
      FDefinition(h0, m, bytesCompressed, finalChunk, v[..]);
    }
  }

  /** Blake2b(message): a new object initialised with no key and a 64-byte
      digest, fed message and finalised, computes the unkeyed 64-byte BLAKE2b
      digest of RFC 7693 section 3.3. */
  method Hash(message: seq<Byte>) returns (digest: seq<Byte>)
    requires |message| < TWO_64
    ensures |digest| == 64
    ensures digest == Digest([], message, 64)
  {
    var blake := new Blake2b();
    ghost var st0 := blake.Current();
    var status := blake.Init([], 64);
    blake.Update(message);
    digest := blake.Finalize();
    StreamingMatchesDigest(st0, [], message, 64);
  }
}
