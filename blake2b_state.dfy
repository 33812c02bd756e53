/** The state of one BLAKE2b hashing object as a value, and the effect of each
    of its operations on that value: Initialize (Blake2b::Init), Absorb
    (Blake2b::Update) and FinalizeState/Output (Blake2b::Finalize). The lemmas
    here relate these to the whole-message digest of module Blake2bSpec. */
module Blake2bState {
  import opened Blake2bSpec

  /** The fields of the object: the running hash, the 128-byte pending block
      (viewed as bytes), how many of its bytes are pending, the byte counter t
      and the requested digest length. */
  datatype State = State(
    hash: seq<Word>,
    chunk: seq<Byte>,
    chunkSize: nat,
    bytesCompressed: nat,
    outputLength: nat)

  /** Buffer bounds and the ranges the object keeps its fields in: the counter
      stays below 2^64 (larger inputs are unsupported). */
  predicate WellFormed(st: State)
  {
    |st.hash| == 8 && |st.chunk| == BLOCK_BYTES && st.chunkSize <= BLOCK_BYTES
    && st.bytesCompressed < TWO_64 && 1 <= st.outputLength <= 64
  }

  /* ---- Init ---- */

  datatype InitError = InvalidOutputLength | KeyTooLong

  datatype Result<T> = Success(value: T) | Failure(error: InitError)

  /** The bytes of the stream the object hashes that Init contributes: the
      zero-padded key block if there is a key, nothing otherwise. */
  function KeyPrefix(key: seq<Byte>): (p: seq<Byte>)
    requires |key| <= BLOCK_BYTES
    ensures |p| == if |key| > 0 then BLOCK_BYTES else 0
  {
    if |key| > 0 then ZeroPad(key) else []
  }

  /** Init(key, nn) on an object whose pending block is st.chunk. Arguments out
      of range are rejected before anything changes; otherwise the running hash
      is the parameter-block IV, a key becomes a full pending block counted
      as 128 bytes, and without a key the pending block is empty. */
  function Initialize(st: State, key: seq<Byte>, nn: Byte): (r: Result<State>)
    requires |st.chunk| == BLOCK_BYTES
    ensures r.Failure? <==> nn < 1 || nn > 64 || |key| > 64
    ensures r.Failure? ==> r.error == if nn < 1 || nn > 64 then InvalidOutputLength else KeyTooLong
    ensures r.Success? ==>
      var s := r.value;
      WellFormed(s)
      && s.hash == ParamInit(|key| as Byte, nn)
      && s.outputLength == nn as nat
      && s.chunk[..s.chunkSize] == KeyPrefix(key)
      && s.bytesCompressed == s.chunkSize == |KeyPrefix(key)|
      && (|key| > 0 ==> s.chunk == ZeroPad(key))
      && (|key| == 0 ==> s.chunk == st.chunk)
  {
    if nn > 64 || nn < 1 then Failure(InvalidOutputLength)
    else if |key| > 64 then Failure(KeyTooLong)
    else if |key| > 0 then
      Success(State(ParamInit(|key| as Byte, nn), ZeroPad(key), BLOCK_BYTES, BLOCK_BYTES, nn as nat))
    else
      Success(State(ParamInit(|key| as Byte, nn), st.chunk, 0, 0, nn as nat))
  }

  /* ---- Update ---- */

  /** Compress the full pending block as a non-final block, with the counter
      as it stands, and empty the block. */
  function Flush(st: State): (r: State)
    requires WellFormed(st)
    ensures WellFormed(r) && r.chunkSize == 0
    ensures r.chunk == st.chunk && r.bytesCompressed == st.bytesCompressed && r.outputLength == st.outputLength
  {
    st.(hash := F(st.hash, Words(st.chunk), st.bytesCompressed, false), chunkSize := 0)
  }

  /** buf with x copied in at offset at. */
  function Overwrite(buf: seq<Byte>, at: nat, x: seq<Byte>): (r: seq<Byte>)
    requires at + |x| <= |buf|
    ensures |r| == |buf|
  {
    buf[..at] + x + buf[at + |x|..]
  }

  /** Byte j of buf after copying x in at offset at. */
  lemma {:induction false} OverwriteAt(buf: seq<Byte>, at: nat, x: seq<Byte>, j: nat)
    requires at + |x| <= |buf| && j < |buf|
    ensures Overwrite(buf, at, x)[j] == if at <= j < at + |x| then x[j - at] else buf[j]
  {
  }

  /** A full pending block is compressed only once more input arrives. */
  function FlushIfFull(st: State): (r: State)
    requires WellFormed(st)
    ensures WellFormed(r) && r.chunkSize < BLOCK_BYTES
    ensures r.chunk == st.chunk && r.bytesCompressed == st.bytesCompressed && r.outputLength == st.outputLength
  {
    if st.chunkSize == BLOCK_BYTES then Flush(st) else st
  }

  /** How many bytes one pass of the Update loop copies: as many as fit. */
  function CopySize(st: State, data: seq<Byte>): (n: nat)
    requires WellFormed(st) && st.chunkSize < BLOCK_BYTES && |data| > 0
    ensures 0 < n <= |data| && st.chunkSize + n <= BLOCK_BYTES
    ensures n == |data| || st.chunkSize + n == BLOCK_BYTES
  {
    Min(BLOCK_BYTES - st.chunkSize, |data|)
  }

  /** Copy x into the pending block at offset chunkSize and count it. */
  function CopyIn(st: State, x: seq<Byte>): (r: State)
    requires WellFormed(st) && st.chunkSize + |x| <= BLOCK_BYTES && st.bytesCompressed + |x| < TWO_64
    ensures WellFormed(r)
    ensures r.hash == st.hash && r.outputLength == st.outputLength
    ensures r.chunkSize == st.chunkSize + |x| && r.bytesCompressed == st.bytesCompressed + |x|
    ensures r.chunk[..st.chunkSize] == st.chunk[..st.chunkSize]
    ensures r.chunk[st.chunkSize..r.chunkSize] == x
  {
    var c := Overwrite(st.chunk, st.chunkSize, x);
    assert c[st.chunkSize..st.chunkSize + |x|] == x;
    st.(chunk := c, chunkSize := st.chunkSize + |x|, bytesCompressed := st.bytesCompressed + |x|)
  }

  /** Update(data): while input remains, a full pending block is compressed
      (it is now known not to be the last), then as many bytes as fit are
      copied in at offset chunkSize and counted. */
  function Absorb(st: State, data: seq<Byte>): (r: State)
    requires WellFormed(st) && st.bytesCompressed + |data| < TWO_64
    ensures WellFormed(r)
    ensures r.bytesCompressed == st.bytesCompressed + |data|
    ensures r.outputLength == st.outputLength
    ensures |data| == 0 ==> r == st
    ensures |data| > 0 ==> r.chunkSize > 0
    decreases |data|
  {
    if |data| == 0 then st
    else
      var s1 := FlushIfFull(st);
      var n := CopySize(s1, data);
      Absorb(CopyIn(s1, data[..n]), data[n..])
  }

  /* ---- Finalize ---- */

  /** Finalize's effect on the object: the pending block is zero-filled from
      chunkSize to 128 and compressed as the final block. */
  function FinalizeState(st: State): (r: State)
    requires WellFormed(st)
    ensures WellFormed(r)
    ensures r.chunk == ZeroPad(st.chunk[..st.chunkSize])
    ensures r.hash == F(st.hash, Words(r.chunk), st.bytesCompressed, true)
    ensures r.chunkSize == st.chunkSize && r.bytesCompressed == st.bytesCompressed
    ensures r.outputLength == st.outputLength
  {
    var padded := ZeroPad(st.chunk[..st.chunkSize]);
    st.(chunk := padded, hash := F(st.hash, Words(padded), st.bytesCompressed, true))
  }

  /** The digest Finalize returns: the first outputLength little-endian bytes
      of the final hash words. */
  function Output(st: State): (d: seq<Byte>)
    requires WellFormed(st)
    ensures |d| == st.outputLength
    ensures forall i :: 0 <= i < |d| ==> d[i] == StoreWord(FinalizeState(st).hash[i / 8])[i % 8]
  {
    var h := FinalizeState(st).hash;
    forall i | 0 <= i < st.outputLength
      ensures LEBytes(h)[i] == StoreWord(h[i / 8])[i % 8]
    {
      LEBytesAt(h, i / 8, i % 8);
    }
    LEBytes(h)[..st.outputLength]
  }

  /* ---- The stream an object has absorbed ---- */

  /** The first q full blocks of s. */
  function Blocks(s: seq<Byte>, q: nat): (b: seq<seq<Byte>>)
    requires BLOCK_BYTES * q <= |s|
    ensures |b| == q
    ensures forall i :: 0 <= i < q ==> |b[i]| == BLOCK_BYTES
  {
    seq(q, i requires 0 <= i < q => s[BLOCK_BYTES * i..BLOCK_BYTES * i + BLOCK_BYTES])
  }

  /** st has taken in the byte stream s, starting from chaining value h0:
      the counter is |s|; the pending bytes are the last chunkSize bytes of s;
      everything before them is a whole number of blocks, and the running
      hash is h0 with those blocks compressed in order, block i with counter
      128 * (i + 1). */
  predicate Absorbed(st: State, h0: seq<Word>, s: seq<Byte>)
  {
    WellFormed(st) && |h0| == 8
    && st.bytesCompressed == |s| && st.chunkSize <= |s|
    && (|s| - st.chunkSize) % BLOCK_BYTES == 0
    && st.chunk[..st.chunkSize] == s[|s| - st.chunkSize..]
    && st.hash == HashBlocks(h0, Blocks(s, (|s| - st.chunkSize) / BLOCK_BYTES))
  }

  /** Appending bytes does not change the leading full blocks. */
  lemma {:induction false} BlocksOfExtension(s: seq<Byte>, x: seq<Byte>, q: nat)
    requires BLOCK_BYTES * q <= |s|
    ensures Blocks(s + x, q) == Blocks(s, q)
  {
    forall i | 0 <= i < q
      ensures Blocks(s + x, q)[i] == Blocks(s, q)[i]
    {
      assert (s + x)[BLOCK_BYTES * i..BLOCK_BYTES * i + BLOCK_BYTES] == s[BLOCK_BYTES * i..BLOCK_BYTES * i + BLOCK_BYTES];
    }
  }

  /** A valid initialization leaves an object that has absorbed the key prefix
      from the parameter-block IV. */
  lemma {:induction false} InitializeAbsorbsKeyPrefix(st: State, key: seq<Byte>, nn: Byte)
    requires |st.chunk| == BLOCK_BYTES && 1 <= nn <= 64 && |key| <= 64
    ensures Initialize(st, key, nn).Success?
    ensures Absorbed(Initialize(st, key, nn).value, ParamInit(|key| as Byte, nn), KeyPrefix(key))
  {
    var s := KeyPrefix(key);
    assert Blocks(s, 0) == [];
  }

  /** The first q + 1 blocks are the first q and then block q. */
  lemma {:induction false} BlocksSnoc(s: seq<Byte>, q: nat)
    requires BLOCK_BYTES * (q + 1) <= |s|
    ensures Blocks(s, q + 1) == Blocks(s, q) + [s[BLOCK_BYTES * q..BLOCK_BYTES * q + BLOCK_BYTES]]
  {
  }

  /** Hashing one more block is one more F call, with the counter at the end
      of that block. */
  lemma {:induction false} HashBlocksSnoc(h0: seq<Word>, b: seq<seq<Byte>>, x: seq<Byte>)
    requires |h0| == 8 && |x| == BLOCK_BYTES && (|b| + 1) * BLOCK_BYTES < TWO_128
    requires forall i :: 0 <= i < |b| ==> |b[i]| == BLOCK_BYTES
    ensures HashBlocks(h0, b + [x]) == F(HashBlocks(h0, b), Words(x), (|b| + 1) * BLOCK_BYTES, false)
  {
    assert (b + [x])[..|b|] == b;
  }

  /** Compressing a full pending block moves it from the pending part of the
      stream to the compressed part; the counter it is compressed with is the
      number of stream bytes up to the end of that block. */
  lemma {:induction false} FlushKeepsAbsorbed(st: State, h0: seq<Word>, s: seq<Byte>)
    requires Absorbed(st, h0, s) && st.chunkSize == BLOCK_BYTES
    ensures Absorbed(Flush(st), h0, s)
    ensures st.bytesCompressed == BLOCK_BYTES * ((|s| - st.chunkSize) / BLOCK_BYTES + 1)
  {
    var q := (|s| - BLOCK_BYTES) / BLOCK_BYTES;
    assert |s| == BLOCK_BYTES * (q + 1);
    ChunkIsLastBlock(st, s, q);
    BlocksSnoc(s, q);
    HashBlocksSnoc(h0, Blocks(s, q), st.chunk);
  }

  /** A full pending block is the last block of the stream. */
  lemma {:induction false} ChunkIsLastBlock(st: State, s: seq<Byte>, q: nat)
    requires |st.chunk| == BLOCK_BYTES && st.chunkSize == BLOCK_BYTES
    requires |s| == BLOCK_BYTES * (q + 1) && st.chunk[..st.chunkSize] == s[|s| - st.chunkSize..]
    ensures s[BLOCK_BYTES * q..BLOCK_BYTES * q + BLOCK_BYTES] == st.chunk
  {
    assert st.chunk[..st.chunkSize] == st.chunk;
  }

  /** Copying bytes x into the pending block (where they fit) extends the
      absorbed stream by x. */
  lemma {:induction false} CopyKeepsAbsorbed(st: State, h0: seq<Word>, s: seq<Byte>, x: seq<Byte>)
    requires Absorbed(st, h0, s) && st.chunkSize + |x| <= BLOCK_BYTES
    requires st.bytesCompressed + |x| < TWO_64
    ensures Absorbed(CopyIn(st, x), h0, s + x)
  {
    var cs := st.chunkSize;
    var r := CopyIn(st, x);
    var s' := s + x;
    assert r.chunk[..cs + |x|] == r.chunk[..cs] + r.chunk[cs..cs + |x|];
    assert s'[|s'| - (cs + |x|)..] == s[|s| - cs..] + x;
    var q := (|s| - cs) / BLOCK_BYTES;
    assert (|s'| - (cs + |x|)) / BLOCK_BYTES == q;
    BlocksOfExtension(s, x, q);
  }

  /** Cutting a + b at a point inside a. */
  lemma {:induction false} SplitInsidePrefix(a: seq<Byte>, b: seq<Byte>, n: nat)
    requires n <= |a|
    ensures (a + b)[..n] == a[..n] && (a + b)[n..] == a[n..] + b
  {
  }

  /** Cutting a + b at a point k bytes into b. */
  lemma {:induction false} SplitPastPrefix(a: seq<Byte>, b: seq<Byte>, k: nat, m: nat)
    requires k <= |b| && m == |a| + k
    ensures (a + b)[..m] == a + b[..k] && (a + b)[m..] == b[k..]
  {
  }

  lemma {:induction false} AppendSplit(s: seq<Byte>, data: seq<Byte>, n: nat)
    requires n <= |data|
    ensures s + data[..n] + data[n..] == s + data
  {
    assert data[..n] + data[n..] == data;
  }

  /** Update extends the absorbed stream by exactly the data it is given. */
  lemma {:induction false} AbsorbExtendsStream(st: State, h0: seq<Word>, s: seq<Byte>, data: seq<Byte>)
    requires Absorbed(st, h0, s) && st.bytesCompressed + |data| < TWO_64
    ensures Absorbed(Absorb(st, data), h0, s + data)
    decreases |data|
  {
    if |data| == 0 {
      assert s + data == s;
    } else {
      var s1 := FlushIfFull(st);
      if st.chunkSize == BLOCK_BYTES {
        FlushKeepsAbsorbed(st, h0, s);
      }
      var n := CopySize(s1, data);
      var x := data[..n];
      var rest := data[n..];
      assert Absorbed(s1, h0, s);
      CopyKeepsAbsorbed(s1, h0, s, x);
      var s2 := CopyIn(s1, x);
      assert Absorbed(s2, h0, s + x);
      assert s2.bytesCompressed + |rest| < TWO_64;
      AbsorbExtendsStream(s2, h0, s + x, rest);
      AppendSplit(s, data, n);
      assert Absorb(st, data) == Absorb(s2, rest);
    }
  }

  /* ---- Update does not depend on how the input is split ---- */

  /** Copying x and then y right after it is copying x + y. */
  lemma {:induction false} OverwriteTwice(buf: seq<Byte>, at: nat, x: seq<Byte>, y: seq<Byte>)
    requires at + |x| + |y| <= |buf|
    ensures Overwrite(Overwrite(buf, at, x), at + |x|, y) == Overwrite(buf, at, x + y)
  {
    var l := Overwrite(Overwrite(buf, at, x), at + |x|, y);
    var r := Overwrite(buf, at, x + y);
    forall j | 0 <= j < |l|
      ensures l[j] == r[j]
    {
      OverwriteAt(buf, at, x, j);
      OverwriteAt(Overwrite(buf, at, x), at + |x|, y, j);
      OverwriteAt(buf, at, x + y, j);
    }
  }

  lemma {:induction false} CopyInTwice(st: State, x: seq<Byte>, y: seq<Byte>)
    requires WellFormed(st) && st.chunkSize + |x| + |y| <= BLOCK_BYTES
    requires st.bytesCompressed + |x| + |y| < TWO_64
    ensures CopyIn(CopyIn(st, x), y) == CopyIn(st, x + y)
  {
    OverwriteTwice(st.chunk, st.chunkSize, x, y);
  }

  /** Update(a) followed by Update(b) leaves the object exactly as Update(a + b)
      does, stale buffer bytes included. */
  lemma {:induction false} AbsorbConcat(st: State, a: seq<Byte>, b: seq<Byte>)
    requires WellFormed(st) && st.bytesCompressed + |a| + |b| < TWO_64
    ensures Absorb(Absorb(st, a), b) == Absorb(st, a + b)
    decreases |a|, 1
  {
    if |a| == 0 {
      assert a + b == b;
    } else if FlushIfFull(st).chunkSize + CopySize(FlushIfFull(st), a) == BLOCK_BYTES {
      AbsorbConcatFills(st, a, b);
    } else {
      AbsorbConcatFits(st, a, b);
    }
  }

  /** The first pass over a fills the pending block: both sides continue with
      the same state on the rest of a (followed by b). */
  lemma {:induction false} AbsorbConcatFills(st: State, a: seq<Byte>, b: seq<Byte>)
    requires WellFormed(st) && st.bytesCompressed + |a| + |b| < TWO_64 && |a| > 0
    requires FlushIfFull(st).chunkSize + CopySize(FlushIfFull(st), a) == BLOCK_BYTES
    ensures Absorb(Absorb(st, a), b) == Absorb(st, a + b)
    decreases |a|, 0
  {
    var ab := a + b;
    var s1 := FlushIfFull(st);
    var n := CopySize(s1, a);
    var s2 := CopyIn(s1, a[..n]);
    assert Absorb(st, a) == Absorb(s2, a[n..]);
    assert CopySize(s1, ab) == n;
    SplitInsidePrefix(a, b, n);
    assert Absorb(st, ab) == Absorb(s2, a[n..] + b);
    AbsorbConcat(s2, a[n..], b);
  }

  /** All of a fits in the pending block without filling it: Update(b) then
      continues the same copy. */
  lemma {:induction false} AbsorbConcatFits(st: State, a: seq<Byte>, b: seq<Byte>)
    requires WellFormed(st) && st.bytesCompressed + |a| + |b| < TWO_64 && |a| > 0
    requires FlushIfFull(st).chunkSize + CopySize(FlushIfFull(st), a) < BLOCK_BYTES
    ensures Absorb(Absorb(st, a), b) == Absorb(st, a + b)
  {
    var s1 := FlushIfFull(st);
    AbsorbFitting(st, a);
    if |b| == 0 {
      assert a + b == a;
    } else {
      AbsorbStartsWithFlush(st, a + b);
      AbsorbContinuesCopy(s1, a, b);
    }
  }

  /** Input that fits without filling the pending block is only copied. */
  lemma {:induction false} AbsorbFitting(st: State, a: seq<Byte>)
    requires WellFormed(st) && st.bytesCompressed + |a| < TWO_64 && |a| > 0
    requires FlushIfFull(st).chunkSize + CopySize(FlushIfFull(st), a) < BLOCK_BYTES
    ensures Absorb(st, a) == CopyIn(FlushIfFull(st), a)
  {
    assert a[..|a|] == a && a[|a|..] == [];
  }

  /** Update on non-empty input starts by compressing a full pending block. */
  lemma {:induction false} AbsorbStartsWithFlush(st: State, data: seq<Byte>)
    requires WellFormed(st) && st.bytesCompressed + |data| < TWO_64 && |data| > 0
    ensures Absorb(st, data) == Absorb(FlushIfFull(st), data)
  {
  }

  /** From a pending block with room for all of a and more, Update(a + b)
      copies a and goes on with b. */
  lemma {:induction false} AbsorbContinuesCopy(st: State, a: seq<Byte>, b: seq<Byte>)
    requires WellFormed(st) && st.bytesCompressed + |a| + |b| < TWO_64 && |b| > 0
    requires st.chunkSize + |a| < BLOCK_BYTES
    ensures Absorb(st, a + b) == Absorb(CopyIn(st, a), b)
  {
    var ab := a + b;
    var s2 := CopyIn(st, a);
    var k := CopySize(s2, b);
    var m := CopySize(st, ab);
    assert m == |a| + k;
    calc {
      Absorb(st, ab);
      { AbsorbPass(st, ab); }
      Absorb(CopyIn(st, ab[..m]), ab[m..]);
      { SplitPastPrefix(a, b, k, m); }
      Absorb(CopyIn(st, a + b[..k]), b[k..]);
      { CopyInTwice(st, a, b[..k]); }
      Absorb(CopyIn(s2, b[..k]), b[k..]);
      { AbsorbPass(s2, b); }
      Absorb(s2, b);
    }
  }

  /** One pass of the Update loop, on a pending block that is not full. */
  lemma {:induction false} AbsorbPass(st: State, data: seq<Byte>)
    requires WellFormed(st) && st.bytesCompressed + |data| < TWO_64 && |data| > 0
    requires st.chunkSize < BLOCK_BYTES
    ensures var n := CopySize(st, data);
      Absorb(st, data) == Absorb(CopyIn(st, data[..n]), data[n..])
  {
  }

  /* ---- Finalize yields the RFC 7693 digest ---- */

  /** The data blocks of the digest are the blocks of the stream the object
      hashes: the padded key block (if any) followed by the message. */
  lemma {:induction false} DataBlocksOfStream(key: seq<Byte>, msg: seq<Byte>)
    requires |key| <= BLOCK_BYTES
    ensures var s := KeyPrefix(key) + msg;
      DataBlocks(key, msg) == if |s| == 0 then [ZeroPad([])] else MessageBlocks(s)
  {
    var p := KeyPrefix(key);
    var s := p + msg;
    if |key| > 0 {
      if |msg| == 0 {
        assert s == p;
        assert ZeroPad(p) == p[..|p|] == p;
      } else {
        assert s[..BLOCK_BYTES] == p;
        assert s[BLOCK_BYTES..] == msg;
      }
    } else {
      assert s == msg;
    }
  }

  /** A zero-padded full block is the block itself. */
  lemma {:induction false} ZeroPadFull(x: seq<Byte>)
    requires |x| == BLOCK_BYTES
    ensures ZeroPad(x) == x
  {
    assert ZeroPad(x)[..|x|] == ZeroPad(x);
  }

  /** When cs > 0 pending bytes end the stream s, the message blocks of s are
      its full leading blocks and, last, those cs bytes zero-padded. */
  lemma {:induction false} MessageBlocksSplit(s: seq<Byte>, cs: nat)
    requires 0 < cs <= BLOCK_BYTES && cs <= |s| && (|s| - cs) % BLOCK_BYTES == 0
    ensures var q := (|s| - cs) / BLOCK_BYTES;
      |MessageBlocks(s)| == q + 1
      && MessageBlocks(s)[..q] == Blocks(s, q)
      && MessageBlocks(s)[q] == ZeroPad(s[|s| - cs..])
  {
    var d := MessageBlocks(s);
    var q := (|s| - cs) / BLOCK_BYTES;
    assert |s| == BLOCK_BYTES * q + cs;
    assert |d| == q + 1;
    forall i | 0 <= i < q
      ensures d[i] == Blocks(s, q)[i]
    {
      MessageBlocksAt(s, i);
      assert Min(128 * i + 128, |s|) == 128 * i + 128;
      ZeroPadFull(s[128 * i..128 * i + 128]);
    }
    MessageBlocksAt(s, q);
    assert Min(128 * q + 128, |s|) == |s|;
  }

  /** The data blocks of stream s: its message blocks, or one zero block
      when s is empty. */
  function StreamBlocks(s: seq<Byte>): (d: seq<seq<Byte>>)
    ensures |d| == if |s| == 0 then 1 else (|s| + 127) / 128
    ensures forall i :: 0 <= i < |d| ==> |d[i]| == BLOCK_BYTES
  {
    if |s| == 0 then [ZeroPad([])] else MessageBlocks(s)
  }

  /** Once the object has absorbed the whole stream s, with a non-empty pending
      block unless s is empty, Finalize's output is the digest over the data
      blocks of s: every block but the last compressed in order, then the last
      one as the final block with counter |s|. */
  lemma {:induction false} OutputOfAbsorbed(st: State, h0: seq<Word>, s: seq<Byte>)
    requires Absorbed(st, h0, s) && (|s| > 0 ==> st.chunkSize > 0)
    ensures Output(st) == DigestOfBlocks(h0, StreamBlocks(s), |s|, st.outputLength)
  {
    var cs := st.chunkSize;
    if |s| == 0 {
      assert st.chunk[..cs] == [];
      assert Blocks(s, 0) == [];
    } else {
      MessageBlocksSplit(s, cs);
    }
  }

  /** After Init(key, nn) and Update(msg) the object has absorbed the padded
      key block (if any) and msg from the parameter-block IV, and its pending
      block is empty only if both are. */
  lemma {:induction false} InitUpdateAbsorbs(st0: State, key: seq<Byte>, msg: seq<Byte>, nn: Byte)
    requires |st0.chunk| == BLOCK_BYTES && 1 <= nn <= 64 && |key| <= 64
    requires StreamLength(key, msg) < TWO_64
    ensures Initialize(st0, key, nn).Success?
    ensures var st := Absorb(Initialize(st0, key, nn).value, msg);
      var s := KeyPrefix(key) + msg;
      Absorbed(st, ParamInit(|key| as Byte, nn), s) && (|s| > 0 ==> st.chunkSize > 0)
      && st.outputLength == nn as nat
  {
    InitializeAbsorbsKeyPrefix(st0, key, nn);
    AbsorbExtendsStream(Initialize(st0, key, nn).value, ParamInit(|key| as Byte, nn), KeyPrefix(key), msg);
  }

  /** Init(key, nn), Update(msg) and Finalize() on any object compute
      BLAKE2b(key, msg, nn) of RFC 7693 section 3.3, for every message shorter
      than 2^64 bytes (with the key block). */
  lemma {:induction false} StreamingMatchesDigest(st0: State, key: seq<Byte>, msg: seq<Byte>, nn: Byte)
    requires |st0.chunk| == BLOCK_BYTES && 1 <= nn <= 64 && |key| <= 64
    requires StreamLength(key, msg) < TWO_64
    ensures Initialize(st0, key, nn).Success?
    ensures Output(Absorb(Initialize(st0, key, nn).value, msg)) == Digest(key, msg, nn as nat)
  {
    InitUpdateAbsorbs(st0, key, msg, nn);
    var s := KeyPrefix(key) + msg;
    var st := Absorb(Initialize(st0, key, nn).value, msg);
    OutputOfAbsorbed(st, ParamInit(|key| as Byte, nn), s);
    DataBlocksOfStream(key, msg);
    ByteRoundTrip(nn);
    assert |s| == StreamLength(key, msg);
    assert DataBlocks(key, msg) == StreamBlocks(s);
  }

  lemma {:induction false} ByteRoundTrip(b: Byte)
    ensures (b as nat) as Byte == b
  {
  }

  /* ---- Init's key padding as written ---- */

  /** The pending block that Init leaves for a key when the memset meant to
      zero-fill it misses the buffer (it indexes 64-bit words with a byte
      count): the key, then whatever the buffer held before. */
  function KeyBlockAsWritten(buf: seq<Byte>, key: seq<Byte>): (r: seq<Byte>)
    requires |buf| == BLOCK_BYTES && 0 < |key| <= 64
    ensures |r| == BLOCK_BYTES
    ensures r[..|key|] == key && r[|key|..] == buf[|key|..]
  {
    key + buf[|key|..]
  }

  /** Init as written: like Initialize, but the key block keeps stale bytes. */
  function InitializeAsWritten(st: State, key: seq<Byte>, nn: Byte): (r: Result<State>)
    requires |st.chunk| == BLOCK_BYTES
    ensures r.Failure? <==> Initialize(st, key, nn).Failure?
    ensures r.Success? && |key| > 0 ==>
      r.value == Initialize(st, key, nn).value.(chunk := KeyBlockAsWritten(st.chunk, key))
    ensures r.Success? && |key| == 0 ==> r == Initialize(st, key, nn)
  {
    if nn > 64 || nn < 1 then Failure(InvalidOutputLength)
    else if |key| > 64 then Failure(KeyTooLong)
    else if |key| > 0 then
      Success(State(ParamInit(|key| as Byte, nn), KeyBlockAsWritten(st.chunk, key), BLOCK_BYTES, BLOCK_BYTES, nn as nat))
    else
      Success(State(ParamInit(|key| as Byte, nn), st.chunk, 0, 0, nn as nat))
  }

  /** On a buffer holding a non-zero byte past the key, the key block as
      written is not the zero-padded key d[0] of RFC 7693 section 3.3: an
      object reused with key [1] after any input that left 0xFF bytes behind
      hashes the wrong first block. */
  lemma {:induction false} KeyPaddingKeepsStaleBytes()
    ensures var buf := seq(BLOCK_BYTES, _ => 0xFF);
      KeyBlockAsWritten(buf, [1]) != ZeroPad([1])
      && InitializeAsWritten(State([], buf, 0, 0, 64), [1], 64).value.chunk
         != Initialize(State([], buf, 0, 0, 64), [1], 64).value.chunk
  {
    var buf: seq<Byte> := seq(BLOCK_BYTES, _ => 0xFF);
    assert KeyBlockAsWritten(buf, [1])[1] == 0xFF;
    assert ZeroPad([1])[1] == 0;
  }

  /** On the all-zero buffer of a newly constructed object the stale bytes are
      zeros, so the first Init behaves as intended. */
  lemma {:induction false} KeyPaddingFreshBuffer(st: State, key: seq<Byte>, nn: Byte)
    requires st.chunk == seq(BLOCK_BYTES, _ => 0)
    ensures InitializeAsWritten(st, key, nn) == Initialize(st, key, nn)
  {
    if 0 < |key| <= 64 {
      var r := KeyBlockAsWritten(st.chunk, key);
      forall j | 0 <= j < BLOCK_BYTES
        ensures r[j] == ZeroPad(key)[j]
      {
        if j < |key| {
          assert r[..|key|][j] == r[j];
        } else {
          assert r[|key|..][j - |key|] == r[j];
        }
      }
      assert r == ZeroPad(key);
    }
  }
}
