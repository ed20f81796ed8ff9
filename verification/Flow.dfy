/**
 The mempool entropy flow of node/flow_harvester.go: transaction hashes are folded into a 32-byte
 pool eight bytes at a time and remembered in a ring, and FlowCompute hands out bytes of a buffer
 that is refilled with hashes of the pool. The hash function is a parameter with 32-byte results.
 */
module Flow {
  import opened Common

  datatype Byte = Byte(v: bv8)

  type Bytes = seq<Byte>
  type Hash = h: Bytes | |h| == 32 witness seq(32, _ => Byte(0))

  const Zero: Hash := seq(32, _ => Byte(0))

  // ---------- the pool ----------

  function Xor(a: Byte, b: Byte): Byte {
    Byte(a.v ^ b.v)
  }

  /** Exclusive or of byte i over a list of hashes. */
  function XorAt(hs: seq<Hash>, i: nat): Byte
    requires i < 32
  {
    if hs == [] then Byte(0) else Xor(XorAt(hs[..|hs| - 1], i), hs[|hs| - 1][i])
  }

  /** The pool is the bytewise exclusive or of the hashes. */
  ghost predicate Folded(pool: Hash, hs: seq<Hash>) {
    forall i | 0 <= i < 32 :: pool[i] == XorAt(hs, i)
  }

  lemma XorParts(a: bv8, b: bv8, c: bv8)
    ensures (a ^ b) ^ c == a ^ (b ^ c) && a ^ b == b ^ a && a ^ a == 0 && a ^ 0 == a
  {
  }

  /** The pool of two batches is the exclusive or of their pools, so neither the order in which
      hashes arrive nor how they are batched matters, and a hash seen twice leaves no trace. */
  lemma XorConcat(a: seq<Hash>, b: seq<Hash>, i: nat)
    requires i < 32
    ensures XorAt(a + b, i).v == XorAt(a, i).v ^ XorAt(b, i).v
    ensures XorAt(a + b, i) == XorAt(b + a, i)
    ensures XorAt(a + a, i) == Byte(0)
  {
    XorOneWay(a, b, i);
    XorOneWay(b, a, i);
    XorOneWay(a, a, i);
    XorParts(XorAt(a, i).v, XorAt(b, i).v, 0);
    hide XorAt;
  }

  lemma {:induction false} XorOneWay(a: seq<Hash>, b: seq<Hash>, i: nat)
    requires i < 32
    ensures XorAt(a + b, i).v == XorAt(a, i).v ^ XorAt(b, i).v
    decreases |b|
  {
    hide XorAt, Xor;
    if b == [] {
      assert a + b == a;
      XorStep(b, Zero, i);
      XorParts(XorAt(a, i).v, 0, 0);
    } else {
      var n := |b| - 1;
      XorOneWay(a, b[..n], i);
      XorStep(a + b[..n], b[n], i);
      XorStep(b[..n], b[n], i);
      assert a + b == (a + b[..n]) + [b[n]] && b == b[..n] + [b[n]];
      XorParts(XorAt(a, i).v, XorAt(b[..n], i).v, b[n][i].v);
    }
  }

  lemma XorStep(hs: seq<Hash>, h: Hash, i: nat)
    requires i < 32
    ensures XorAt([], i).v == 0 && XorAt(hs + [h], i).v == XorAt(hs, i).v ^ h[i].v
  {
    assert (hs + [h])[..|hs|] == hs;
  }

  datatype Word = Word(v: bv64)

  /** Eight bytes as a little-endian word. */
  function Bits(b0: bv8, b1: bv8, b2: bv8, b3: bv8, b4: bv8, b5: bv8, b6: bv8, b7: bv8): bv64 {
    (b0 as bv64) | ((b1 as bv64) << 8) | ((b2 as bv64) << 16) | ((b3 as bv64) << 24) |
    ((b4 as bv64) << 32) | ((b5 as bv64) << 40) | ((b6 as bv64) << 48) | ((b7 as bv64) << 56)
  }

  function Packed(b0: Byte, b1: Byte, b2: Byte, b3: Byte, b4: Byte, b5: Byte, b6: Byte, b7: Byte): Word {
    Word(Bits(b0.v, b1.v, b2.v, b3.v, b4.v, b5.v, b6.v, b7.v))
  }

  function Pack(s: Bytes, offset: nat): Word
    requires offset + 8 <= |s|
  {
    Packed(s[offset], s[offset + 1], s[offset + 2], s[offset + 3], s[offset + 4], s[offset + 5], s[offset + 6], s[offset + 7])
  }

  function XorWords(x: Word, y: Word): Word {
    Word(x.v ^ y.v)
  }

  function Low(x: Word): Byte {
    Byte((x.v & 0xFF) as bv8)
  }

  function ShiftByte(x: Word): Word {
    Word(x.v >> 8)
  }

  /** Byte j of a word, the least significant first: the low byte after a shift by 8 * j bits. */
  function ByteAt(x: Word, j: nat): Byte
    requires j < 8
    decreases j
  {
    if j == 0 then Low(x) else ByteAt(ShiftByte(x), j - 1)
  }

  lemma LowXor(x: Word, y: Word)
    ensures Low(XorWords(x, y)) == Xor(Low(x), Low(y))
  {
  }

  lemma ShiftXor(x: Word, y: Word)
    ensures ShiftByte(XorWords(x, y)) == XorWords(ShiftByte(x), ShiftByte(y))
  {
  }

  lemma {:induction false} ByteAtXor(x: Word, y: Word, j: nat)
    requires j < 8
    ensures ByteAt(XorWords(x, y), j) == Xor(ByteAt(x, j), ByteAt(y, j))
    decreases j
  {
    hide Low, Xor, XorWords, ShiftByte;
    if j == 0 {
      LowXor(x, y);
    } else {
      ShiftXor(x, y);
      ByteAtXor(ShiftByte(x), ShiftByte(y), j - 1);
    }
  }

  lemma LowBits(b0: bv8, b1: bv8, b2: bv8, b3: bv8, b4: bv8, b5: bv8, b6: bv8, b7: bv8)
    ensures (Bits(b0, b1, b2, b3, b4, b5, b6, b7) & 0xFF) as bv8 == b0
  {
  }

  lemma HighBits(b0: bv8, b1: bv8, b2: bv8, b3: bv8, b4: bv8, b5: bv8, b6: bv8, b7: bv8)
    ensures Bits(b0, b1, b2, b3, b4, b5, b6, b7) >> 8 == Bits(b1, b2, b3, b4, b5, b6, b7, 0)
  {
  }

  lemma LowPacked(b0: Byte, b1: Byte, b2: Byte, b3: Byte, b4: Byte, b5: Byte, b6: Byte, b7: Byte)
    ensures Low(Packed(b0, b1, b2, b3, b4, b5, b6, b7)) == b0
  {
    hide Bits;
    LowBits(b0.v, b1.v, b2.v, b3.v, b4.v, b5.v, b6.v, b7.v);
  }

  lemma ShiftPacked(b0: Byte, b1: Byte, b2: Byte, b3: Byte, b4: Byte, b5: Byte, b6: Byte, b7: Byte)
    ensures ShiftByte(Packed(b0, b1, b2, b3, b4, b5, b6, b7)) == Packed(b1, b2, b3, b4, b5, b6, b7, Byte(0))
  {
    hide Bits;
    HighBits(b0.v, b1.v, b2.v, b3.v, b4.v, b5.v, b6.v, b7.v);
  }

  function Pick(b0: Byte, b1: Byte, b2: Byte, b3: Byte, b4: Byte, b5: Byte, b6: Byte, b7: Byte, j: nat): Byte {
    if j == 0 then b0 else if j == 1 then b1 else if j == 2 then b2 else if j == 3 then b3
    else if j == 4 then b4 else if j == 5 then b5 else if j == 6 then b6 else if j == 7 then b7 else Byte(0)
  }

  lemma {:induction false} ByteAtPacked(b0: Byte, b1: Byte, b2: Byte, b3: Byte, b4: Byte, b5: Byte, b6: Byte, b7: Byte, j: nat)
    requires j < 8
    ensures ByteAt(Packed(b0, b1, b2, b3, b4, b5, b6, b7), j) == Pick(b0, b1, b2, b3, b4, b5, b6, b7, j)
    decreases j
  {
    hide Low, Packed, ShiftByte;
    LowPacked(b0, b1, b2, b3, b4, b5, b6, b7);
    ShiftPacked(b0, b1, b2, b3, b4, b5, b6, b7);
    if j > 0 {
      ByteAtPacked(b1, b2, b3, b4, b5, b6, b7, Byte(0), j - 1);
    }
  }

  lemma ByteAtPack(s: Bytes, offset: nat, j: nat)
    requires offset + 8 <= |s| && j < 8
    ensures ByteAt(Pack(s, offset), j) == s[offset + j]
  {
    hide Low, Packed, ByteAt;
    ByteAtPacked(s[offset], s[offset + 1], s[offset + 2], s[offset + 3], s[offset + 4], s[offset + 5], s[offset + 6], s[offset + 7], j);
  }

  /** Byte j of the exclusive or of two packed words is the exclusive or of the two bytes. */
  lemma PackXor(a: Bytes, b: Bytes, offset: nat, j: nat)
    requires offset + 8 <= |a| && offset + 8 <= |b| && j < 8
    ensures ByteAt(XorWords(Pack(a, offset), Pack(b, offset)), j) == Xor(a[offset + j], b[offset + j])
  {
    hide *;
    ByteAtXor(Pack(a, offset), Pack(b, offset), j);
    ByteAtPack(a, offset, j);
    ByteAtPack(b, offset, j);
  }

  // ---------- the ring ----------

  /** The slot of the k-th newest of n hashes: one step back from the write position per hash. */
  lemma SlotOf(n: nat, k: nat, size: nat)
    requires size > 0 && k < n && k < size
    ensures (n % size - 1 - k + size) % size == (n - 1 - k) % size
  {
    var q, r := n / size, n % size;
    assert n == size * q + r;
    if r >= k + 1 {
      QuotientUnique(n - 1 - k, size, q, r - 1 - k);
      QuotientUnique(r - 1 - k + size, size, 1, r - 1 - k);
    } else {
      assert q >= 1;
      assert n - 1 - k == size * (q - 1) + (r - 1 - k + size);
      QuotientUnique(n - 1 - k, size, q - 1, r - 1 - k + size);
      QuotientUnique(r - 1 - k + size, size, 0, r - 1 - k + size);
    }
  }

  /** Different recent hashes sit in different slots. */
  lemma SlotsApart(i: nat, j: nat, size: nat)
    requires size > 0 && i < j < i + size
    ensures i % size != j % size
  {
    if i % size == j % size {
      var a, b := i / size, j / size;
      assert j - i == size * (b - a);
      if b - a >= 1 { MulMono(size, b - a, 1); } else { MulMono(size, 0, b - a); }
    }
  }

  class MempoolFlow {
    var pool: Hash
    var hashCount: nat
    var recentHashes: array<Hash>
    var ringIdx: nat
    const ringSize: nat
    ghost var history: seq<Hash>    // everything ingested
    ghost var unharvested: seq<Hash>  // everything ingested since the last Harvest

    ghost predicate Valid()
      reads this, recentHashes
    {
      && ringSize >= 32 && recentHashes.Length == ringSize
      && hashCount == |history| && ringIdx == |history| % ringSize
      && (forall i | 0 <= i < |history| && |history| - ringSize <= i :: recentHashes[i % ringSize] == history[i])
      && Folded(pool, unharvested)
    }

    constructor (size: int)
      ensures Valid() && history == [] && unharvested == [] && fresh(recentHashes)
      ensures ringSize == if size < 32 then 32 else size
    {
      ringSize := if size < 32 then 32 else size;
      recentHashes := new Hash[if size < 32 then 32 else size](_ => Zero);
      pool, hashCount, ringIdx, history, unharvested := Zero, 0, 0, [], [];
    }

    method Ingest(hashes: seq<Hash>)
      requires Valid()
      modifies this, recentHashes
      ensures Valid() && history == old(history) + hashes && unharvested == old(unharvested) + hashes
      ensures recentHashes == old(recentHashes)
    {
      for i := 0 to |hashes|
        invariant Valid() && recentHashes == old(recentHashes)
        invariant history == old(history) + hashes[..i] && unharvested == old(unharvested) + hashes[..i]
      {
        IngestOne(hashes[i]);
        assert hashes[..i + 1] == hashes[..i] + [hashes[i]];
      }
      assert hashes[..|hashes|] == hashes;
    }

    method IngestOne(h: Hash)
      requires Valid()
      modifies this, recentHashes
      ensures Valid() && history == old(history) + [h] && unharvested == old(unharvested) + [h]
      ensures recentHashes == old(recentHashes)
    {
      var mixed := MixPool(pool, h);
      ghost var n := |history|;
      assert (unharvested + [h])[..|unharvested|] == unharvested;
      pool := mixed;
      unharvested := unharvested + [h];
      forall i | 0 <= i < n && n + 1 - ringSize <= i ensures i % ringSize != n % ringSize {
        SlotsApart(i, n, ringSize);
      }
      NextSlot(n, ringSize);
      recentHashes[ringIdx] := h;
      ringIdx := (ringIdx + 1) % ringSize;
      history := history + [h];
      hashCount := hashCount + 1;
    }

    /** The hash of the pool, which is then cleared. */
    method Harvest(keccak: Bytes -> Hash) returns (entropy: Hash, count: nat)
      requires Valid()
      modifies this
      ensures Valid() && recentHashes == old(recentHashes) && history == old(history) && unharvested == []
      ensures entropy == keccak(old(pool)) && old(Folded(pool, unharvested)) && count == |history|
    {
      entropy := keccak(pool);
      count := hashCount;
      pool, unharvested := Zero, [];
    }

    /** The last n ingested hashes, newest first, as far as the ring and the history reach. */
    method RecentHashes(n0: nat) returns (result: seq<Hash>)
      requires Valid()
      ensures |result| == Min(n0, Min(ringSize, |history|))
      ensures forall i | 0 <= i < |result| :: result[i] == history[|history| - 1 - i]
    {
      var n := n0;
      if n > ringSize { n := ringSize; }
      if n > hashCount { n := hashCount; }
      result := [];
      for i := 0 to n
        invariant |result| == i && forall j | 0 <= j < i :: result[j] == history[|history| - 1 - j]
      {
        SlotOf(|history|, i, ringSize);
        var idx := (ringIdx - 1 - i + ringSize) % ringSize;
        assert recentHashes[(|history| - 1 - i) % ringSize] == history[|history| - 1 - i];
        result := result + [recentHashes[idx]];
      }
    }
  }

  lemma OneMore(size: nat, q: nat)
    ensures size * (q + 1) == size * q + size
  {
  }

  lemma NextSlot(n: nat, size: nat)
    requires size > 1
    ensures (n % size + 1) % size == (n + 1) % size
  {
    var q, r := n / size, n % size;
    OneMore(size, q);
    if r + 1 < size {
      QuotientUnique(n + 1, size, q, r + 1);
      QuotientUnique(r + 1, size, 0, r + 1);
    } else {
      QuotientUnique(n + 1, size, q + 1, 0);
      QuotientUnique(r + 1, size, 1, 0);
    }
  }

  /** Folds a hash into the pool, four words of eight bytes. */
  method MixPool(pool: Hash, h: Hash) returns (r: Hash)
    ensures forall j | 0 <= j < 32 :: r[j] == Byte(pool[j].v ^ h[j].v)
  {
    forall j | 0 <= j < 32 ensures Xor(pool[j], h[j]) == Byte(pool[j].v ^ h[j].v) {}
    hide *;
    var mixed: Bytes := pool;
    for i := 0 to 4
      invariant |mixed| == 32
      invariant forall j | 0 <= j < 8 * i :: mixed[j] == Xor(pool[j], h[j])
      invariant forall j | 8 * i <= j < 32 :: mixed[j] == pool[j]
    {
      var offset := i * 8;
      var x := XorWords(Pack(mixed, offset), Pack(h, offset));
      ghost var before := mixed;
      for j := 0 to 8
        invariant |mixed| == 32
        invariant forall k | offset <= k < offset + j :: mixed[k] == Xor(before[k], h[k])
        invariant forall k | 0 <= k < 32 && !(offset <= k < offset + j) :: mixed[k] == before[k]
      {
        PackXor(before, h, offset, j);
        mixed := mixed[offset + j := ByteAt(x, j)];
      }
    }
    r := mixed;
  }

  // ---------- the byte stream ----------

  /** What other goroutines do to the flow before a refill: perhaps a harvest, then some hashes. */
  datatype Traffic = Traffic(harvested: bool, ingested: seq<Hash>)

  /** The hashes ingested since the last harvest, after the first k bursts of traffic. */
  function Pending(start: seq<Hash>, traffic: nat -> Traffic, k: nat): seq<Hash> {
    if k == 0 then start
    else
      var t := traffic(k - 1);
      (if t.harvested then [] else Pending(start, traffic, k - 1)) + t.ingested
  }

  /** Entropy e is the hash of the pool of the given hashes. */
  ghost predicate EntropyOf(keccak: Bytes -> Hash, hs: seq<Hash>, e: Hash) {
    exists pool: Hash :: Folded(pool, hs) && e == keccak(pool)
  }

  function Concat(es: seq<Hash>): (s: Bytes)
    ensures |s| == 32 * |es|
  {
    if es == [] then [] else Concat(es[..|es| - 1]) + es[|es| - 1]
  }

  lemma ConcatSnoc(es: seq<Hash>, e: Hash)
    ensures Concat(es + [e]) == Concat(es) + e
  {
    assert (es + [e])[..|es|] == es;
  }

  class FlowCompute {
    const flow: MempoolFlow
    const keccak: Bytes -> Hash
    var buffer: Bytes
    var bufferIdx: nat
    ghost var stream: Bytes     // all entropy ever appended
    ghost var delivered: Bytes  // all bytes ever handed out

    ghost predicate Valid()
      reads this
    {
      Buffered(buffer, bufferIdx, stream, delivered)
    }

    constructor (flow: MempoolFlow, keccak: Bytes -> Hash)
      ensures Valid() && this.flow == flow && this.keccak == keccak && stream == [] && delivered == []
    {
      this.flow, this.keccak := flow, keccak;
      buffer, bufferIdx, stream, delivered := [], 0, [], [];
    }

    method RefillBuffer()
      requires Valid() && flow.Valid()
      modifies this`buffer, this`stream
      ensures Valid() && stream == old(stream) + keccak(flow.pool) && buffer == old(buffer) + keccak(flow.pool)
      ensures EntropyOf(keccak, flow.unharvested, keccak(flow.pool))
    {
      var entropy := keccak(flow.pool);
      Refilled(buffer, bufferIdx, stream, delivered, entropy);
      buffer := buffer + entropy;
      stream := stream + entropy;
    }

    /** What happens to the flow between two refills. */
    method Elapse(t: Traffic)
      requires flow.Valid()
      modifies flow, flow.recentHashes
      ensures flow.Valid() && flow.recentHashes == old(flow.recentHashes)
      ensures flow.unharvested == (if t.harvested then [] else old(flow.unharvested)) + t.ingested
    {
      if t.harvested { var _, _ := flow.Harvest(keccak); }
      flow.Ingest(t.ingested);
    }

    /** Hands out the next n bytes of the stream, whatever happens to the flow between its refills. The
        refill limit is never hit, so the branch that returns fewer bytes padded with zeros is never
        taken. */
    method NextBytes(n: nat, traffic: nat -> Traffic) returns (result: Bytes, ghost es: seq<Hash>)
      requires Valid() && flow.Valid()
      modifies this, flow, flow.recentHashes
      ensures Valid() && flow.Valid() && |result| == n
      ensures delivered == old(delivered) + result && delivered <= stream && stream == old(stream) + Concat(es)
      ensures flow.unharvested == Pending(old(flow.unharvested), traffic, |es|)
      ensures forall k | 0 <= k < |es| :: EntropyOf(keccak, Pending(old(flow.unharvested), traffic, k + 1), es[k])
      ensures es == [] || |stream| - |delivered| < 32
    {
      es := FillUp(n, traffic);
      BufferLeft(buffer, bufferIdx, stream, delivered);
      result := buffer[bufferIdx..bufferIdx + n];
      Advance(buffer, bufferIdx, stream, delivered, n);
      delivered := delivered + result;
      bufferIdx := bufferIdx + n;
      if bufferIdx > 1024 {
        buffer := buffer[bufferIdx..];
        bufferIdx := 0;
      }
    }

    method FillUp(n: nat, traffic: nat -> Traffic) returns (ghost es: seq<Hash>)
      requires Valid() && flow.Valid()
      modifies this`buffer, this`stream, flow, flow.recentHashes
      ensures Valid() && flow.Valid() && stream == old(stream) + Concat(es)
      ensures n <= |buffer| - bufferIdx && (es != [] ==> |buffer| - bufferIdx < n + 32)
      ensures flow.unharvested == Pending(old(flow.unharvested), traffic, |es|)
      ensures forall k | 0 <= k < |es| :: EntropyOf(keccak, Pending(old(flow.unharvested), traffic, k + 1), es[k])
    {
      hide Buffered, EntropyOf, Concat;
      var maxRefills := n / 32 + 10;
      var refillCount := 0;
      ghost var had := |buffer| - bufferIdx;
      es := [];
      NoConcat();
      BufferedIndex(buffer, bufferIdx, stream, delivered);
      while |buffer| - bufferIdx < n
        invariant Valid() && flow.Valid() && flow.recentHashes == old(flow.recentHashes) && |es| == refillCount
        invariant |buffer| - bufferIdx == had + 32 * refillCount && had >= 0
        invariant refillCount > 0 ==> had + 32 * (refillCount - 1) < n
        invariant stream == old(stream) + Concat(es)
        invariant flow.unharvested == Pending(old(flow.unharvested), traffic, refillCount)
        invariant forall k | 0 <= k < refillCount :: EntropyOf(keccak, Pending(old(flow.unharvested), traffic, k + 1), es[k])
        decreases n - (|buffer| - bufferIdx)
      {
        Elapse(traffic(refillCount));
        RefillBuffer();
        ConcatSnoc(es, keccak(flow.pool));
        es := es + [keccak(flow.pool)];
        refillCount := refillCount + 1;
        if refillCount > maxRefills {
          assert false;
          break;
        }
      }
    }
  }

  /** The unread part of the buffer is the undelivered part of the stream. */
  ghost predicate Buffered(buffer: Bytes, idx: nat, stream: Bytes, delivered: Bytes) {
    idx <= |buffer| && delivered <= stream && buffer[idx..] == stream[|delivered|..]
  }

  lemma BufferedIndex(buffer: Bytes, idx: nat, stream: Bytes, delivered: Bytes)
    requires Buffered(buffer, idx, stream, delivered)
    ensures idx <= |buffer|
  {
  }

  lemma NoConcat()
    ensures Concat([]) == []
  {
  }

  lemma BufferLeft(buffer: Bytes, idx: nat, stream: Bytes, delivered: Bytes)
    requires Buffered(buffer, idx, stream, delivered)
    ensures idx <= |buffer| && |buffer| - idx == |stream| - |delivered|
  {
    assert |buffer[idx..]| == |stream[|delivered|..]|;
  }

  lemma Refilled(buffer: Bytes, idx: nat, stream: Bytes, delivered: Bytes, more: Bytes)
    requires Buffered(buffer, idx, stream, delivered)
    ensures Buffered(buffer + more, idx, stream + more, delivered)
  {
    var d := |delivered|;
    assert (buffer + more)[idx..] == buffer[idx..] + more;
    assert (stream + more)[d..] == stream[d..] + more;
  }

  /** Taking n bytes off the buffer takes the next n bytes of the stream. */
  lemma Advance(buffer: Bytes, idx: nat, stream: Bytes, delivered: Bytes, n: nat)
    requires idx + n <= |buffer| && Buffered(buffer, idx, stream, delivered)
    ensures Buffered(buffer, idx + n, stream, delivered + buffer[idx..idx + n])
    ensures Buffered(buffer[idx + n..], 0, stream, delivered + buffer[idx..idx + n])
  {
    var d := |delivered|;
    assert buffer[idx..idx + n] == buffer[idx..][..n] == stream[d..][..n] == stream[d..d + n];
    assert delivered + stream[d..d + n] == stream[..d + n];
    assert buffer[idx + n..] == buffer[idx..][n..] == stream[d..][n..] == stream[d + n..];
    assert buffer[idx + n..][0..] == buffer[idx + n..];
  }
}
