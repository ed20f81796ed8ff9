/**
 Fork synchronisation of node/transport_p2p.go: a peer asks for the blocks of a fork from some height
 on, another peer answers with the encodings of the blocks it has cached, and the asker parses them
 back into its own cache.
 */
module ForkSync {
  import opened Bytes
  import opened Common

  type Word32 = s: bytes | |s| == 32 witness seq(32, _ => 0)
  type uint64 = x: int | 0 <= x < 0x1_0000_0000_0000_0000

  const Two16 := 0x1_0000
  const Two32 := 0x1_0000_0000
  const Two64 := 0x1_0000_0000_0000_0000

  datatype ForkBlock = ForkBlock(forkId: Word32, height: uint64, timestamp: uint64,
                                 prevHash: Word32, stateRoot: Word32, payload: bytes, signature: bytes)

  // ---------- one block ----------

  /** 80 bytes of fixed fields, the payload with a 32-bit length, the signature with a 16-bit length;
      lengths are truncated to their fields. */
  function EncodeBlock(b: ForkBlock): bytes {
    Fixed(b) + Encode(|b.payload|, 4) + b.payload + Encode(|b.signature|, 2) + b.signature
  }

  function Fixed(b: ForkBlock): (s: bytes)
    ensures |s| == 80
  {
    Encode(b.height, 8) + Encode(b.timestamp, 8) + b.prevHash + b.stateRoot
  }

  /** Panic stands for a slice or index out of range. */
  datatype Parsed = Rejected | Panic | Block(block: ForkBlock, read: nat)

  /** The length checks are done in 32-bit arithmetic first, as in the source. */
  function ParseBlock(forkId: Word32, data: bytes): (r: Parsed)
    ensures r.Block? ==> 86 <= r.read <= |data| && r.block.forkId == forkId
  {
    if |data| < 86 then Rejected
    else
      var payloadLen := Decode(data[80..84]);
      if |data| < (84 + payloadLen + 2) % Two32 then Rejected
      else
        var payloadEnd := (84 + payloadLen) % Two32;
        var sigOffset := 84 + payloadLen;
        if payloadEnd < 84 || payloadEnd > |data| || sigOffset + 1 >= |data| then Panic
        else
          var sigLen := Decode(data[sigOffset..sigOffset + 2]);
          if |data| < sigOffset + 2 + sigLen then Rejected
          else
            Heads(data);
            Block(ForkBlock(forkId, Decode(data[..8]), Decode(data[8..16]), data[16..48], data[48..80],
                            data[84..payloadEnd], data[sigOffset + 2..sigOffset + 2 + sigLen]),
                  sigOffset + 2 + sigLen)
  }

  lemma Pow256Values()
    ensures Pow256(2) == Two16 && Pow256(4) == Two32 && Pow256(8) == Two64
  {
    assert Pow256(2) == 65536;
    assert Pow256(4) == 65536 * Pow256(2);
    assert Pow256(8) == 65536 * 65536 * Pow256(4);
  }

  lemma Heads(data: bytes)
    requires |data| >= 86
    ensures Decode(data[..8]) < Two64 && Decode(data[8..16]) < Two64
  {
    Pow256Values();
    DecodeBound(data[..8]);
    DecodeBound(data[8..16]);
  }

  /** The lengths that survive the truncated fields and the 32-bit arithmetic of the parser. */
  predicate Encodable(b: ForkBlock) {
    84 + |b.payload| < Two32 && |b.signature| < Two16
  }

  /** Whatever the parser returns has such lengths. */
  lemma ParsedIsEncodable(forkId: Word32, data: bytes)
    requires ParseBlock(forkId, data).Block?
    ensures Encodable(ParseBlock(forkId, data).block)
  {
    Pow256Values();
    DecodeBound(data[80..84]);
    var sigOffset := 84 + Decode(data[80..84]);
    DecodeBound(data[sigOffset..sigOffset + 2]);
  }

  lemma FixedFields(b: ForkBlock, data: bytes)
    requires |data| >= 86 && data[..80] == Fixed(b)
    ensures data[..8] == Encode(b.height, 8) && data[8..16] == Encode(b.timestamp, 8)
    ensures data[16..48] == b.prevHash && data[48..80] == b.stateRoot
  {
    var f := data[..80];
    assert data[..8] == f[..8] && data[8..16] == f[8..16] && data[16..48] == f[16..48] && data[48..80] == f[48..80];
  }

  lemma FirstParts(h: bytes, e: bytes, p: bytes, tail: bytes)
    ensures var data := h + e + p + tail;
            && data[..|h|] == h && data[|h|..|h| + |e|] == e && data[|h| + |e|..|h| + |e| + |p|] == p
            && data[|h| + |e| + |p|..] == tail
  {
  }

  lemma EncodingLayout(b: ForkBlock, rest: bytes)
    ensures var data := EncodeBlock(b) + rest;
            var p := |b.payload|;
            && |data| == 86 + p + |b.signature| + |rest|
            && data[..80] == Fixed(b) && data[80..84] == Encode(p, 4) && data[84..84 + p] == b.payload
            && data[84 + p..86 + p] == Encode(|b.signature|, 2)
            && data[86 + p..86 + p + |b.signature|] == b.signature
  {
    hide Encode, Fixed;
    var p, e, f, g := b.payload, Encode(|b.payload|, 4), Encode(|b.signature|, 2), b.signature;
    var tail := f + g + [] + rest;
    FirstParts(Fixed(b), e, p, tail);
    FirstParts(f, g, [], rest);
    var data := Fixed(b) + e + p + tail;
    assert EncodeBlock(b) + rest == data;
    hide EncodeBlock;
    var k := 84 + |p|;
    assert data[k..] == tail;
    assert data[k..k + 2] == tail[..2] && data[k + 2..k + 2 + |g|] == tail[2..2 + |g|];
  }

  /** The fields of data read as block b. */
  ghost predicate ReadsAs(data: bytes, b: ForkBlock) {
    var p, g := |b.payload|, |b.signature|;
    && |data| >= 86 + p + g
    && Decode(data[..8]) == b.height && Decode(data[8..16]) == b.timestamp
    && data[16..48] == b.prevHash && data[48..80] == b.stateRoot
    && Decode(data[80..84]) == p && data[84..84 + p] == b.payload
    && Decode(data[84 + p..86 + p]) == g && data[86 + p..86 + p + g] == b.signature
  }

  lemma ParseReads(b: ForkBlock, data: bytes)
    requires ReadsAs(data, b) && Encodable(b)
    ensures ParseBlock(b.forkId, data) == Block(b, 86 + |b.payload| + |b.signature|)
  {
    hide Decode;
    assert (84 + |b.payload|) % Two32 == 84 + |b.payload|;
  }

  lemma EncodingReads(b: ForkBlock, rest: bytes)
    requires Encodable(b)
    ensures ReadsAs(EncodeBlock(b) + rest, b)
  {
    EncodingLayout(b, rest);
    hide Encode, Decode, Fixed, EncodeBlock;
    FixedFields(b, EncodeBlock(b) + rest);
    Pow256Values();
    DecodeEncode(|b.payload|, 4);
    DecodeEncode(|b.signature|, 2);
    DecodeEncode(b.height, 8);
    DecodeEncode(b.timestamp, 8);
  }

  /** Parsing an encoding followed by anything gives the block back, and the exact number of bytes
      it took, if and only if the payload and signature lengths fit. */
  lemma BlockRoundTripIff(b: ForkBlock, rest: bytes)
    ensures ParseBlock(b.forkId, EncodeBlock(b) + rest) == Block(b, |EncodeBlock(b)|) <==> Encodable(b)
  {
    hide ParseBlock, ReadsAs, Encodable, EncodeBlock;
    BlockSize(b);
    if Encodable(b) {
      EncodingReads(b, rest);
      ParseReads(b, EncodeBlock(b) + rest);
    } else if ParseBlock(b.forkId, EncodeBlock(b) + rest).Block? {
      ParsedIsEncodable(b.forkId, EncodeBlock(b) + rest);
    }
  }

  /** The other way round: encoding what was parsed gives back exactly the bytes that were read. */
  lemma ParsedReencodes(forkId: Word32, data: bytes)
    requires ParseBlock(forkId, data).Block?
    ensures var r := ParseBlock(forkId, data); EncodeBlock(r.block) == data[..r.read]
  {
    hide *;
    ParsedFields(forkId, data);
    var b, n := ParseBlock(forkId, data).block, ParseBlock(forkId, data).read;
    var k := 84 + |b.payload|;
    FixedBack(b, data);
    EncodeDecode(data[80..84]);
    EncodeDecode(data[k..k + 2]);
    Reassembled(b, data[..80], data[80..84], data[k..k + 2]);
    Tiles(data, 80, 84, k, k + 2);
    Tiles(data, k + 2, n, n, n);
  }

  lemma Reassembled(b: ForkBlock, h: bytes, e: bytes, f: bytes)
    requires Fixed(b) == h && Encode(|b.payload|, 4) == e && Encode(|b.signature|, 2) == f
    ensures EncodeBlock(b) == h + e + b.payload + f + b.signature
  {
  }

  lemma FixedBack(b: ForkBlock, data: bytes)
    requires |data| >= 80 && b.height == Decode(data[..8]) && b.timestamp == Decode(data[8..16])
    requires b.prevHash == data[16..48] && b.stateRoot == data[48..80]
    ensures Fixed(b) == data[..80]
  {
    hide Encode, Decode;
    EncodeDecode(data[..8]);
    EncodeDecode(data[8..16]);
    Tiles(data, 8, 16, 48, 80);
  }

  /** Adjacent slices make up the whole. */
  lemma Tiles(data: bytes, a: nat, b: nat, c: nat, d: nat)
    requires a <= b <= c <= d <= |data|
    ensures data[..a] + data[a..b] + data[b..c] + data[c..d] == data[..d]
  {
  }

  lemma ParsedFields(forkId: Word32, data: bytes)
    requires ParseBlock(forkId, data).Block?
    ensures var r := ParseBlock(forkId, data);
            var k := 84 + Decode(data[80..84]);
            && k + 2 <= |data|
            && r.read == k + 2 + Decode(data[k..k + 2]) <= |data|
            && r.block == ForkBlock(forkId, Decode(data[..8]), Decode(data[8..16]), data[16..48], data[48..80],
                                    data[84..k], data[k + 2..r.read])
  {
    Pow256Values();
    DecodeBound(data[80..84]);
    hide Decode, Pow256;
  }

  /** Which data is parsed, which is rejected and which makes the parser panic: it panics only on a
      payload length so close to 2^32 that the sum with the fixed part wraps, or that its end
      is not there although the wrapped sum passed the test. */
  lemma ParseOutcome(forkId: Word32, data: bytes)
    ensures |data| < 86 ==> ParseBlock(forkId, data).Rejected?
    ensures |data| >= 86 ==>
              var r, n, p := ParseBlock(forkId, data), |data|, Decode(data[80..84]);
              && (r.Panic? <==> p >= 0x1_0000_0000 - 84 || (p >= 0x1_0000_0000 - 86 && n < 86 + p))
              && (r.Block? <==> p < 0x1_0000_0000 - 84 && 86 + p <= n && 86 + p + Decode(data[84 + p..86 + p]) <= n)
  {
    if |data| >= 86 {
      Pow256Values();
      DecodeBound(data[80..84]);
      hide Decode, Pow256;
    }
  }

  /** A signature of 2^16 bytes does not survive: its length field reads zero. */
  lemma LongSignatureLost(b: ForkBlock)
    requires |b.signature| == Two16
    ensures ParseBlock(b.forkId, EncodeBlock(b)) != Block(b, |EncodeBlock(b)|)
  {
    hide ParseBlock, EncodeBlock;
    BlockRoundTripIff(b, []);
    assert EncodeBlock(b) + [] == EncodeBlock(b);
  }

  lemma BlockSize(b: ForkBlock)
    ensures |EncodeBlock(b)| == 86 + |b.payload| + |b.signature|
  {
  }

  // ---------- many blocks ----------

  function EncodeBlocks(bs: seq<ForkBlock>): bytes {
    if bs == [] then [] else EncodeBlock(bs[0]) + EncodeBlocks(bs[1..])
  }

  datatype Batch = Batch(blocks: seq<ForkBlock>, crashed: bool)

  /** The receiver's loop: stops at the announced count, at the end of the data or at a bad block. */
  function ParseBlocks(forkId: Word32, data: bytes, count: nat): Batch
    decreases count
  {
    if count == 0 || data == [] then Batch([], false)
    else
      match ParseBlock(forkId, data)
      case Rejected => Batch([], false)
      case Panic => Batch([], true)
      case Block(b, n) =>
        var more := ParseBlocks(forkId, data[n..], count - 1);
        Batch([b] + more.blocks, more.crashed)
  }

  predicate OfFork(bs: seq<ForkBlock>, forkId: Word32) {
    forall b | b in bs :: b.forkId == forkId
  }

  predicate AllEncodable(bs: seq<ForkBlock>) {
    forall b | b in bs :: Encodable(b)
  }

  /** Concatenated encodings parse back to the same list. */
  lemma {:induction false} BlocksRoundTrip(forkId: Word32, bs: seq<ForkBlock>)
    requires OfFork(bs, forkId) && AllEncodable(bs)
    ensures ParseBlocks(forkId, EncodeBlocks(bs), |bs|) == Batch(bs, false)
    decreases |bs|
  {
    if bs != [] {
      var b, rest := bs[0], EncodeBlocks(bs[1..]);
      assert b in bs;
      BlocksRoundTrip(forkId, bs[1..]);
      BlockRoundTripIff(b, rest);
      BlockSize(b);
      hide ParseBlock, EncodeBlock, Encodable;
      assert EncodeBlocks(bs) == EncodeBlock(b) + rest;
      assert (EncodeBlock(b) + rest)[|EncodeBlock(b)|..] == rest;
      assert bs == [b] + bs[1..];
    }
  }

  // ---------- the cache ----------

  type Fork = map<uint64, ForkBlock>
  type Cache = map<Word32, Fork>

  function ForkOf(c: Cache, forkId: Word32): Fork {
    if forkId in c then c[forkId] else map[]
  }

  /** ForkCache.Get. */
  function Lookup(c: Cache, forkId: Word32, height: uint64): Option<ForkBlock> {
    if height in ForkOf(c, forkId) then Some(ForkOf(c, forkId)[height]) else None
  }

  function Insert(c: Cache, b: ForkBlock): Cache {
    c[b.forkId := ForkOf(c, b.forkId)[b.height := b]]
  }

  function InsertAll(c: Cache, bs: seq<ForkBlock>): Cache
    decreases |bs|
  {
    if bs == [] then c else InsertAll(Insert(c, bs[0]), bs[1..])
  }

  /** Blocks are stored under their own fork and height. */
  ghost predicate Filed(c: Cache) {
    forall f, h | f in c && h in c[f] :: c[f][h].forkId == f && c[f][h].height == h
  }

  /** The blocks below height n, in increasing height. */
  function BlocksBelow(m: Fork, n: nat): seq<ForkBlock>
    requires n <= Two64
  {
    if n == 0 then [] else BlocksBelow(m, n - 1) + (if n - 1 in m then [m[n - 1]] else [])
  }

  predicate Increasing(bs: seq<ForkBlock>) {
    forall i, j | 0 <= i < j < |bs| :: bs[i].height < bs[j].height
  }

  /** Exactly the cached blocks below n, each once, in strictly increasing height. */
  lemma {:induction false} BlocksBelowExact(c: Cache, forkId: Word32, n: nat)
    requires Filed(c) && n <= Two64
    ensures var bs := BlocksBelow(ForkOf(c, forkId), n);
            && Increasing(bs) && OfFork(bs, forkId)
            && (forall b | b in bs :: b.height < n && b.height in ForkOf(c, forkId) && ForkOf(c, forkId)[b.height] == b)
            && (forall h: uint64 | h < n && h in ForkOf(c, forkId) :: ForkOf(c, forkId)[h] in bs)
  {
    if n > 0 {
      BlocksBelowExact(c, forkId, n - 1);
      var m := ForkOf(c, forkId);
      var before, bs := BlocksBelow(m, n - 1), BlocksBelow(m, n);
      forall h: uint64 | h < n && h in m ensures m[h] in bs {
        if h < n - 1 { assert m[h] in before; }
      }
      forall i, j | 0 <= i < j < |bs| ensures bs[i].height < bs[j].height {
        assert bs[i] in before;
      }
    }
  }

  lemma {:induction false} BlocksBelowStable(m: Fork, n: nat, k: nat)
    requires n <= k <= Two64 && forall h | h in m :: h < n
    ensures BlocksBelow(m, k) == BlocksBelow(m, n)
    decreases k
  {
    if n < k { BlocksBelowStable(m, n, k - 1); }
  }

  predicate HasHeight(bs: seq<ForkBlock>, h: uint64) {
    exists b :: b in bs && b.height == h
  }

  lemma InsertLookup(c: Cache, b: ForkBlock, f: Word32, h: uint64)
    ensures Lookup(Insert(c, b), f, h) == if f == b.forkId && h == b.height then Some(b) else Lookup(c, f, h)
  {
  }

  /** What inserting a list of blocks of one fork does, entry by entry. */
  lemma {:induction false} InsertAllLookup(c: Cache, forkId: Word32, bs: seq<ForkBlock>, f: Word32, h: uint64)
    requires OfFork(bs, forkId) && Increasing(bs)
    ensures f != forkId || !HasHeight(bs, h) ==> Lookup(InsertAll(c, bs), f, h) == Lookup(c, f, h)
    ensures f == forkId ==> forall b | b in bs && b.height == h :: Lookup(InsertAll(c, bs), f, h) == Some(b)
    decreases |bs|
  {
    if bs != [] {
      var b, rest := bs[0], bs[1..];
      hide Lookup, Insert;
      InsertAllLookup(Insert(c, b), forkId, rest, f, h);
      InsertLookup(c, b, f, h);
      assert b in bs;
      assert forall x | x in rest :: x in bs && x.height != b.height;
      assert forall x | x in bs :: x == b || x in rest;
    }
  }

  // ---------- messages ----------

  const Magic0: byte := 0x5A
  const Magic1: byte := 0x45
  const Version: byte := 0x04
  const MsgForkRequest: byte := 0x07
  const MsgForkSync: byte := 0x08

  function EncodeMessage(msgType: byte, header: bytes, payload: bytes): bytes {
    [Magic0, Magic1, Version, msgType] + header + payload
  }

  function RequestMessage(forkId: Word32, fromHeight: uint64): bytes {
    EncodeMessage(MsgForkRequest, forkId + Encode(fromHeight, 8), [])
  }

  function SyncMessage(forkId: Word32, bs: seq<ForkBlock>): bytes {
    EncodeMessage(MsgForkSync, forkId + Encode(|bs|, 4), EncodeBlocks(bs))
  }

  function FromHeight(bs: seq<ForkBlock>, from: uint64): seq<ForkBlock> {
    if bs == [] then []
    else
      var n := |bs| - 1;
      FromHeight(bs[..n], from) + (if bs[n].height >= from then [bs[n]] else [])
  }

  lemma {:induction false} FromHeightMembers(bs: seq<ForkBlock>, from: uint64)
    ensures forall b :: b in FromHeight(bs, from) <==> b in bs && b.height >= from
  {
    if bs != [] {
      var n := |bs| - 1;
      FromHeightMembers(bs[..n], from);
      assert bs == bs[..n] + [bs[n]];
    }
  }

  lemma SnocIncreasing(bs: seq<ForkBlock>, b: ForkBlock)
    requires Increasing(bs) && forall i | 0 <= i < |bs| :: bs[i].height < b.height
    ensures Increasing(bs + [b])
  {
  }

  lemma {:induction false} FromHeightIncreasing(bs: seq<ForkBlock>, from: uint64)
    requires Increasing(bs)
    ensures Increasing(FromHeight(bs, from))
  {
    if bs != [] {
      var n := |bs| - 1;
      var before := FromHeight(bs[..n], from);
      FromHeightIncreasing(bs[..n], from);
      assert FromHeight(bs, from) == before + if bs[n].height >= from then [bs[n]] else [];
      forall i | 0 <= i < |before| ensures before[i].height < bs[n].height {
        FromHeightMembers(bs[..n], from);
        assert before[i] in bs[..n];
      }
      hide FromHeight, Increasing;
      if bs[n].height >= from { SnocIncreasing(before, bs[n]); }
    }
  }

  /** The answer to a fork request, if there is one. */
  function Serve(c: Cache, data: bytes): Option<bytes> {
    if |data| < 44 || data[2] != Version || data[3] != MsgForkRequest then None
    else
      RequestHeight(data);
      var forkId, from := data[4..36], Decode(data[36..44]);
      var bs := FromHeight(BlocksBelow(ForkOf(c, forkId), Two64), from);
      if bs == [] then None else Some(SyncMessage(forkId, bs))
  }

  lemma RequestHeight(data: bytes)
    requires |data| >= 44
    ensures Decode(data[36..44]) < Two64
  {
    Pow256Values();
    DecodeBound(data[36..44]);
  }

  /** The cache after a sync message, and the blocks taken from it. */
  function Absorb(c: Cache, data: bytes): (Cache, Batch) {
    if |data| < 40 || data[2] != Version || data[3] != MsgForkSync then (c, Batch([], false))
    else
      var batch := ParseBlocks(data[4..36], data[40..], Decode(data[36..40]));
      (InsertAll(c, batch.blocks), batch)
  }

  /** A request: the two magic bytes, version 4, type 7, the fork and the height in 8 bytes. */
  lemma RequestLayout(forkId: Word32, from: uint64)
    ensures var data := RequestMessage(forkId, from);
            && |data| == 44 && data[..4] == [0x5A, 0x45, 0x04, 0x07]
            && data[2] == Version && data[3] == MsgForkRequest
            && data[4..36] == forkId && Decode(data[36..44]) == from
  {
    hide Encode, Decode, Pow256;
    var data := RequestMessage(forkId, from);
    FirstParts([Magic0, Magic1, Version, MsgForkRequest], forkId, Encode(from, 8), []);
    assert data == [Magic0, Magic1, Version, MsgForkRequest] + forkId + Encode(from, 8) + [];
    Pow256Values();
    DecodeEncode(from, 8);
  }

  /** An answer: the two magic bytes, version 4, type 8, the fork, the count in 4 bytes, the blocks. */
  lemma SyncLayout(forkId: Word32, bs: seq<ForkBlock>)
    ensures var data := SyncMessage(forkId, bs);
            && |data| >= 40 && data[..4] == [0x5A, 0x45, 0x04, 0x08]
            && data[2] == Version && data[3] == MsgForkSync
            && data[4..36] == forkId && Decode(data[36..40]) == |bs| % Two32 && data[40..] == EncodeBlocks(bs)
  {
    hide EncodeBlocks, Encode, Decode, Pow256;
    var data := SyncMessage(forkId, bs);
    FirstParts([Magic0, Magic1, Version, MsgForkSync], forkId, Encode(|bs|, 4), EncodeBlocks(bs));
    assert data == [Magic0, Magic1, Version, MsgForkSync] + forkId + Encode(|bs|, 4) + EncodeBlocks(bs);
    Pow256Values();
    DecodeEncode(|bs|, 4);
  }

  /** A block list put into a sync message is taken out of it unchanged. */
  lemma SyncRoundTrip(c: Cache, forkId: Word32, bs: seq<ForkBlock>)
    requires OfFork(bs, forkId) && AllEncodable(bs) && |bs| < Two32
    ensures Absorb(c, SyncMessage(forkId, bs)) == (InsertAll(c, bs), Batch(bs, false))
  {
    assert |bs| % Two32 == |bs|;
    hide *;
    AbsorbIs(c, forkId, bs);
    BlocksRoundTrip(forkId, bs);
  }

  lemma AbsorbIs(c: Cache, forkId: Word32, bs: seq<ForkBlock>)
    ensures var batch := ParseBlocks(forkId, EncodeBlocks(bs), |bs| % Two32);
            Absorb(c, SyncMessage(forkId, bs)) == (InsertAll(c, batch.blocks), batch)
  {
    SyncLayout(forkId, bs);
    hide ParseBlocks, SyncMessage, InsertAll, Decode, EncodeBlocks;
  }

  /** bs lists exactly the peer's blocks of the fork at or above a height, in increasing height. */
  ghost predicate Answers(peer: Cache, forkId: Word32, from: uint64, bs: seq<ForkBlock>) {
    && Increasing(bs) && OfFork(bs, forkId)
    && (forall b | b in bs :: b.height >= from && Lookup(peer, forkId, b.height) == Some(b))
    && (forall h: uint64 | h >= from && Lookup(peer, forkId, h).Some? :: Lookup(peer, forkId, h).value in bs)
  }

  /** GetForkBlocks followed by the height filter lists exactly those blocks. */
  lemma ServedBlocks(peer: Cache, forkId: Word32, from: uint64)
    requires Filed(peer)
    ensures Answers(peer, forkId, from, FromHeight(BlocksBelow(ForkOf(peer, forkId), Two64), from))
  {
    var all := BlocksBelow(ForkOf(peer, forkId), Two64);
    BlocksBelowExact(peer, forkId, Two64);
    FromHeightIncreasing(all, from);
    FromHeightMembers(all, from);
  }

  lemma AnswerOverlays(peer: Cache, asker: Cache, forkId: Word32, from: uint64, bs: seq<ForkBlock>, f: Word32, h: uint64)
    requires Filed(peer) && Answers(peer, forkId, from, bs)
    ensures Lookup(InsertAll(asker, bs), f, h) ==
            if f == forkId && h >= from && Lookup(peer, f, h).Some? then Lookup(peer, f, h) else Lookup(asker, f, h)
  {
    hide Lookup, InsertAll;
    InsertAllLookup(asker, forkId, bs, f, h);
    if f == forkId && HasHeight(bs, h) {
      var b :| b in bs && b.height == h;
    } else if f == forkId && h >= from && Lookup(peer, f, h).Some? {
      assert Lookup(peer, f, h).value in bs;
      assert Lookup(peer, f, h).value.height == h by { LookupHeight(peer, forkId, h); }
    }
  }

  lemma LookupHeight(c: Cache, forkId: Word32, h: uint64)
    requires Filed(c) && Lookup(c, forkId, h).Some?
    ensures Lookup(c, forkId, h).value.height == h
  {
  }

  /** The blocks a peer sends for a request. */
  function Served(peer: Cache, forkId: Word32, from: uint64): seq<ForkBlock> {
    FromHeight(BlocksBelow(ForkOf(peer, forkId), Two64), from)
  }

  lemma ServeIs(peer: Cache, forkId: Word32, from: uint64)
    ensures var bs := Served(peer, forkId, from);
            Serve(peer, RequestMessage(forkId, from)) == if bs == [] then None else Some(SyncMessage(forkId, bs))
  {
    RequestLayout(forkId, from);
    hide RequestMessage, SyncMessage, BlocksBelow, FromHeight, Decode;
  }

  /** A message is answered exactly if it is a whole request and a block is cached at or above the
      height it names; the answer names the fork and carries exactly those blocks, by height. */
  lemma ServeIff(c: Cache, data: bytes)
    requires Filed(c)
    ensures Serve(c, data).Some? <==> && |data| >= 44 && data[2] == 0x04 && data[3] == 0x07
                                      && exists h: uint64 :: h >= Decode(data[36..44]) && Lookup(c, data[4..36], h).Some?
    ensures Serve(c, data).Some? ==>
              && Decode(data[36..44]) < Two64
              && var bs := Served(c, data[4..36], Decode(data[36..44]));
                 Answers(c, data[4..36], Decode(data[36..44]), bs) && Serve(c, data).value == SyncMessage(data[4..36], bs)
  {
    if |data| >= 44 {
      RequestHeight(data);
      var forkId, from := data[4..36], Decode(data[36..44]);
      ServedBlocks(c, forkId, from);
      var bs := Served(c, forkId, from);
      hide Decode, SyncMessage, BlocksBelow, FromHeight, Lookup;
      if bs != [] {
        assert bs[0] in bs;
        assert bs[0].height >= from && Lookup(c, forkId, bs[0].height).Some?;
      }
    }
  }

  /** The whole exchange: the peer answers exactly when it has a block at or above the asked height,
      and if the blocks it sends are encodable the asker then holds each of them unchanged and
      everything else as before. */
  lemma SyncDelivers(peer: Cache, asker: Cache, forkId: Word32, from: uint64)
    requires Filed(peer) && Two64 - 1 !in ForkOf(peer, forkId)
    requires AllEncodable(Served(peer, forkId, from)) && |Served(peer, forkId, from)| < Two32
    ensures var answer := Serve(peer, RequestMessage(forkId, from));
            && (answer.Some? <==> exists h: uint64 :: h >= from && Lookup(peer, forkId, h).Some?)
            && (answer.Some? ==>
                  var (after, batch) := Absorb(asker, answer.value);
                  !batch.crashed &&
                  forall f: Word32, h: uint64 ::
                    Lookup(after, f, h) ==
                      if f == forkId && h >= from && Lookup(peer, f, h).Some? then Lookup(peer, f, h) else Lookup(asker, f, h))
  {
    var bs := Served(peer, forkId, from);
    ServedBlocks(peer, forkId, from);
    ServeIs(peer, forkId, from);
    hide Served, Serve, RequestMessage, SyncMessage, Absorb, InsertAll, Encodable, Lookup;
    SyncRoundTrip(asker, forkId, bs);
    if bs != [] {
      assert bs[0] in bs;
      assert bs[0].height >= from && Lookup(peer, forkId, bs[0].height).Some?;
    }
    forall f: Word32, h: uint64
      ensures Lookup(InsertAll(asker, bs), f, h) ==
              if f == forkId && h >= from && Lookup(peer, f, h).Some? then Lookup(peer, f, h) else Lookup(asker, f, h)
    {
      AnswerOverlays(peer, asker, forkId, from, bs, f, h);
    }
  }

  /** The asker holds every block the peer has at or above the height. */
  ghost predicate Delivered(peer: Cache, after: Cache, forkId: Word32, from: uint64) {
    forall h: uint64 | h >= from && Lookup(peer, forkId, h).Some? :: Lookup(after, forkId, h) == Lookup(peer, forkId, h)
  }

  lemma {:induction false} ParsedAllEncodable(forkId: Word32, data: bytes, count: nat)
    ensures AllEncodable(ParseBlocks(forkId, data, count).blocks) && |ParseBlocks(forkId, data, count).blocks| <= count
    decreases count
  {
    hide ParseBlock, Encodable;
    if count > 0 && data != [] && ParseBlock(forkId, data).Block? {
      ParsedIsEncodable(forkId, data);
      var n := ParseBlock(forkId, data).read;
      ParsedSize(forkId, data);
      ParsedAllEncodable(forkId, data[n..], count - 1);
    }
  }

  lemma ParsedSize(forkId: Word32, data: bytes)
    requires ParseBlock(forkId, data).Block?
    ensures ParseBlock(forkId, data).read <= |data|
  {
  }

  lemma {:induction false} InsertedFrom(c: Cache, bs: seq<ForkBlock>, f: Word32, h: uint64)
    requires Lookup(InsertAll(c, bs), f, h).Some?
    ensures Lookup(InsertAll(c, bs), f, h).value in bs || Lookup(InsertAll(c, bs), f, h) == Lookup(c, f, h)
    decreases |bs|
  {
    hide Lookup, Insert;
    if bs != [] {
      InsertedFrom(Insert(c, bs[0]), bs[1..], f, h);
      InsertLookup(c, bs[0], f, h);
    }
  }

  /** A strictly increasing list is no longer than a list that contains all its members. */
  lemma {:induction false} NotLonger(bs: seq<ForkBlock>, within: set<ForkBlock>)
    requires Increasing(bs) && forall b | b in bs :: b in within
    ensures |bs| <= |within|
    decreases |bs|
  {
    if bs != [] {
      var n := |bs| - 1;
      assert bs[n] in bs && bs[n] in within;
      forall b | b in bs[..n] ensures b in within - {bs[n]} {
        assert b in bs;
      }
      NotLonger(bs[..n], within - {bs[n]});
    }
  }

  lemma {:induction false} SetNotLonger(ys: seq<ForkBlock>)
    ensures |set b | b in ys| <= |ys|
  {
    if ys != [] {
      var n := |ys| - 1;
      SetNotLonger(ys[..n]);
      assert (set b | b in ys) == (set b | b in ys[..n]) + {ys[n]};
    }
  }

  /** And only then: an asker that held nothing ends up with every block the peer has at or above the
      height exactly if the blocks sent are encodable and fewer than 2^32. */
  lemma DeliveredIff(peer: Cache, forkId: Word32, from: uint64)
    requires Filed(peer) && Two64 - 1 !in ForkOf(peer, forkId) && Served(peer, forkId, from) != []
    ensures var (after, batch) := Absorb(map[], SyncMessage(forkId, Served(peer, forkId, from)));
            Delivered(peer, after, forkId, from)
            <==> AllEncodable(Served(peer, forkId, from)) && |Served(peer, forkId, from)| < Two32
  {
    var bs := Served(peer, forkId, from);
    ServedBlocks(peer, forkId, from);
    hide Served, SyncMessage, InsertAll, Encodable, Lookup, ParseBlocks, EncodeBlocks, Decode, Absorb;
    if AllEncodable(bs) && |bs| < Two32 {
      SyncRoundTrip(map[], forkId, bs);
      forall h: uint64 | h >= from && Lookup(peer, forkId, h).Some?
        ensures Lookup(InsertAll(map[], bs), forkId, h) == Lookup(peer, forkId, h)
      {
        AnswerOverlays(peer, map[], forkId, from, bs, forkId, h);
      }
    } else {
      AbsorbIs(map[], forkId, bs);
      var blocks := ParseBlocks(forkId, EncodeBlocks(bs), |bs| % Two32).blocks;
      ParsedAllEncodable(forkId, EncodeBlocks(bs), |bs| % Two32);
      if Delivered(peer, InsertAll(map[], blocks), forkId, from) {
        AllArrived(peer, forkId, from, bs, blocks);
      }
    }
  }

  lemma AllArrived(peer: Cache, forkId: Word32, from: uint64, bs: seq<ForkBlock>, blocks: seq<ForkBlock>)
    requires Answers(peer, forkId, from, bs) && Delivered(peer, InsertAll(map[], blocks), forkId, from) && AllEncodable(blocks)
    ensures AllEncodable(bs) && |bs| <= |blocks|
  {
    hide InsertAll, Encodable;
    forall b | b in bs ensures b in blocks {
      assert Lookup(InsertAll(map[], blocks), forkId, b.height) == Some(b);
      InsertedFrom(map[], blocks, forkId, b.height);
    }
    NotLonger(bs, set b | b in blocks);
    SetNotLonger(blocks);
  }

  // ---------- the code: buffers and the cache object ----------

  lemma {:induction false} EncodeAt(v: nat, n: nat, i: nat)
    requires i < n
    ensures Encode(v, n)[i] == (v / Pow256(n - 1 - i)) % 256
    decreases n
  {
    if i < n - 1 {
      EncodeAt(v / 256, n - 1, i);
      assert Encode(v, n)[i] == Encode(v / 256, n - 1)[i];
      DivDiv(v, Pow256(n - 2 - i));
    }
  }

  lemma DivDiv(v: nat, p: nat)
    requires p > 0
    ensures v / 256 / p == v / (256 * p)
  {
    var q, r := v / 256, v % 256;
    var a, b := q / p, q % p;
    assert v == 256 * (a * p + b) + r == (256 * p) * a + (256 * b + r);
    assert 256 * b + r < 256 * p by { MulMono(256, p - 1, b); }
    QuotientUnique(v, 256 * p, a, 256 * b + r);
  }

  /** Writes v big-endian into n bytes of buf, byte by byte, by shifting. */
  method PutUint(buf: array<byte>, offset: nat, v: nat, n: nat)
    requires offset + n <= buf.Length
    modifies buf
    ensures buf[..] == old(buf[..offset]) + Encode(v, n) + old(buf[offset + n..])
  {
    for i := 0 to n
      invariant forall k | 0 <= k < i :: buf[offset + k] == Encode(v, n)[k]
      invariant forall k | 0 <= k < buf.Length && !(offset <= k < offset + i) :: buf[k] == old(buf[k])
    {
      EncodeAt(v, n, i);
      buf[offset + i] := (v / Pow256(n - 1 - i)) % 256;
    }
  }

  method PutBytes(buf: array<byte>, offset: nat, src: bytes)
    requires offset + |src| <= buf.Length
    modifies buf
    ensures buf[..] == old(buf[..offset]) + src + old(buf[offset + |src|..])
  {
    for i := 0 to |src|
      invariant forall k | 0 <= k < i :: buf[offset + k] == src[k]
      invariant forall k | 0 <= k < buf.Length && !(offset <= k < offset + i) :: buf[k] == old(buf[k])
    {
      buf[offset + i] := src[i];
    }
  }

  /** The buffer begins with s. */
  ghost predicate Begins(buf: bytes, s: bytes) {
    s <= buf
  }

  lemma Extend(before: bytes, after: bytes, s: bytes, x: bytes)
    requires |s| + |x| <= |before| && Begins(before, s)
    requires after == before[..|s|] + x + before[|s| + |x|..]
    ensures Begins(after, s + x) && |after| == |before|
  {
  }

  method AppendUint(buf: array<byte>, offset: nat, v: nat, n: nat, ghost s: bytes)
    requires |s| == offset && offset + n <= buf.Length && Begins(buf[..], s)
    modifies buf
    ensures Begins(buf[..], s + Encode(v, n))
  {
    ghost var before := buf[..];
    PutUint(buf, offset, v, n);
    Extend(before, buf[..], s, Encode(v, n));
  }

  method AppendBytes(buf: array<byte>, offset: nat, src: bytes, ghost s: bytes)
    requires |s| == offset && offset + |src| <= buf.Length && Begins(buf[..], s)
    modifies buf
    ensures Begins(buf[..], s + src)
  {
    ghost var before := buf[..];
    PutBytes(buf, offset, src);
    Extend(before, buf[..], s, src);
  }

  /** Every field at its offset; the two lengths modulo the size of their fields. */
  ghost predicate LaidOut(data: bytes, b: ForkBlock) {
    var p, g := |b.payload|, |b.signature|;
    && |data| == 86 + p + g
    && Decode(data[..8]) == b.height && Decode(data[8..16]) == b.timestamp
    && data[16..48] == b.prevHash && data[48..80] == b.stateRoot
    && Decode(data[80..84]) == p % 0x1_0000_0000 && data[84..84 + p] == b.payload
    && Decode(data[84 + p..86 + p]) == g % 0x1_0000 && data[86 + p..] == b.signature
  }

  lemma EncodedFields(b: ForkBlock)
    ensures LaidOut(EncodeBlock(b), b)
  {
    hide Encode, Decode, Fixed, EncodeBlock, Pow256;
    EncodingLayout(b, []);
    var data := EncodeBlock(b);
    assert data + [] == data;
    FixedFields(b, data);
    NumbersBack(b);
    assert data[86 + |b.payload|..] == data[86 + |b.payload|..86 + |b.payload| + |b.signature|];
  }

  lemma NumbersBack(b: ForkBlock)
    ensures Decode(Encode(b.height, 8)) == b.height && Decode(Encode(b.timestamp, 8)) == b.timestamp
    ensures Decode(Encode(|b.payload|, 4)) == |b.payload| % 0x1_0000_0000 && Decode(Encode(|b.signature|, 2)) == |b.signature| % 0x1_0000
  {
    hide Encode, Decode, Pow256;
    Pow256Values();
    DecodeEncode(|b.payload|, 4);
    DecodeEncode(|b.signature|, 2);
    DecodeEncode(b.height, 8);
    DecodeEncode(b.timestamp, 8);
  }

  /** Builds the buffer by index loops, field after field; LaidOut says where each field is. */
  method EncodeForkBlockForSync(b: ForkBlock) returns (buf: array<byte>)
    ensures fresh(buf) && buf[..] == EncodeBlock(b)
    ensures LaidOut(buf[..], b)
  {
    hide Encode, Pow256;
    var p := |b.payload|;
    buf := new byte[86 + p + |b.signature|](_ => 0);
    assert Begins(buf[..], []);
    hide Begins;
    ghost var s1 := [] + Encode(b.height, 8);
    ghost var s2 := s1 + Encode(b.timestamp, 8);
    ghost var s3 := s2 + b.prevHash;
    ghost var s4 := s3 + b.stateRoot;
    assert s4 == Fixed(b);
    ghost var s5 := s4 + Encode(p, 4);
    ghost var s6 := s5 + b.payload;
    ghost var s7 := s6 + Encode(|b.signature|, 2);
    assert s7 + b.signature == EncodeBlock(b);
    hide Fixed, EncodeBlock;
    AppendUint(buf, 0, b.height, 8, []);
    AppendUint(buf, 8, b.timestamp, 8, s1);
    AppendBytes(buf, 16, b.prevHash, s2);
    AppendBytes(buf, 48, b.stateRoot, s3);
    AppendUint(buf, 80, p, 4, s4);
    AppendBytes(buf, 84, b.payload, s5);
    AppendUint(buf, 84 + p, |b.signature|, 2, s6);
    AppendBytes(buf, 86 + p, b.signature, s7);
    AllOf(buf[..], s7 + b.signature);
    EncodedFields(b);
  }

  lemma AllOf(buf: bytes, s: bytes)
    requires Begins(buf, s) && |s| == |buf|
    ensures buf == s
  {
  }

  /** One turn of the receiver's loop. */
  lemma TakeBlock(forkId: Word32, data: bytes, offset: nat, count: nat, c: Cache, b: ForkBlock, n: nat)
    requires offset < |data| && count > 0 && ParseBlock(forkId, data[offset..]) == Block(b, n)
    ensures var now, later := ParseBlocks(forkId, data[offset..], count), ParseBlocks(forkId, data[offset + n..], count - 1);
            && now == Batch([b] + later.blocks, later.crashed) && now.blocks[1..] == later.blocks
            && InsertAll(c, now.blocks) == InsertAll(Insert(c, b), later.blocks)
  {
    hide ParseBlock, Insert;
    assert data[offset..][n..] == data[offset + n..];
    var later := ParseBlocks(forkId, data[offset + n..], count - 1).blocks;
    assert ([b] + later)[1..] == later;
  }

  lemma ParseStops(forkId: Word32, data: bytes, count: nat, c: Cache)
    ensures count == 0 || data == [] || ParseBlock(forkId, data).Rejected? ==> ParseBlocks(forkId, data, count) == Batch([], false)
    ensures count > 0 && data != [] && ParseBlock(forkId, data).Panic? ==> ParseBlocks(forkId, data, count) == Batch([], true)
    ensures InsertAll(c, []) == c
  {
  }

  /** The value of the uint64 height counter of GetForkBlocks after k turns of its second loop. */
  function CounterAfter(k: nat): uint64 {
    k % Two64
  }

  ghost predicate Greatest(m: Fork, max: uint64) {
    (forall h | h in m :: h <= max) && (max in m || (max == 0 && m == map[]))
  }

  /** That loop ends exactly if no block is cached at the greatest height; else it turns for ever. */
  lemma ScanEndsIff(m: Fork, max: uint64)
    requires Greatest(m, max)
    ensures (exists k: nat :: CounterAfter(k) > max) <==> Two64 - 1 !in m
  {
    if Two64 - 1 !in m {
      assert CounterAfter(max + 1) > max;
    }
  }

  class ForkCache {
    var blocks: Cache

    constructor ()
      ensures blocks == map[] && Filed(blocks)
    {
      blocks := map[];
    }

    method Add(b: ForkBlock)
      requires Filed(blocks)
      modifies this
      ensures Filed(blocks) && blocks == Insert(old(blocks), b)
      ensures b.forkId in blocks && b.height in blocks[b.forkId] && blocks[b.forkId][b.height] == b
      ensures forall f: Word32, h: uint64 | f != b.forkId || h != b.height :: Lookup(blocks, f, h) == Lookup(old(blocks), f, h)
    {
      if b.forkId !in blocks {
        var empty: Fork := map[];
        blocks := blocks[b.forkId := empty];
      }
      var fork: Fork := blocks[b.forkId];
      fork := fork[b.height := b];
      blocks := blocks[b.forkId := fork];
    }

    /** Finds the greatest height, then collects upwards. The loop counter is a uint64, so the loop
        ends only if no block sits at the greatest uint64. */
    method GetForkBlocks(forkId: Word32) returns (r: seq<ForkBlock>)
      requires Two64 - 1 !in ForkOf(blocks, forkId)
      ensures r == BlocksBelow(ForkOf(blocks, forkId), Two64)
    {
      var m := ForkOf(blocks, forkId);
      var max, todo := 0, m.Keys;
      while todo != {}
        invariant 0 <= max < Two64 - 1 && todo <= m.Keys
        invariant forall h | h in m && h !in todo :: h <= max
      {
        var h :| h in todo;
        todo := todo - {h};
        if h > max { max := h; }
      }
      r := [];
      var h: nat := 0;
      while h <= max
        invariant h <= max + 1 && r == BlocksBelow(m, h)
      {
        if h in m { r := r + [m[h]]; }
        h := h + 1;
      }
      BlocksBelowStable(m, h, Two64);
    }

    /** The request branch of the message handler. */
    method HandleForkRequest(data: bytes) returns (reply: Option<bytes>)
      requires |data| >= 44 && data[2] == Version && data[3] == MsgForkRequest ==> Two64 - 1 !in ForkOf(blocks, data[4..36])
      ensures reply == Serve(blocks, data)
      ensures Filed(blocks) ==>
                (reply.Some? <==> && |data| >= 44 && data[2] == 0x04 && data[3] == 0x07
                                  && exists h: uint64 :: h >= Decode(data[36..44]) && Lookup(blocks, data[4..36], h).Some?)
    {
      if Filed(blocks) { ServeIff(blocks, data); }
      if |data| < 4 || data[2] != Version || data[3] != MsgForkRequest || |data| < 44 { return None; }
      RequestHeight(data);
      var forkId, from := data[4..36], Decode(data[36..44]);
      var all := GetForkBlocks(forkId);
      var toSend := [];
      for i := 0 to |all|
        invariant toSend == FromHeight(all[..i], from)
      {
        assert all[..i + 1][..i] == all[..i];
        if all[i].height >= from { toSend := toSend + [all[i]]; }
      }
      assert all[..|all|] == all;
      reply := if toSend == [] then None else Some(SyncMessage(forkId, toSend));
    }

    /** The sync branch: parses block after block at a moving offset, caching each. */
    method HandleForkSync(data: bytes) returns (batch: Batch)
      requires Filed(blocks)
      modifies this
      ensures Filed(blocks) && (blocks, batch) == Absorb(old(blocks), data)
      ensures |data| < 40 || data[2] != 0x04 || data[3] != 0x08 ==> blocks == old(blocks) && batch == Batch([], false)
      ensures |data| >= 40 && data[2] == 0x04 && data[3] == 0x08 ==>
                && batch == ParseBlocks(data[4..36], data[40..], Decode(data[36..40]))
                && blocks == InsertAll(old(blocks), batch.blocks)
    {
      if |data| < 4 || data[2] != Version || data[3] != MsgForkSync || |data| < 40 { return Batch([], false); }
      batch := ReceiveBlocks(data[4..36], data, 40, Decode(data[36..40]));
    }

    method ReceiveBlocks(forkId: Word32, data: bytes, start: nat, count: nat) returns (batch: Batch)
      requires Filed(blocks) && start <= |data|
      modifies this
      ensures Filed(blocks) && batch == ParseBlocks(forkId, data[start..], count)
      ensures blocks == InsertAll(old(blocks), batch.blocks)
    {
      hide *;
      var offset, i, taken := start, 0, [];
      ghost var whole, was := ParseBlocks(forkId, data[start..], count), blocks;
      while i < count && offset < |data|
        invariant start <= offset <= |data| && i <= count && Filed(blocks)
        invariant var rest := ParseBlocks(forkId, data[offset..], count - i);
                  whole == Batch(taken + rest.blocks, rest.crashed) && InsertAll(blocks, rest.blocks) == InsertAll(was, whole.blocks)
        decreases count - i
      {
        ParseStops(forkId, data[offset..], count - i, blocks);
        match ParseBlock(forkId, data[offset..])
        case Rejected => return Batch(taken, false);
        case Panic => return Batch(taken, true);
        case Block(b, n) =>
          TakeBlock(forkId, data, offset, count - i, blocks, b, n);
          taken := taken + [b];
          Add(b);
          offset := offset + n;
          i := i + 1;
      }
      ParseStops(forkId, data[offset..], count - i, blocks);
      batch := Batch(taken, false);
    }
  }
}
