/**
 Swap calldata: the builders of arb/presigned.go and the parsers of arb/mempool_parser.go. Calldata
 is a four-byte selector followed by 32-byte words, laid out as in the section "Use of Dynamic Types"
 of the Solidity Contract ABI Specification.
 */
module Calldata {
  import opened Common
  import opened Bytes

  const TwoTo64: nat := 0x1_0000_0000_0000_0000

  type Address = a: bytes | |a| == 20 witness seq(20, _ => 0)
  type Word = w: bytes | |w| == 32 witness seq(32, _ => 0)
  type Selector = s: bytes | |s| == 4 witness seq(4, _ => 0)

  // ---------- words ----------

  function Zeros(n: nat): bytes {
    seq(n, _ => 0)
  }

  /** The big-endian bytes of a number without leading zeros; none for zero. */
  function Minimal(v: nat): bytes {
    if v == 0 then [] else Minimal(v / 256) + [v % 256]
  }

  /** Left padding to n bytes; longer byte strings are left as they are. */
  function LeftPad(s: bytes, n: nat): bytes {
    if n <= |s| then s else Zeros(n - |s|) + s
  }

  /** What copying a padded number into a 32-byte field leaves there: of a longer one its first 32 bytes. */
  function NumberWord(v: int): Word {
    LeftPad(Minimal(Abs(v)), 32)[..32]
  }

  function AddressWord(a: Address): Word {
    LeftPad(a, 32)[..32]
  }

  /** The last 20 bytes of a longer byte string, a shorter one padded on the left. */
  function ToAddress(s: bytes): Address {
    if |s| > 20 then s[|s| - 20..] else LeftPad(s, 20)
  }

  lemma {:induction false} MinimalLength(v: nat, n: nat)
    ensures |Minimal(v)| <= n <==> v < Pow256(n)
    decreases n
  {
    if n > 0 && v > 0 {
      MinimalLength(v / 256, n - 1);
      var q, r := v / 256, v % 256;
      assert v == 256 * q + r;
      assert v < 256 * Pow256(n - 1) <==> q < Pow256(n - 1);
    }
  }

  lemma {:induction false} DecodeMinimal(v: nat)
    ensures Decode(Minimal(v)) == v
  {
    if v > 0 {
      DecodeMinimal(v / 256);
      assert Minimal(v)[..|Minimal(v)| - 1] == Minimal(v / 256);
    }
  }

  /** A number survives the 32-byte field exactly if it is not negative and below 2^256. */
  lemma NumberWordIff(v: int)
    ensures Decode(NumberWord(v)) == v <==> 0 <= v < Pow256(32)
  {
    hide Pow256;
    var m := Minimal(Abs(v));
    MinimalLength(Abs(v), 32);
    DecodeBound(NumberWord(v));
    if Abs(v) < Pow256(32) {
      DecodeMinimal(Abs(v));
      if |m| < 32 {
        DecodeZeros(32 - |m|, m);
        assert NumberWord(v) == Zeros(32 - |m|) + m;
      } else {
        assert NumberWord(v) == m;
      }
    }
  }

  lemma AddressWordBack(a: Address)
    ensures AddressWord(a)[12..] == a && ToAddress(AddressWord(a)) == a && ToAddress(a) == a
    ensures forall i | 0 <= i < 12 :: AddressWord(a)[i] == 0
  {
    assert LeftPad(a, 32) == Zeros(12) + a;
    assert LeftPad(a, 20) == a;
  }

  /** Words one after the other. */
  function Flat(words: seq<Word>): (s: bytes)
    ensures |s| == 32 * |words|
  {
    if words == [] then [] else Flat(words[..|words| - 1]) + words[|words| - 1]
  }

  lemma {:induction false} FlatAt(words: seq<Word>, k: nat)
    requires k < |words|
    ensures Flat(words)[32 * k..32 * k + 32] == words[k]
  {
    var n := |words| - 1;
    var init := Flat(words[..n]);
    if k < n {
      FlatAt(words[..n], k);
      assert Flat(words)[32 * k..32 * k + 32] == init[32 * k..32 * k + 32];
    } else {
      assert Flat(words)[32 * n..32 * n + 32] == words[n];
    }
  }

  /** Word k of calldata. */
  lemma WordAt(selector: Selector, words: seq<Word>, k: nat)
    requires k < |words|
    ensures (selector + Flat(words))[4 + 32 * k..36 + 32 * k] == words[k]
  {
    FlatAt(words, k);
    var data := selector + Flat(words);
    assert data[4..] == Flat(words);
    assert data[4 + 32 * k..36 + 32 * k] == data[4..][32 * k..32 * k + 32];
  }

  // ---------- the builders ----------

  const SwapV2: Selector := [0x38, 0xed, 0x17, 0x39]
  const SwapV2Fee: Selector := [0x5c, 0x11, 0xd7, 0x95]
  const EthIn: Selector := [0x7f, 0xf3, 0x6a, 0xb5]
  const EthInFee: Selector := [0xb6, 0xf9, 0xde, 0x95]
  const EthOut: Selector := [0x18, 0xcb, 0xaf, 0xe5]
  const EthOutFee: Selector := [0x79, 0x1a, 0xc9, 0x47]
  const ExactInputSingle: Selector := [0x41, 0x4b, 0xf3, 0x89]
  const ExactInput: Selector := [0xc0, 0x4b, 0x8d, 0x59]
  const Multicall: Selector := [0xac, 0x96, 0x50, 0xd8]
  const MulticallV3: Selector := [0x5a, 0xe4, 0x01, 0xdc]
  const Execute: Selector := [0x35, 0x93, 0x56, 0x4c]

  function V2Words(amount: int, tokenIn: Address, tokenOut: Address, recipient: Address, deadline: int): seq<Word> {
    [NumberWord(amount), NumberWord(0), NumberWord(160), AddressWord(recipient), NumberWord(deadline),
     NumberWord(2), AddressWord(tokenIn), AddressWord(tokenOut)]
  }

  function V3Words(amount: int, tokenIn: Address, tokenOut: Address, fee: nat, recipient: Address, deadline: int): seq<Word> {
    [AddressWord(tokenIn), AddressWord(tokenOut), NumberWord(fee), AddressWord(recipient), NumberWord(deadline),
     NumberWord(amount), NumberWord(0), NumberWord(0)]
  }

  // ---------- the parsers ----------

  datatype Route = V2Swap | V2EthIn | V2EthOut | V3Single | V3Path | Batch | Universal | Unknown
  datatype Swap = Swap(tokenIn: Address, tokenOut: Address, amountIn: nat, amountOut: nat)
  /** No swap, a swap, a slice out of range, or one of the parsers not modelled here. */
  datatype Outcome = NoSwap | Found(swap: Swap) | Panic | Elsewhere(route: Route)

  function Dispatch(selector: Selector): Route {
    if selector == SwapV2 || selector == SwapV2Fee then V2Swap
    else if selector == EthIn || selector == EthInFee then V2EthIn
    else if selector == EthOut || selector == EthOutFee then V2EthOut
    else if selector == ExactInputSingle then V3Single
    else if selector == ExactInput then V3Path
    else if selector == Multicall || selector == MulticallV3 then Batch
    else if selector == Execute then Universal
    else Unknown
  }

  function ParseCalldata(data: bytes): Outcome {
    if |data| < 4 then NoSwap
    else match Dispatch(data[..4])
         case V2Swap => ParseV2(data)
         case V3Single => ParseV3(data)
         case Unknown => NoSwap
         case route => Elsewhere(route)
  }

  /** 64-bit unsigned arithmetic. */
  function Add64(a: nat, b: nat): nat {
    (a + b) % TwoTo64
  }

  function Words64(a: nat): nat {
    (a * 32) % TwoTo64
  }

  function Slice(data: bytes, lo: nat, hi: nat): Option<bytes> {
    if lo <= hi <= |data| then Some(data[lo..hi]) else None
  }

  function ParseV2(data: bytes): Outcome {
    if |data| < 164 then NoSwap else
    var amountIn, amountOut := Decode(data[4..36]), Decode(data[36..68]);
    var pathOffset := Decode(data[68..100]) % TwoTo64;
    if Add64(pathOffset, 32) > |data| then NoSwap else
    var start := Add64(4, pathOffset);
    var lengthWord := Slice(data, start, Add64(start, 32));
    if lengthWord.None? then Panic else
    var pathLen := Decode(lengthWord.value) % TwoTo64;
    if pathLen < 2 || Add64(Add64(start, 32), Words64(pathLen)) > |data| then NoSwap
    else ParseEnds(data, start, pathLen, amountIn, amountOut)
  }

  /** The first and the last word of the path. */
  function ParseEnds(data: bytes, start: nat, pathLen: nat, amountIn: nat, amountOut: nat): Outcome
    requires pathLen >= 2
  {
    var back := Words64(pathLen - 1);
    var first := Slice(data, Add64(start, 32), Add64(start, 64));
    var last := Slice(data, Add64(Add64(start, 32), back), Add64(Add64(start, 64), back));
    if first.None? || last.None? then Panic
    else Found(Swap(ToAddress(first.value), ToAddress(last.value), amountIn, amountOut))
  }

  function ParseV3(data: bytes): Outcome {
    if |data| < 196 then NoSwap
    else if |data| < 228 then Panic
    else Found(Swap(ToAddress(data[16..36]), ToAddress(data[48..68]), Decode(data[164..196]), Decode(data[196..228])))
  }

  /** What the V3 parser makes of its data: the words of its arguments, once all seven it looks at are
      there; nothing from fewer than six; and a panic in between. */
  lemma V3Outcome(data: bytes)
    requires |data| >= 4 && data[..4] == [0x41, 0x4b, 0xf3, 0x89]
    ensures |data| < 196 <==> ParseCalldata(data) == NoSwap
    ensures 196 <= |data| < 228 <==> ParseCalldata(data) == Panic
    ensures |data| >= 228 ==>
              && ParseCalldata(data).Found?
              && var swap := ParseCalldata(data).swap;
                 && swap.tokenIn == data[4..36][12..] && swap.tokenOut == data[36..68][12..]
                 && swap.amountIn == Decode(data[164..196]) && swap.amountOut == Decode(data[196..228])
  {
    hide Decode;
    SelectorsApart();
    if |data| >= 228 {
      assert data[4..36][12..] == data[16..36] && data[36..68][12..] == data[48..68];
      AddressWordBack(data[16..36]);
      AddressWordBack(data[48..68]);
    }
  }

  // ---------- the parser against the ABI ----------

  /** The dynamic array whose offset is in the third argument word, read with unbounded integers. */
  function AbiPath(data: bytes): Option<seq<Word>>
    requires |data| >= 164
  {
    var base := 4 + Decode(data[68..100]);
    if base + 32 > |data| then None else
    var n := Decode(data[base..base + 32]);
    if base + 32 + 32 * n > |data| then None
    else Some(seq(n, k requires 0 <= k < n => data[base + 32 + 32 * k..base + 64 + 32 * k]))
  }

  /** Offset and length keep the parser's 64-bit sums from wrapping around. */
  predicate FitsIn64(data: bytes)
    requires |data| >= 164
  {
    var base := 4 + Decode(data[68..100]);
    && base + 64 < TwoTo64
    && (base + 32 <= |data| ==> base + 64 + 32 * Decode(data[base..base + 32]) < TwoTo64)
  }

  lemma NoWrap(a: nat, b: nat)
    ensures a + b < TwoTo64 ==> Add64(a, b) == a + b
    ensures a < TwoTo64 ==> a % TwoTo64 == a
  {
  }

  lemma NoWrapWords(a: nat)
    ensures a * 32 < TwoTo64 ==> Words64(a) == a * 32
  {
  }

  lemma EndsInside(data: bytes, base: nat, n: nat, amountIn: nat, amountOut: nat)
    requires n >= 2 && base + 32 + 32 * n <= |data| && base + 64 + 32 * n < TwoTo64
    ensures ParseEnds(data, base, n, amountIn, amountOut)
         == Found(Swap(ToAddress(data[base + 32..base + 64]), ToAddress(data[base + 32 * n..base + 32 + 32 * n]), amountIn, amountOut))
  {
    hide Add64, Words64, ToAddress;
    NoWrap(base, 32);
    NoWrap(base, 64);
    NoWrapWords(n - 1);
    NoWrap(base + 32, 32 * (n - 1));
    NoWrap(base + 64, 32 * (n - 1));
  }

  lemma ShortOfLength(data: bytes)
    requires |data| >= 164 && FitsIn64(data) && 4 + Decode(data[68..100]) + 32 > |data|
    ensures ParseV2(data) == if Decode(data[68..100]) + 32 <= |data| then Panic else NoSwap
  {
    hide Decode, Add64, Words64, ToAddress;
    var off := Decode(data[68..100]);
    NoWrap(off, 32);
    NoWrap(4, off);
    NoWrap(4 + off, 32);
  }

  lemma LengthInside(data: bytes, base: nat, n: nat)
    requires |data| >= 164 && FitsIn64(data) && base == 4 + Decode(data[68..100]) && base + 32 <= |data|
    requires n == Decode(data[base..base + 32])
    ensures ParseV2(data) == if n < 2 || base + 32 + 32 * n > |data| then NoSwap
                             else Found(Swap(ToAddress(data[base + 32..base + 64]), ToAddress(data[base + 32 * n..base + 32 + 32 * n]),
                                             Decode(data[4..36]), Decode(data[36..68])))
  {
    hide Decode, Add64, Words64, ToAddress, ParseEnds;
    var off := base - 4;
    NoWrap(off, 32);
    NoWrap(4, off);
    NoWrap(base, 32);
    NoWrap(n, 0);
    NoWrapWords(n);
    NoWrap(base + 32, 32 * n);
    if n >= 2 && base + 32 + 32 * n <= |data| {
      EndsInside(data, base, n, Decode(data[4..36]), Decode(data[36..68]));
    }
  }

  /** On such data the parser is the ABI decoder: a path of at least two words gives its first and last
      element, and the only difference is a panic on data that ends within four bytes after the offset's
      32-byte length word should have ended. */
  lemma V2ParserIsAbiDecoder(data: bytes)
    requires |data| >= 164 && FitsIn64(data)
    ensures var base := 4 + Decode(data[68..100]);
            ParseV2(data) == match AbiPath(data)
                             case None => if base + 28 <= |data| < base + 32 then Panic else NoSwap
                             case Some(path) =>
                               if |path| < 2 then NoSwap
                               else Found(Swap(ToAddress(path[0]), ToAddress(path[|path| - 1]), Decode(data[4..36]), Decode(data[36..68])))
  {
    hide Decode, ParseV2, ToAddress;
    var base := 4 + Decode(data[68..100]);
    if base + 32 > |data| {
      ShortOfLength(data);
    } else {
      LengthInside(data, base, Decode(data[base..base + 32]));
    }
  }

  /** So what the parser accepts is valid calldata exactly if offset and length fit. */
  lemma AcceptedIsAbiIff(data: bytes)
    requires 164 <= |data| < TwoTo64 / 2 && ParseV2(data).Found?
    ensures AbiPath(data).Some? <==> FitsIn64(data)
  {
    if FitsIn64(data) {
      V2ParserIsAbiDecoder(data);
    }
  }

  function PathWords(path: seq<Address>): seq<Word> {
    seq(|path|, k requires 0 <= k < |path| => AddressWord(path[k]))
  }

  function EncodedWords(amount: int, least: int, recipient: Address, deadline: int, path: seq<Address>): seq<Word> {
    [NumberWord(amount), NumberWord(least), NumberWord(160), AddressWord(recipient), NumberWord(deadline), NumberWord(|path|)]
    + PathWords(path)
  }

  /** Well-formed calldata with a path of any length. */
  function V2Encoding(selector: Selector, amount: int, least: int, recipient: Address, deadline: int, path: seq<Address>): bytes {
    selector + Flat(EncodedWords(amount, least, recipient, deadline, path))
  }

  lemma EncodedWordAt(amount: int, least: int, recipient: Address, deadline: int, path: seq<Address>)
    ensures var words := EncodedWords(amount, least, recipient, deadline, path);
            && |words| == 6 + |path| && words[0] == NumberWord(amount) && words[1] == NumberWord(least)
            && words[2] == NumberWord(160) && words[5] == NumberWord(|path|)
            && forall k | 0 <= k < |path| :: words[6 + k] == AddressWord(path[k])
  {
    hide NumberWord, AddressWord;
  }

  /** Its path is read back whole. */
  lemma EncodedPath(selector: Selector, amount: int, least: int, recipient: Address, deadline: int, path: seq<Address>)
    requires 260 + 32 * |path| < TwoTo64
    ensures var data := V2Encoding(selector, amount, least, recipient, deadline, path);
            && |data| == 196 + 32 * |path| && FitsIn64(data)
            && AbiPath(data).Some? && |AbiPath(data).value| == |path|
            && (forall k | 0 <= k < |path| :: AbiPath(data).value[k] == AddressWord(path[k]))
            && Decode(data[4..36]) == Decode(NumberWord(amount)) && Decode(data[36..68]) == Decode(NumberWord(least))
            && data[..4] == selector
  {
    hide Decode, Pow256, NumberWord, AddressWord, EncodedWords, AbiPath, FitsIn64, Flat;
    var words := EncodedWords(amount, least, recipient, deadline, path);
    var data := V2Encoding(selector, amount, least, recipient, deadline, path);
    EncodedWordAt(amount, least, recipient, deadline, path);
    PowersGrow();
    NumberWordIff(160);
    NumberWordIff(|path|);
    WordAt(selector, words, 0);
    WordAt(selector, words, 1);
    WordAt(selector, words, 2);
    WordAt(selector, words, 5);
    forall k | 0 <= k < |path| ensures data[196 + 32 * k..228 + 32 * k] == AddressWord(path[k]) {
      WordAt(selector, words, 6 + k);
    }
    ReadPath(data, path);
  }

  /** Parsing well-formed V2 calldata, under either of its selectors, gives the first and the last
      address of the path, and each amount exactly if it fits in a word. */
  lemma V2ParsesFirstAndLast(selector: Selector, amount: int, least: int, recipient: Address, deadline: int, path: seq<Address>)
    requires selector in {SwapV2, SwapV2Fee} && |path| >= 2 && 260 + 32 * |path| < TwoTo64
    ensures var r := ParseCalldata(V2Encoding(selector, amount, least, recipient, deadline, path));
            && r.Found? && r.swap.tokenIn == path[0] && r.swap.tokenOut == path[|path| - 1]
            && (r.swap.amountIn == amount <==> 0 <= amount < Pow256(32))
            && (r.swap.amountOut == least <==> 0 <= least < Pow256(32))
  {
    hide Decode, Pow256, NumberWord, AddressWord, V2Encoding, AbiPath, FitsIn64, ParseV2, ToAddress;
    EncodedPath(selector, amount, least, recipient, deadline, path);
    V2ParserIsAbiDecoder(V2Encoding(selector, amount, least, recipient, deadline, path));
    AddressWordBack(path[0]);
    AddressWordBack(path[|path| - 1]);
    NumberWordIff(amount);
    NumberWordIff(least);
  }

  /** The V2 builder's output parses back to its tokens, and to its amount exactly if that is below 2^256. */
  lemma V2RoundTripIff(amount: int, tokenIn: Address, tokenOut: Address, recipient: Address, deadline: int)
    ensures var r := ParseCalldata(SwapV2 + Flat(V2Words(amount, tokenIn, tokenOut, recipient, deadline)));
            && r.Found? && r.swap.tokenIn == tokenIn && r.swap.tokenOut == tokenOut && r.swap.amountOut == 0
            && (r.swap.amountIn == amount <==> 0 <= amount < Pow256(32))
  {
    hide NumberWord, AddressWord, Flat, Pow256, ParseCalldata;
    V2ParsesFirstAndLast(SwapV2, amount, 0, recipient, deadline, [tokenIn, tokenOut]);
    assert PathWords([tokenIn, tokenOut]) == [AddressWord(tokenIn), AddressWord(tokenOut)];
    assert EncodedWords(amount, 0, recipient, deadline, [tokenIn, tokenOut]) == V2Words(amount, tokenIn, tokenOut, recipient, deadline);
    PowersGrow();
  }

  /** The V3 builder's output likewise. */
  lemma V3RoundTripIff(amount: int, tokenIn: Address, tokenOut: Address, fee: nat, recipient: Address, deadline: int)
    ensures var r := ParseCalldata(ExactInputSingle + Flat(V3Words(amount, tokenIn, tokenOut, fee, recipient, deadline)));
            && r.Found? && r.swap.tokenIn == tokenIn && r.swap.tokenOut == tokenOut && r.swap.amountOut == 0
            && (r.swap.amountIn == amount <==> 0 <= amount < Pow256(32))
  {
    hide NumberWord, AddressWord, Flat, Pow256, Decode, ToAddress;
    var words := V3Words(amount, tokenIn, tokenOut, fee, recipient, deadline);
    var data := ExactInputSingle + Flat(words);
    WordAt(ExactInputSingle, words, 0);
    WordAt(ExactInputSingle, words, 1);
    WordAt(ExactInputSingle, words, 5);
    WordAt(ExactInputSingle, words, 6);
    assert data[16..36] == data[4..36][12..] && data[48..68] == data[36..68][12..];
    assert data[..4] == ExactInputSingle;
    AddressWordBack(tokenIn);
    AddressWordBack(tokenOut);
    NumberWordIff(amount);
    NumberWordIff(0);
    PowersGrow();
  }

  /** Offset and length are truncated to 64 bits, and then the parser can accept what the ABI refuses:
      here an offset of 2^64 + 160. */
  lemma TruncatedOffsetAccepted(amount: int, tokenIn: Address, tokenOut: Address, recipient: Address, deadline: int)
    ensures var data := SwapV2 + Flat(V2Words(amount, tokenIn, tokenOut, recipient, deadline)[2 := NumberWord(TwoTo64 + 160)]);
            ParseV2(data).Found? && AbiPath(data).None?
  {
    hide Decode, Pow256, NumberWord, AddressWord, ToAddress, Flat, Add64, Words64, ParseEnds;
    var words := V2Words(amount, tokenIn, tokenOut, recipient, deadline)[2 := NumberWord(TwoTo64 + 160)];
    var data := SwapV2 + Flat(words);
    WordAt(SwapV2, words, 2);
    WordAt(SwapV2, words, 5);
    PowersGrow();
    NumberWordIff(TwoTo64 + 160);
    NumberWordIff(2);
    NoWrap(160, 32);
    NoWrap(4, 160);
    NoWrap(164, 32);
    NoWrap(164, 64);
    NoWrapWords(2);
    NoWrap(196, 64);
    EndsInside(data, 164, 2, Decode(data[4..36]), Decode(data[36..68]));
  }

  lemma PowersGrow()
    ensures Pow256(32) >= 2 * TwoTo64
  {
    assert Pow256(8) == TwoTo64;
    assert Pow256(16) == TwoTo64 * Pow256(8);
  }

  lemma ReadPath(data: bytes, path: seq<Address>)
    requires |data| == 196 + 32 * |path| && 260 + 32 * |path| < TwoTo64
    requires Decode(data[68..100]) == 160 && Decode(data[164..196]) == |path|
    requires forall k | 0 <= k < |path| :: data[196 + 32 * k..228 + 32 * k] == AddressWord(path[k])
    ensures FitsIn64(data) && AbiPath(data).Some? && |AbiPath(data).value| == |path|
    ensures forall k | 0 <= k < |path| :: AbiPath(data).value[k] == AddressWord(path[k])
  {
    hide Decode, AddressWord;
  }

  /** What stands where in V2 calldata: the selector, the amount, a minimum of zero, the offset of the
      path, the recipient, the deadline, and a path of two tokens. */
  lemma V2Fields(amount: int, tokenIn: Address, tokenOut: Address, recipient: Address, deadline: int)
    ensures var data := SwapV2 + Flat(V2Words(amount, tokenIn, tokenOut, recipient, deadline));
            && |data| == 260 && data[..4] == [0x38, 0xed, 0x17, 0x39]
            && (Decode(data[4..36]) == amount <==> 0 <= amount < Pow256(32)) && Decode(data[36..68]) == 0 && Decode(data[68..100]) == 160
            && data[112..132] == recipient && (Decode(data[132..164]) == deadline <==> 0 <= deadline < Pow256(32))
            && Decode(data[164..196]) == 2 && data[208..228] == tokenIn && data[240..260] == tokenOut
            && data == V2Encoding(SwapV2, amount, 0, recipient, deadline, [tokenIn, tokenOut])
  {
    hide NumberWord, AddressWord, Flat, Pow256, Decode;
    var words := V2Words(amount, tokenIn, tokenOut, recipient, deadline);
    var data := SwapV2 + Flat(words);
    assert PathWords([tokenIn, tokenOut]) == [AddressWord(tokenIn), AddressWord(tokenOut)];
    assert EncodedWords(amount, 0, recipient, deadline, [tokenIn, tokenOut]) == words;
    PowersGrow();
    NumberField(SwapV2, words, 0, amount);
    NumberField(SwapV2, words, 1, 0);
    NumberField(SwapV2, words, 2, 160);
    AddressField(SwapV2, words, 3, recipient);
    NumberField(SwapV2, words, 4, deadline);
    NumberField(SwapV2, words, 5, 2);
    AddressField(SwapV2, words, 6, tokenIn);
    AddressField(SwapV2, words, 7, tokenOut);
  }

  /** What stands where in V3 calldata: the two tokens, the fee, the recipient, the deadline, the amount
      and two zeros. */
  lemma V3Fields(amount: int, tokenIn: Address, tokenOut: Address, fee: nat, recipient: Address, deadline: int)
    ensures var data := ExactInputSingle + Flat(V3Words(amount, tokenIn, tokenOut, fee, recipient, deadline));
            && |data| == 260 && data[..4] == [0x41, 0x4b, 0xf3, 0x89]
            && data[16..36] == tokenIn && data[48..68] == tokenOut && (Decode(data[68..100]) == fee <==> fee < Pow256(32))
            && data[112..132] == recipient && (Decode(data[132..164]) == deadline <==> 0 <= deadline < Pow256(32))
            && (Decode(data[164..196]) == amount <==> 0 <= amount < Pow256(32))
            && Decode(data[196..228]) == 0 && Decode(data[228..260]) == 0
  {
    hide NumberWord, AddressWord, Flat, Pow256, Decode;
    var words := V3Words(amount, tokenIn, tokenOut, fee, recipient, deadline);
    PowersGrow();
    AddressField(ExactInputSingle, words, 0, tokenIn);
    AddressField(ExactInputSingle, words, 1, tokenOut);
    NumberField(ExactInputSingle, words, 2, fee);
    AddressField(ExactInputSingle, words, 3, recipient);
    NumberField(ExactInputSingle, words, 4, deadline);
    NumberField(ExactInputSingle, words, 5, amount);
    NumberField(ExactInputSingle, words, 6, 0);
    NumberField(ExactInputSingle, words, 7, 0);
  }

  lemma NumberField(selector: Selector, words: seq<Word>, k: nat, v: int)
    requires k < |words| && words[k] == NumberWord(v)
    ensures Decode((selector + Flat(words))[4 + 32 * k..36 + 32 * k]) == v <==> 0 <= v < Pow256(32)
  {
    hide *;
    WordAt(selector, words, k);
    NumberWordIff(v);
  }

  lemma AddressField(selector: Selector, words: seq<Word>, k: nat, a: Address)
    requires k < |words| && words[k] == AddressWord(a)
    ensures (selector + Flat(words))[16 + 32 * k..36 + 32 * k] == a
  {
    hide *;
    var data := selector + Flat(words);
    WordAt(selector, words, k);
    AddressWordBack(a);
    assert data[16 + 32 * k..36 + 32 * k] == data[4 + 32 * k..36 + 32 * k][12..];
  }

  /** Which selectors lead to the V2 swap parsers. */
  lemma DispatchV2(s: Selector)
    ensures Dispatch(s) == V2Swap <==> s == [0x38, 0xed, 0x17, 0x39] || s == [0x5c, 0x11, 0xd7, 0x95]
    ensures Dispatch(s) == V2EthIn <==> s == [0x7f, 0xf3, 0x6a, 0xb5] || s == [0xb6, 0xf9, 0xde, 0x95]
    ensures Dispatch(s) == V2EthOut <==> s == [0x18, 0xcb, 0xaf, 0xe5] || s == [0x79, 0x1a, 0xc9, 0x47]
  {
    SelectorsApart();
  }

  /** And which to the others. */
  lemma DispatchOthers(s: Selector)
    ensures Dispatch(s) == V3Single <==> s == [0x41, 0x4b, 0xf3, 0x89]
    ensures Dispatch(s) == V3Path <==> s == [0xc0, 0x4b, 0x8d, 0x59]
    ensures Dispatch(s) == Batch <==> s == [0xac, 0x96, 0x50, 0xd8] || s == [0x5a, 0xe4, 0x01, 0xdc]
    ensures Dispatch(s) == Universal <==> s == [0x35, 0x93, 0x56, 0x4c]
  {
    SelectorsApart();
  }

  /** The selectors differ in their first byte. */
  lemma SelectorsApart()
    ensures SwapV2[0] == 0x38 && SwapV2Fee[0] == 0x5c && EthIn[0] == 0x7f && EthInFee[0] == 0xb6 && EthOut[0] == 0x18 && EthOutFee[0] == 0x79
    ensures ExactInputSingle[0] == 0x41 && ExactInput[0] == 0xc0 && Multicall[0] == 0xac && MulticallV3[0] == 0x5a && Execute[0] == 0x35
  {
  }

  // ---------- filling the buffers ----------

  method PutWord(buf: array<byte>, offset: nat, word: Word)
    requires offset + 32 <= buf.Length
    modifies buf
    ensures buf[..] == old(buf[..offset]) + word + old(buf[offset + 32..])
  {
    for i := 0 to 32
      invariant forall k | 0 <= k < i :: buf[offset + k] == word[k]
      invariant forall k | 0 <= k < buf.Length && !(offset <= k < offset + i) :: buf[k] == old(buf[k])
    {
      buf[offset + i] := word[i];
    }
  }

  /** The buffer holds the selector and the first k words. */
  ghost predicate Written(buf: bytes, selector: Selector, words: seq<Word>, k: nat)
    requires k <= |words|
  {
    4 + 32 * |words| == |buf| && buf[..4 + 32 * k] == selector + Flat(words[..k])
  }

  lemma WrittenNext(before: bytes, after: bytes, selector: Selector, words: seq<Word>, k: nat)
    requires k < |words| && Written(before, selector, words, k)
    requires after == before[..4 + 32 * k] + words[k] + before[4 + 32 * k + 32..]
    ensures Written(after, selector, words, k + 1)
  {
    assert words[..k + 1][..k] == words[..k];
    assert after[..4 + 32 * (k + 1)] == before[..4 + 32 * k] + words[k];
  }

  method PutField(buf: array<byte>, offset: nat, word: Word, ghost selector: Selector, ghost words: seq<Word>, ghost k: nat)
    requires k < |words| && offset == 4 + 32 * k && word == words[k] && Written(buf[..], selector, words, k)
    modifies buf
    ensures Written(buf[..], selector, words, k + 1)
  {
    ghost var before := buf[..];
    PutWord(buf, offset, word);
    WrittenNext(before, buf[..], selector, words, k);
  }

  method PutSelector(buf: array<byte>, selector: Selector, ghost words: seq<Word>)
    requires buf.Length == 4 + 32 * |words|
    modifies buf
    ensures Written(buf[..], selector, words, 0)
  {
    for i := 0 to 4
      invariant forall k | 0 <= k < i :: buf[k] == selector[k]
    {
      buf[i] := selector[i];
    }
    assert buf[..][..4] == selector + Flat(words[..0]);
  }

  method BuildV2SwapCalldata(amount: int, tokenIn: Address, tokenOut: Address, recipient: Address, deadline: int) returns (buf: array<byte>)
    ensures fresh(buf) && buf[..] == SwapV2 + Flat(V2Words(amount, tokenIn, tokenOut, recipient, deadline))
    ensures |buf[..]| == 260 && buf[..][..4] == [0x38, 0xed, 0x17, 0x39]
    ensures buf[..][112..132] == recipient && buf[..][208..228] == tokenIn && buf[..][240..260] == tokenOut
    ensures Decode(buf[..][4..36]) == amount <==> 0 <= amount < Pow256(32)
    ensures Decode(buf[..][132..164]) == deadline <==> 0 <= deadline < Pow256(32)
    ensures buf[..] == V2Encoding(SwapV2, amount, 0, recipient, deadline, [tokenIn, tokenOut])
  {
    V2Fields(amount, tokenIn, tokenOut, recipient, deadline);
    ghost var words := V2Words(amount, tokenIn, tokenOut, recipient, deadline);
    hide NumberWord, AddressWord, Flat, Written, Decode, Pow256, V2Encoding;
    buf := new byte[260](_ => 0);
    PutSelector(buf, SwapV2, words);
    PutField(buf, 4, NumberWord(amount), SwapV2, words, 0);
    PutField(buf, 36, NumberWord(0), SwapV2, words, 1);
    PutField(buf, 68, NumberWord(160), SwapV2, words, 2);
    PutField(buf, 100, AddressWord(recipient), SwapV2, words, 3);
    PutField(buf, 132, NumberWord(deadline), SwapV2, words, 4);
    PutField(buf, 164, NumberWord(2), SwapV2, words, 5);
    PutField(buf, 196, AddressWord(tokenIn), SwapV2, words, 6);
    PutField(buf, 228, AddressWord(tokenOut), SwapV2, words, 7);
    WrittenAll(buf[..], SwapV2, words);
  }

  method BuildV3SwapCalldata(amount: int, tokenIn: Address, tokenOut: Address, fee: nat, recipient: Address, deadline: int) returns (buf: array<byte>)
    ensures fresh(buf) && buf[..] == ExactInputSingle + Flat(V3Words(amount, tokenIn, tokenOut, fee, recipient, deadline))
    ensures |buf[..]| == 260 && buf[..][..4] == [0x41, 0x4b, 0xf3, 0x89]
    ensures buf[..][16..36] == tokenIn && buf[..][48..68] == tokenOut && buf[..][112..132] == recipient
    ensures Decode(buf[..][68..100]) == fee <==> fee < Pow256(32)
    ensures Decode(buf[..][132..164]) == deadline <==> 0 <= deadline < Pow256(32)
    ensures Decode(buf[..][164..196]) == amount <==> 0 <= amount < Pow256(32)
  {
    V3Fields(amount, tokenIn, tokenOut, fee, recipient, deadline);
    ghost var words := V3Words(amount, tokenIn, tokenOut, fee, recipient, deadline);
    hide NumberWord, AddressWord, Flat, Written, Decode, Pow256, V2Encoding;
    buf := new byte[4 + 32 * 8](_ => 0);
    PutSelector(buf, ExactInputSingle, words);
    var offset := 4;
    PutField(buf, offset, AddressWord(tokenIn), ExactInputSingle, words, 0);
    offset := offset + 32;
    PutField(buf, offset, AddressWord(tokenOut), ExactInputSingle, words, 1);
    offset := offset + 32;
    PutField(buf, offset, NumberWord(fee), ExactInputSingle, words, 2);
    offset := offset + 32;
    PutField(buf, offset, AddressWord(recipient), ExactInputSingle, words, 3);
    offset := offset + 32;
    PutField(buf, offset, NumberWord(deadline), ExactInputSingle, words, 4);
    offset := offset + 32;
    PutField(buf, offset, NumberWord(amount), ExactInputSingle, words, 5);
    offset := offset + 32;
    PutField(buf, offset, NumberWord(0), ExactInputSingle, words, 6);
    offset := offset + 32;
    PutField(buf, offset, NumberWord(0), ExactInputSingle, words, 7);
    WrittenAll(buf[..], ExactInputSingle, words);
  }

  lemma WrittenAll(buf: bytes, selector: Selector, words: seq<Word>)
    requires Written(buf, selector, words, |words|)
    ensures buf == selector + Flat(words)
  {
    assert words[..|words|] == words;
  }
}
