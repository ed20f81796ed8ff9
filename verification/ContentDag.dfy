/**
 Content-addressed storage of content/dag.go, content/store.go and the fetch loop of
 content/protocol.go: data is cut into chunks, each stored as a leaf under its hash, and a root node
 lists the chunk hashes. The hash is a parameter; where two pieces of content could be confused the
 nodes concerned are assumed not to collide.
 */
module ContentDag {
  import opened Bytes
  import opened Common

  type ContentID = s: bytes | |s| == 32 witness seq(32, _ => 0)
  type Hash = bytes -> ContentID
  type Store = map<ContentID, bytes>

  datatype Error = NotFound | EmptyNode | TooShort | Misaligned | UnknownType | EmptyContent | NoProviders | ChunkUnavailable | TooDeep

  // ---------- nodes ----------

  datatype Node = Leaf(data: bytes) | Internal(size: nat, children: seq<ContentID>)

  function EncodeLeaf(data: bytes): bytes {
    [0] + data
  }

  function Concat(ids: seq<ContentID>): (s: bytes)
    ensures |s| == 32 * |ids|
  {
    if ids == [] then [] else ids[0] + Concat(ids[1..])
  }

  function EncodeInternal(size: nat, children: seq<ContentID>): bytes {
    [1] + Encode(size, 8) + Concat(children)
  }

  function DecodeNode(raw: bytes): Result<Node, Error> {
    if raw == [] then Err(EmptyNode)
    else if raw[0] == 0 then Ok(Leaf(raw[1..]))
    else if raw[0] == 1 then
      if |raw| < 9 then Err(TooShort)
      else if (|raw| - 9) % 32 != 0 then Err(Misaligned)
      else Ok(Internal(Decode(raw[1..9]), Cells(raw[9..])))
    else Err(UnknownType)
  }

  function Cells(s: bytes): (ids: seq<ContentID>)
    requires |s| % 32 == 0
    ensures |ids| == |s| / 32
  {
    if s == [] then [] else [s[..32]] + Cells(s[32..])
  }

  lemma {:induction false} CellsOfConcat(ids: seq<ContentID>)
    ensures Cells(Concat(ids)) == ids
  {
    if ids != [] {
      CellsOfConcat(ids[1..]);
      var s := Concat(ids);
      assert s[..32] == ids[0] && s[32..] == Concat(ids[1..]);
      assert ids == [ids[0]] + ids[1..];
    }
  }

  lemma LeafRoundTrip(data: bytes)
    ensures DecodeNode(EncodeLeaf(data)) == Ok(Leaf(data))
  {
    hide Concat, Encode, Decode;
    assert EncodeLeaf(data)[1..] == data;
  }

  lemma SizeField(size: nat)
    requires size < 0x1_0000_0000_0000_0000
    ensures Decode(Encode(size, 8)) == size
  {
    EightBytes();
    hide Pow256, Encode, Decode;
    DecodeEncode(size, 8);
  }

  lemma EightBytes()
    ensures Pow256(8) == 0x1_0000_0000_0000_0000
  {
    assert Pow256(2) == 65536;
    assert Pow256(4) == 65536 * Pow256(2);
    assert Pow256(8) == 65536 * 65536 * Pow256(4);
  }

  /** Nodes decode to what they were built from. */
  lemma NodeRoundTrip(data: bytes, size: nat, children: seq<ContentID>)
    requires size < 0x1_0000_0000_0000_0000
    ensures DecodeNode(EncodeLeaf(data)) == Ok(Leaf(data))
    ensures DecodeNode(EncodeInternal(size, children)) == Ok(Internal(size, children))
  {
    LeafRoundTrip(data);
    SizeField(size);
    CellsOfConcat(children);
    hide Concat, Encode, Decode, EncodeLeaf, Cells;
    var raw := EncodeInternal(size, children);
    assert raw[1..9] == Encode(size, 8) && raw[9..] == Concat(children);
  }

  lemma {:induction false} ConcatAt(ids: seq<ContentID>, i: nat)
    requires i < |ids|
    ensures Concat(ids)[32 * i..32 * i + 32] == ids[i]
  {
    var s, t := Concat(ids), Concat(ids[1..]);
    if i > 0 {
      ConcatAt(ids[1..], i - 1);
      assert s[32 * i..32 * i + 32] == t[32 * (i - 1)..32 * (i - 1) + 32];
    }
  }

  /** Where the parts of a node are: the type, the size in 8 bytes, a child every 32 bytes. */
  lemma NodeLayout(data: bytes, size: nat, children: seq<ContentID>)
    ensures |EncodeLeaf(data)| == 1 + |data| && EncodeLeaf(data)[0] == 0x00 && EncodeLeaf(data)[1..] == data
    ensures var raw := EncodeInternal(size, children);
            && |raw| == 9 + 32 * |children| && raw[0] == 0x01
            && Decode(raw[1..9]) == size % 0x1_0000_0000_0000_0000
            && forall i | 0 <= i < |children| :: raw[9 + 32 * i..41 + 32 * i] == children[i]
  {
    EightBytes();
    hide Concat, Encode, Decode, Pow256;
    DecodeEncode(size, 8);
    var raw := EncodeInternal(size, children);
    assert raw[1..9] == Encode(size, 8) && raw[9..] == Concat(children);
    forall i | 0 <= i < |children| ensures raw[9 + 32 * i..41 + 32 * i] == children[i] {
      ConcatAt(children, i);
      assert raw[9 + 32 * i..41 + 32 * i] == raw[9..][32 * i..32 * i + 32];
    }
  }

  lemma {:induction false} ConcatOfCells(s: bytes)
    requires |s| % 32 == 0
    ensures Concat(Cells(s)) == s
  {
    if s != [] {
      ConcatOfCells(s[32..]);
      assert Cells(s)[1..] == Cells(s[32..]);
      assert s == s[..32] + s[32..];
    }
  }

  /** Which bytes are a node, what is wrong with the others, and that a node is nothing but the
      encoding of what it decodes to. */
  lemma DecodedReencodes(raw: bytes)
    ensures raw == [] ==> DecodeNode(raw) == Err(EmptyNode)
    ensures raw != [] && raw[0] == 0x00 ==> raw == EncodeLeaf(raw[1..]) && DecodeNode(raw) == Ok(Leaf(raw[1..]))
    ensures raw != [] && raw[0] == 0x01 ==>
              if |raw| < 9 then DecodeNode(raw) == Err(TooShort)
              else if |raw| % 32 != 9 then DecodeNode(raw) == Err(Misaligned)
              else exists size, children :: DecodeNode(raw) == Ok(Internal(size, children)) && raw == EncodeInternal(size, children)
    ensures raw != [] && raw[0] > 1 ==> DecodeNode(raw) == Err(UnknownType)
  {
    if raw != [] && raw[0] == 1 && |raw| >= 9 && |raw| % 32 == 9 {
      var size, children := Decode(raw[1..9]), Cells(raw[9..]);
      EncodeDecode(raw[1..9]);
      ConcatOfCells(raw[9..]);
      hide Concat, Cells, Encode, Decode;
      assert raw == [1] + raw[1..9] + raw[9..];
      assert DecodeNode(raw) == Ok(Internal(size, children)) && raw == EncodeInternal(size, children);
    }
  }

  // ---------- cutting ----------

  /** Consecutive pieces of at most k bytes. */
  function Pieces(data: bytes, k: nat): (ps: seq<bytes>)
    requires k > 0
    ensures ps != []
    decreases |data|
  {
    if |data| <= k then [data] else [data[..k]] + Pieces(data[k..], k)
  }

  function Flatten(ps: seq<bytes>): bytes {
    if ps == [] then [] else ps[0] + Flatten(ps[1..])
  }

  lemma {:induction false} FlattenPieces(data: bytes, k: nat)
    requires k > 0
    ensures Flatten(Pieces(data, k)) == data
    decreases |data|
  {
    if |data| <= k {
      assert Flatten([data]) == data + Flatten([data][1..]);
    } else {
      FlattenPieces(data[k..], k);
      var ps := Pieces(data[k..], k);
      assert ([data[..k]] + ps)[1..] == ps;
      assert data == data[..k] + data[k..];
    }
  }

  lemma SliceOfTail(data: bytes, k: nat, a: nat, b: nat)
    requires k <= |data| && a <= b <= |data| - k
    ensures data[k..][a..b] == data[a + k..b + k]
  {
  }

  /** The i-th piece begins at i * k and is k bytes long, or reaches to the end if that is nearer. */
  lemma {:induction false} PieceAt(data: bytes, k: nat, i: nat)
    requires k > 0 && data != [] && i < |Pieces(data, k)|
    ensures i * k < |data| && Pieces(data, k)[i] == data[i * k..Min(i * k + k, |data|)]
    decreases |data|
  {
    if i > 0 {
      var o := (i - 1) * k;
      PieceAt(data[k..], k, i - 1);
      assert i * k == o + k;
      SliceOfTail(data, k, o, Min(o + k, |data| - k));
    }
  }

  lemma {:induction false} PieceCount(data: bytes, k: nat)
    requires k > 0 && data != []
    ensures (|Pieces(data, k)| - 1) * k < |data| <= |Pieces(data, k)| * k
    decreases |data|
  {
    if |data| > k {
      PieceCount(data[k..], k);
      var n := |Pieces(data[k..], k)|;
      assert (n + 1) * k == n * k + k && (n - 1) * k == n * k - k;
    }
  }

  function Leaves(ps: seq<bytes>): (r: seq<bytes>)
    ensures |r| == |ps| && forall i | 0 <= i < |r| :: r[i] == EncodeLeaf(ps[i])
  {
    seq(|ps|, i requires 0 <= i < |ps| => EncodeLeaf(ps[i]))
  }

  function Ids(hash: Hash, nodes: seq<bytes>): (r: seq<ContentID>)
    ensures |r| == |nodes| && forall i | 0 <= i < |r| :: r[i] == hash(nodes[i])
  {
    seq(|nodes|, i requires 0 <= i < |nodes| => hash(nodes[i]))
  }

  /** The stored nodes of a piece of content, the root last. */
  function Nodes(hash: Hash, data: bytes, k: nat): (ns: seq<bytes>)
    requires k > 0
    ensures ns != []
  {
    if |data| <= k then [EncodeLeaf(data)]
    else
      var leaves := Leaves(Pieces(data, k));
      leaves + [EncodeInternal(|data|, Ids(hash, leaves))]
  }

  /** The nodes of some content: one leaf if it fits, else a leaf for each piece and a root that holds
      the total size and the identifiers of the leaves in order. */
  lemma NodesTerms(hash: Hash, data: bytes, k: nat)
    requires k > 0 && data != []
    ensures |data| <= k ==> Nodes(hash, data, k) == [[0x00] + data]
    ensures |data| > k ==>
              var ns, n := Nodes(hash, data, k), |Nodes(hash, data, k)| - 1;
              && (n - 1) * k < |data| <= n * k
              && (forall i | 0 <= i < n :: i * k < |data| && ns[i] == [0x00] + data[i * k..Min(i * k + k, |data|)])
              && |ns[n]| == 9 + 32 * n && ns[n][0] == 0x01 && Decode(ns[n][1..9]) == |data| % 0x1_0000_0000_0000_0000
              && (forall i | 0 <= i < n :: ns[n][9 + 32 * i..41 + 32 * i] == hash(ns[i]))
  {
    if |data| > k {
      var ps := Pieces(data, k);
      var leaves := Leaves(ps);
      PieceCount(data, k);
      NodeLayout([], |data|, Ids(hash, leaves));
      hide Decode, Pieces, EncodeInternal;
      forall i | 0 <= i < |ps| ensures i * k < |data| && leaves[i] == [0x00] + data[i * k..Min(i * k + k, |data|)] {
        PieceAt(data, k, i);
      }
    }
  }

  function RootNode(hash: Hash, data: bytes, k: nat): bytes
    requires k > 0
  {
    var ns := Nodes(hash, data, k);
    ns[|ns| - 1]
  }

  function RootId(hash: Hash, data: bytes, k: nat): ContentID
    requires k > 0
  {
    hash(RootNode(hash, data, k))
  }

  // ---------- reading ----------

  /** DAGBuilder.Get; the source recurses without a bound, here to a given depth. */
  function Get(store: Store, id: ContentID, depth: nat): Result<bytes, Error>
    decreases depth, 0
  {
    if id !in store then Err(NotFound)
    else
      match DecodeNode(store[id])
      case Err(e) => Err(e)
      case Ok(Leaf(data)) => Ok(data)
      case Ok(Internal(_, children)) =>
        if depth == 0 then Err(TooDeep) else GetAll(store, children, depth - 1)
  }

  function GetAll(store: Store, ids: seq<ContentID>, depth: nat): Result<bytes, Error>
    decreases depth, |ids| + 1
  {
    if ids == [] then Ok([])
    else
      match Get(store, ids[0], depth)
      case Err(e) => Err(e)
      case Ok(head) =>
        match GetAll(store, ids[1..], depth)
        case Err(e) => Err(e)
        case Ok(rest) => Ok(head + rest)
  }

  /** Once a read does not hit the depth bound, the bound does not matter: the result is that of the
      unbounded recursion, which ends exactly if some bound suffices. */
  lemma {:induction false} DepthFree(store: Store, id: ContentID, depth: nat, deeper: nat)
    requires depth <= deeper && Get(store, id, depth) != Err(TooDeep)
    ensures Get(store, id, deeper) == Get(store, id, depth)
    decreases depth, 0
  {
    hide DecodeNode;
    NeverTooDeep(store, id);
    if id in store && DecodeNode(store[id]).Ok? && DecodeNode(store[id]).value.Internal? {
      DepthFreeAll(store, DecodeNode(store[id]).value.children, depth - 1, deeper - 1);
    }
  }

  lemma {:induction false} DepthFreeAll(store: Store, ids: seq<ContentID>, depth: nat, deeper: nat)
    requires depth <= deeper && GetAll(store, ids, depth) != Err(TooDeep)
    ensures GetAll(store, ids, deeper) == GetAll(store, ids, depth)
    decreases depth, |ids| + 1
  {
    if ids != [] {
      DepthFree(store, ids[0], depth, deeper);
      if Get(store, ids[0], depth).Ok? { DepthFreeAll(store, ids[1..], depth, deeper); }
    }
  }

  lemma NeverTooDeep(store: Store, id: ContentID)
    ensures id in store ==> DecodeNode(store[id]) != Err(TooDeep)
  {
  }

  function Absent(store: Store, ids: seq<ContentID>): (r: seq<ContentID>)
    ensures forall id :: id in r <==> id in ids && id !in store
  {
    if ids == [] then []
    else
      var n := |ids| - 1;
      assert forall id :: id in ids <==> id in ids[..n] || id == ids[n];
      Absent(store, ids[..n]) + (if ids[n] !in store then [ids[n]] else [])
  }

  function MissingChunks(store: Store, root: ContentID): Result<seq<ContentID>, Error> {
    if root !in store then Ok([root])
    else
      match DecodeNode(store[root])
      case Err(e) => Err(e)
      case Ok(Leaf(_)) => Ok([])
      case Ok(Internal(_, children)) => Ok(Absent(store, children))
  }

  /** Where a node of the content is present, it is the right one. */
  ghost predicate Agrees(hash: Hash, store: Store, nodes: seq<bytes>) {
    forall n | n in nodes && hash(n) in store :: store[hash(n)] == n
  }

  ghost predicate Holds(hash: Hash, store: Store, nodes: seq<bytes>) {
    forall n | n in nodes :: hash(n) in store && store[hash(n)] == n
  }

  ghost predicate Present(hash: Hash, store: Store, nodes: seq<bytes>) {
    forall n | n in nodes :: hash(n) in store
  }

  lemma {:induction false} GetLeaves(hash: Hash, store: Store, ps: seq<bytes>, depth: nat)
    requires Agrees(hash, store, Leaves(ps))
    ensures Present(hash, store, Leaves(ps)) ==> GetAll(store, Ids(hash, Leaves(ps)), depth) == Ok(Flatten(ps))
    ensures !Present(hash, store, Leaves(ps)) ==> GetAll(store, Ids(hash, Leaves(ps)), depth).Err?
    decreases |ps|
  {
    if ps != [] {
      var ns, ids := Leaves(ps), Ids(hash, Leaves(ps));
      assert Leaves(ps[1..]) == ns[1..] && Ids(hash, Leaves(ps[1..])) == ids[1..];
      assert forall n :: n in ns <==> n == ns[0] || n in ns[1..];
      GetLeaves(hash, store, ps[1..], depth);
      LeafRoundTrip(ps[0]);
    }
  }

  /** For the root of some content, in a store that may hold only part of it: nothing is missing
      exactly when reading succeeds, and reading then returns the content. */
  lemma ReadableIffNothingMissing(hash: Hash, store: Store, data: bytes, k: nat, depth: nat)
    requires k > 0 && depth > 0 && |data| < 0x1_0000_0000_0000_0000
    requires Agrees(hash, store, Nodes(hash, data, k))
    ensures var root := RootId(hash, data, k);
            && MissingChunks(store, root).Ok?
            && (MissingChunks(store, root).value == [] <==> Get(store, root, depth).Ok?)
            && (Get(store, root, depth).Ok? <==> Holds(hash, store, Nodes(hash, data, k)))
            && (Get(store, root, depth).Ok? ==> Get(store, root, depth) == Ok(data))
  {
    if |data| <= k {
      LeafRoundTrip(data);
      assert Nodes(hash, data, k) == [EncodeLeaf(data)];
    } else {
      FlattenPieces(data, k);
      ReadInternal(hash, store, |data|, Pieces(data, k), depth);
    }
  }

  lemma ReadInternal(hash: Hash, store: Store, size: nat, ps: seq<bytes>, depth: nat)
    requires depth > 0 && size < 0x1_0000_0000_0000_0000
    requires Agrees(hash, store, Leaves(ps) + [EncodeInternal(size, Ids(hash, Leaves(ps)))])
    ensures var node := EncodeInternal(size, Ids(hash, Leaves(ps)));
            var missing, got := MissingChunks(store, hash(node)), Get(store, hash(node), depth);
            && missing.Ok? && (missing.value == [] <==> got.Ok?) && (got.Ok? ==> got == Ok(Flatten(ps)))
            && (got.Ok? <==> Holds(hash, store, Leaves(ps) + [node]))
  {
    hide *;
    var leaves := Leaves(ps);
    var ids := Ids(hash, leaves);
    var node := EncodeInternal(size, ids);
    SplitLast(hash, store, leaves, node);
    InternalUnfold(hash, store, size, ids, depth);
    GetLeaves(hash, store, ps, depth - 1);
    MissingIffAbsent(hash, store, leaves);
  }

  lemma SplitLast(hash: Hash, store: Store, nodes: seq<bytes>, node: bytes)
    requires Agrees(hash, store, nodes + [node])
    ensures Agrees(hash, store, nodes) && (hash(node) in store ==> store[hash(node)] == node)
    ensures Holds(hash, store, nodes + [node]) <==> Present(hash, store, nodes) && hash(node) in store
  {
    var all := nodes + [node];
    assert node in all && forall n | n in nodes :: n in all;
    assert forall n | n in all :: n in nodes || n == node;
  }

  lemma InternalUnfold(hash: Hash, store: Store, size: nat, ids: seq<ContentID>, depth: nat)
    requires depth > 0 && size < 0x1_0000_0000_0000_0000
    requires var id := hash(EncodeInternal(size, ids)); id in store ==> store[id] == EncodeInternal(size, ids)
    ensures var id := hash(EncodeInternal(size, ids));
            if id in store then MissingChunks(store, id) == Ok(Absent(store, ids)) && Get(store, id, depth) == GetAll(store, ids, depth - 1)
            else MissingChunks(store, id) == Ok([id]) && Get(store, id, depth) == Err(NotFound)
  {
    NodeRoundTrip([], size, ids);
    hide EncodeInternal, DecodeNode, GetAll, Absent;
  }

  lemma MissingIffAbsent(hash: Hash, store: Store, nodes: seq<bytes>)
    ensures Absent(store, Ids(hash, nodes)) == [] <==> Present(hash, store, nodes)
  {
    var ids := Ids(hash, nodes);
    var gone := Absent(store, ids);
    if gone != [] {
      assert gone[0] in gone;
      var i :| 0 <= i < |ids| && ids[i] == gone[0];
      assert nodes[i] in nodes;
    } else {
      forall n | n in nodes ensures hash(n) in store {
        var i :| 0 <= i < |nodes| && nodes[i] == n;
        assert ids[i] in ids;
      }
    }
  }

  // ---------- writing ----------

  function PutAll(hash: Hash, store: Store, nodes: seq<bytes>): Store {
    if nodes == [] then store
    else
      var n := |nodes| - 1;
      PutAll(hash, store, nodes[..n])[hash(nodes[n]) := nodes[n]]
  }

  ghost predicate NoCollision(hash: Hash, nodes: seq<bytes>) {
    forall m, n | m in nodes && n in nodes && hash(m) == hash(n) :: m == n
  }

  /** Writing nodes of a collision-free family stores them and disturbs no node of the family. */
  lemma {:induction false} PutAllHolds(hash: Hash, store: Store, nodes: seq<bytes>, family: seq<bytes>, m: bytes)
    requires NoCollision(hash, family) && (forall n | n in nodes :: n in family) && m in family
    requires m in nodes || (hash(m) in store && store[hash(m)] == m)
    ensures var after := PutAll(hash, store, nodes); hash(m) in after && after[hash(m)] == m
    decreases |nodes|
  {
    if nodes != [] {
      var n := |nodes| - 1;
      assert nodes[n] in nodes && forall x :: x in nodes <==> x in nodes[..n] || x == nodes[n];
      if m != nodes[n] {
        PutAllHolds(hash, store, nodes[..n], family, m);
      }
    }
  }

  /** Writing nodes leaves every other identifier alone. */
  lemma {:induction false} PutAllElse(hash: Hash, store: Store, nodes: seq<bytes>, id: ContentID)
    requires forall n | n in nodes :: hash(n) != id
    ensures id in PutAll(hash, store, nodes) <==> id in store
    ensures id in store ==> PutAll(hash, store, nodes)[id] == store[id]
    decreases |nodes|
  {
    if nodes != [] {
      var n := |nodes| - 1;
      assert nodes[n] in nodes;
      PutAllElse(hash, store, nodes[..n], id);
    }
  }

  /** The store after adding several pieces of content in turn. */
  function AddAll(hash: Hash, store: Store, contents: seq<bytes>, k: nat): Store
    requires k > 0
  {
    if contents == [] then store
    else
      var n := |contents| - 1;
      PutAll(hash, AddAll(hash, store, contents[..n], k), Nodes(hash, contents[n], k))
  }

  function AllNodes(hash: Hash, contents: seq<bytes>, k: nat): seq<bytes>
    requires k > 0
  {
    if contents == [] then []
    else
      var n := |contents| - 1;
      AllNodes(hash, contents[..n], k) + Nodes(hash, contents[n], k)
  }

  lemma {:induction false} AddAllHolds(hash: Hash, store: Store, contents: seq<bytes>, k: nat, family: seq<bytes>, m: bytes)
    requires k > 0 && NoCollision(hash, family) && forall n | n in AllNodes(hash, contents, k) :: n in family
    requires m in AllNodes(hash, contents, k)
    ensures var after := AddAll(hash, store, contents, k); hash(m) in after && after[hash(m)] == m
    decreases |contents|
  {
    var n := |contents| - 1;
    var before, latest := AllNodes(hash, contents[..n], k), Nodes(hash, contents[n], k);
    assert forall x :: x in AllNodes(hash, contents, k) <==> x in before || x in latest;
    if m !in latest {
      AddAllHolds(hash, store, contents[..n], k, family, m);
    }
    PutAllHolds(hash, AddAll(hash, store, contents[..n], k), latest, family, m);
  }

  lemma {:induction false} NodesAmongAll(hash: Hash, contents: seq<bytes>, k: nat, i: nat, m: bytes)
    requires k > 0 && i < |contents| && m in Nodes(hash, contents[i], k)
    ensures m in AllNodes(hash, contents, k)
    decreases |contents|
  {
    hide Nodes;
    var n := |contents| - 1;
    if i < n { NodesAmongAll(hash, contents[..n], k, i, m); }
  }

  /** After any run of additions every root, early or late, reads back exactly its bytes. */
  lemma EveryRootReadsBack(hash: Hash, store: Store, contents: seq<bytes>, k: nat, i: nat, depth: nat)
    requires k > 0 && depth > 0 && i < |contents| && |contents[i]| < 0x1_0000_0000_0000_0000
    requires NoCollision(hash, AllNodes(hash, contents, k))
    ensures Get(AddAll(hash, store, contents, k), RootId(hash, contents[i], k), depth) == Ok(contents[i])
  {
    var after, ns := AddAll(hash, store, contents, k), Nodes(hash, contents[i], k);
    hide AddAll, Nodes, AllNodes;
    forall m | m in ns ensures hash(m) in after && after[hash(m)] == m {
      NodesAmongAll(hash, contents, k, i, m);
      AddAllHolds(hash, store, contents, k, AllNodes(hash, contents, k), m);
    }
    ReadableIffNothingMissing(hash, after, contents[i], k, depth);
  }

  // ---------- fetching ----------

  type Request = (nat, ContentID) -> Option<bytes>

  /** The first answer of the providers, in order. */
  function FirstAnswer(providers: seq<nat>, request: Request, id: ContentID): (r: Option<bytes>)
    ensures r.None? <==> forall p | p in providers :: request(p, id).None?
    ensures r.Some? ==> exists p :: p in providers && request(p, id) == r
  {
    if providers == [] then None
    else if request(providers[0], id).Some? then
      assert providers[0] in providers;
      request(providers[0], id)
    else
      assert forall p :: p in providers <==> p == providers[0] || p in providers[1..];
      FirstAnswer(providers[1..], request, id)
  }

  /** Fetches chunk after chunk into the store; stops at one nobody has. */
  function FetchAll(store: Store, ids: seq<ContentID>, providers: seq<nat>, request: Request): (Store, bool)
    decreases |ids|
  {
    if ids == [] then (store, true)
    else
      match FirstAnswer(providers, request, ids[0])
      case None => (store, false)
      case Some(x) => FetchAll(store[ids[0] := x], ids[1..], providers, request)
  }

  function WithRoot(store: Store, root: ContentID, providers: seq<nat>, request: Request): Store {
    if root in store then store
    else
      match FirstAnswer(providers, request, root)
      case None => store
      case Some(x) => store[root := x]
  }

  function Fetch(store: Store, root: ContentID, providers: seq<nat>, request: Request, depth: nat): (Store, Result<bytes, Error>) {
    if Get(store, root, depth).Ok? then (store, Get(store, root, depth))
    else if providers == [] then (store, Err(NoProviders))
    else
      var s := WithRoot(store, root, providers, request);
      match MissingChunks(s, root)
      case Err(e) => (s, Err(e))
      case Ok(missing) =>
        var (t, ok) := FetchAll(s, missing, providers, request);
        (t, if ok then Get(t, root, depth) else Err(ChunkUnavailable))
  }

  /** Whatever a fetch adds is the first answer for its identifier, and nothing stored is replaced. */
  lemma {:induction false} FetchAllGains(store: Store, ids: seq<ContentID>, providers: seq<nat>, request: Request, id: ContentID)
    ensures var after := FetchAll(store, ids, providers, request).0;
            && (id in store ==> id in after)
            && (id in store && id !in ids ==> after[id] == store[id])
            && (id in after ==> (id in store && after[id] == store[id]) || FirstAnswer(providers, request, id) == Some(after[id]))
    decreases |ids|
  {
    hide FirstAnswer;
    if ids != [] && FirstAnswer(providers, request, ids[0]).Some? {
      assert ids[0] in ids;
      var x := FirstAnswer(providers, request, ids[0]).value;
      FetchAllGains(store[ids[0] := x], ids[1..], providers, request, id);
    }
  }

  lemma FetchGains(store: Store, root: ContentID, providers: seq<nat>, request: Request, depth: nat, id: ContentID)
    ensures var after := Fetch(store, root, providers, request, depth).0;
            && (id in store ==> id in after && after[id] == store[id])
            && (id in after && id !in store ==> FirstAnswer(providers, request, id) == Some(after[id]))
  {
    var s := WithRoot(store, root, providers, request);
    if MissingChunks(s, root).Ok? {
      var missing := MissingChunks(s, root).value;
      assert forall x | x in missing :: x !in s;
      hide FirstAnswer, FetchAll, Get, MissingChunks;
      FetchAllGains(s, missing, providers, request, id);
    }
  }

  /** Nor does the bound matter to a fetch whose reads do not hit it. */
  lemma FetchDepthFree(store: Store, root: ContentID, providers: seq<nat>, request: Request, depth: nat, deeper: nat)
    requires depth <= deeper && Get(store, root, depth) != Err(TooDeep)
    requires Fetch(store, root, providers, request, depth).1 != Err(TooDeep)
    ensures Fetch(store, root, providers, request, deeper) == Fetch(store, root, providers, request, depth)
  {
    hide Get, FetchAll, FirstAnswer, MissingChunks;
    DepthFree(store, root, depth, deeper);
    var s := WithRoot(store, root, providers, request);
    if MissingChunks(s, root).Ok? {
      var (t, ok) := FetchAll(s, MissingChunks(s, root).value, providers, request);
      if !Get(store, root, depth).Ok? && providers != [] && ok { DepthFree(t, root, depth, deeper); }
    }
  }

  /** Providers answer a request for a node of the content with that node or not at all. */
  ghost predicate Honest(hash: Hash, nodes: seq<bytes>, providers: seq<nat>, request: Request) {
    forall p, n | p in providers && n in nodes :: request(p, hash(n)) == None || request(p, hash(n)) == Some(n)
  }

  ghost predicate Available(hash: Hash, store: Store, nodes: seq<bytes>, providers: seq<nat>, request: Request) {
    forall n | n in nodes :: hash(n) in store || FirstAnswer(providers, request, hash(n)).Some?
  }

  /** Storing answers for node identifiers keeps the store right about the content. */
  lemma {:induction false} FetchAllAgrees(hash: Hash, store: Store, ids: seq<ContentID>, nodes: seq<bytes>, providers: seq<nat>, request: Request)
    requires NoCollision(hash, nodes) && Agrees(hash, store, nodes) && Honest(hash, nodes, providers, request)
    requires forall id | id in ids :: exists n :: n in nodes && hash(n) == id
    ensures var (after, ok) := FetchAll(store, ids, providers, request);
            && Agrees(hash, after, nodes) && store.Keys <= after.Keys
            && (ok ==> forall id | id in ids :: id in after)
            && (!ok ==> exists id :: id in ids && FirstAnswer(providers, request, id).None?)
    decreases |ids|
  {
    if ids != [] {
      var id := ids[0];
      assert id in ids;
      var n :| n in nodes && hash(n) == id;
      var answer := FirstAnswer(providers, request, id);
      if answer.Some? {
        assert answer == Some(n);
        assert forall x | x in ids[1..] :: x in ids;
        FetchAllAgrees(hash, store[id := n], ids[1..], nodes, providers, request);
        assert forall x :: x in ids <==> x == id || x in ids[1..];
      }
    }
  }

  lemma {:induction false} RootAmongNodes(hash: Hash, data: bytes, k: nat)
    requires k > 0
    ensures RootNode(hash, data, k) in Nodes(hash, data, k)
  {
  }

  /** What is missing for the root of some content are identifiers of its nodes. */
  lemma MissingAreNodes(hash: Hash, store: Store, data: bytes, k: nat)
    requires k > 0 && |data| < 0x1_0000_0000_0000_0000 && Agrees(hash, store, Nodes(hash, data, k))
    requires MissingChunks(store, RootId(hash, data, k)).Ok?
    ensures forall id | id in MissingChunks(store, RootId(hash, data, k)).value ::
              exists n :: n in Nodes(hash, data, k) && hash(n) == id
    ensures RootId(hash, data, k) in store ==>
              forall n | n in Nodes(hash, data, k) ::
                hash(n) in store || hash(n) in MissingChunks(store, RootId(hash, data, k)).value
  {
    var ns, root := Nodes(hash, data, k), RootId(hash, data, k);
    RootAmongNodes(hash, data, k);
    if root in store {
      if |data| <= k {
        LeafRoundTrip(data);
      } else {
        MissingLeaves(hash, store, |data|, Leaves(Pieces(data, k)));
      }
    }
  }

  lemma MissingLeaves(hash: Hash, store: Store, size: nat, leaves: seq<bytes>)
    requires size < 0x1_0000_0000_0000_0000
    requires var node := EncodeInternal(size, Ids(hash, leaves)); hash(node) in store && store[hash(node)] == node
    ensures var node := EncodeInternal(size, Ids(hash, leaves));
            var missing := MissingChunks(store, hash(node));
            && missing.Ok?
            && (forall id | id in missing.value :: exists n :: n in leaves + [node] && hash(n) == id)
            && (forall n | n in leaves + [node] :: hash(n) in store || hash(n) in missing.value)
  {
    var ids := Ids(hash, leaves);
    var node := EncodeInternal(size, ids);
    InternalUnfold(hash, store, size, ids, 1);
    hide EncodeInternal, MissingChunks;
    forall id | id in Absent(store, ids) ensures exists n :: n in leaves + [node] && hash(n) == id {
      var i :| 0 <= i < |ids| && ids[i] == id;
      assert leaves[i] in leaves + [node];
    }
    forall n | n in leaves ensures hash(n) in store || hash(n) in Absent(store, ids) {
      var i :| 0 <= i < |leaves| && leaves[i] == n;
      assert ids[i] in ids;
    }
  }

  /** A fetch that succeeds found every node in the store or with a provider. */
  lemma FetchedWasAvailable(hash: Hash, store: Store, data: bytes, k: nat, providers: seq<nat>, request: Request, depth: nat)
    requires k > 0 && depth > 0 && |data| < 0x1_0000_0000_0000_0000
    requires var (after, r) := Fetch(store, RootId(hash, data, k), providers, request, depth);
             r.Ok? && Agrees(hash, after, Nodes(hash, data, k))
    ensures Available(hash, store, Nodes(hash, data, k), providers, request)
  {
    var ns, root := Nodes(hash, data, k), RootId(hash, data, k);
    var (after, r) := Fetch(store, root, providers, request, depth);
    assert Get(after, root, depth).Ok? by {
      hide Get, MissingChunks, FetchAll, WithRoot, Nodes, RootId;
    }
    ReadableIffNothingMissing(hash, after, data, k, depth);
    hide Fetch, Nodes, Get, RootId, FirstAnswer, MissingChunks;
    forall n | n in ns ensures hash(n) in store || FirstAnswer(providers, request, hash(n)).Some? {
      FetchGains(store, root, providers, request, depth, hash(n));
    }
  }

  /** With honest providers a fetch never returns anything but the content, and it does return it
      exactly if every node is at hand or offered by some provider. */
  lemma FetchReturnsContent(hash: Hash, store: Store, data: bytes, k: nat, providers: seq<nat>, request: Request, depth: nat)
    requires k > 0 && depth > 0 && |data| < 0x1_0000_0000_0000_0000
    requires NoCollision(hash, Nodes(hash, data, k)) && Agrees(hash, store, Nodes(hash, data, k))
    requires Honest(hash, Nodes(hash, data, k), providers, request)
    ensures var (after, r) := Fetch(store, RootId(hash, data, k), providers, request, depth);
            && Agrees(hash, after, Nodes(hash, data, k)) && (r.Ok? ==> r == Ok(data))
            && (Available(hash, store, Nodes(hash, data, k), providers, request) <==> r == Ok(data))
  {
    var ns, root := Nodes(hash, data, k), RootId(hash, data, k);
    RootAmongNodes(hash, data, k);
    ReadableIffNothingMissing(hash, store, data, k, depth);
    var s := WithRoot(store, root, providers, request);
    assert Agrees(hash, s, ns) && store.Keys <= s.Keys by {
      WithRootAgrees(hash, store, data, k, providers, request);
    }
    ReadableIffNothingMissing(hash, s, data, k, depth);
    MissingAreNodes(hash, s, data, k);
    var missing := MissingChunks(s, root).value;
    FetchAllAgrees(hash, s, missing, ns, providers, request);
    var (t, ok) := FetchAll(s, missing, providers, request);
    ReadableIffNothingMissing(hash, t, data, k, depth);
    hide Nodes, RootNode, Get, MissingChunks, FetchAll, FirstAnswer;
    if Available(hash, store, ns, providers, request) && !Get(store, root, depth).Ok? {
      FetchSucceeds(hash, store, data, k, providers, request);
    }
    if Fetch(store, root, providers, request, depth).1.Ok? {
      FetchedWasAvailable(hash, store, data, k, providers, request, depth);
    }
  }

  lemma WithRootAgrees(hash: Hash, store: Store, data: bytes, k: nat, providers: seq<nat>, request: Request)
    requires k > 0 && NoCollision(hash, Nodes(hash, data, k)) && Agrees(hash, store, Nodes(hash, data, k))
    requires Honest(hash, Nodes(hash, data, k), providers, request)
    ensures var s := WithRoot(store, RootId(hash, data, k), providers, request);
            Agrees(hash, s, Nodes(hash, data, k)) && store.Keys <= s.Keys
    ensures Available(hash, store, Nodes(hash, data, k), providers, request) ==>
              RootId(hash, data, k) in WithRoot(store, RootId(hash, data, k), providers, request)
  {
    var node := RootNode(hash, data, k);
    RootAmongNodes(hash, data, k);
    hide Nodes, RootNode, Agrees, Honest, NoCollision, FirstAnswer;
    HonestAnswer(hash, Nodes(hash, data, k), node, providers, request);
    PutAgrees(hash, store, Nodes(hash, data, k), node);
  }

  lemma HonestAnswer(hash: Hash, nodes: seq<bytes>, node: bytes, providers: seq<nat>, request: Request)
    requires Honest(hash, nodes, providers, request) && node in nodes
    ensures var r := FirstAnswer(providers, request, hash(node)); r == None || r == Some(node)
  {
  }

  lemma PutAgrees(hash: Hash, store: Store, nodes: seq<bytes>, node: bytes)
    requires NoCollision(hash, nodes) && Agrees(hash, store, nodes) && node in nodes
    ensures Agrees(hash, store[hash(node) := node], nodes)
  {
  }

  lemma FetchSucceeds(hash: Hash, store: Store, data: bytes, k: nat, providers: seq<nat>, request: Request)
    requires k > 0 && |data| < 0x1_0000_0000_0000_0000
    requires NoCollision(hash, Nodes(hash, data, k)) && Agrees(hash, store, Nodes(hash, data, k))
    requires Honest(hash, Nodes(hash, data, k), providers, request)
    requires Available(hash, store, Nodes(hash, data, k), providers, request)
    ensures var root := RootId(hash, data, k);
            var s := WithRoot(store, root, providers, request);
            MissingChunks(s, root).Ok? &&
            var (t, ok) := FetchAll(s, MissingChunks(s, root).value, providers, request);
            ok && Holds(hash, t, Nodes(hash, data, k))
  {
    var ns, root := Nodes(hash, data, k), RootId(hash, data, k);
    var s := WithRoot(store, root, providers, request);
    WithRootAgrees(hash, store, data, k, providers, request);
    ReadableIffNothingMissing(hash, s, data, k, 1);
    MissingAreNodes(hash, s, data, k);
    var missing := MissingChunks(s, root).value;
    MissingNotStored(hash, s, data, k);
    FetchAllAgrees(hash, s, missing, ns, providers, request);
    hide Nodes, RootNode, MissingChunks, FetchAll, FirstAnswer, WithRoot;
    var (t, ok) := FetchAll(s, missing, providers, request);
    assert ok by {
      forall id | id in missing ensures FirstAnswer(providers, request, id).Some? {
        var n :| n in ns && hash(n) == id;
        assert hash(n) !in store;
      }
    }
  }

  lemma MissingNotStored(hash: Hash, store: Store, data: bytes, k: nat)
    requires k > 0 && MissingChunks(store, RootId(hash, data, k)).Ok?
    ensures forall id | id in MissingChunks(store, RootId(hash, data, k)).value :: id !in store
  {
  }

  // ---------- the objects ----------

  class DAGBuilder {
    var store: Store
    const hash: Hash
    const chunkSize: nat

    ghost predicate Valid()
      reads this
    {
      chunkSize > 0
    }

    constructor (hash: Hash, chunkSize: int)
      ensures Valid() && store == map[] && this.hash == hash
      ensures this.chunkSize == if chunkSize <= 0 then 256 * 1024 else chunkSize
    {
      this.hash := hash;
      this.chunkSize := if chunkSize <= 0 then 256 * 1024 else chunkSize;
      store := map[];
    }

    method Put(node: bytes) returns (id: ContentID)
      modifies this
      ensures id == hash(node) && store == old(store)[id := node]
    {
      id := hash(node);
      store := store[id := node];
    }

    method Add(data: bytes) returns (r: Result<ContentID, Error>)
      requires Valid()
      modifies this
      ensures data == [] ==> r == Err(EmptyContent) && store == old(store)
      ensures data != [] ==> r == Ok(RootId(hash, data, chunkSize))
      ensures data != [] ==> store == PutAll(hash, old(store), Nodes(hash, data, chunkSize))
      ensures 0 < |data| <= chunkSize ==>
                r == Ok(hash([0x00] + data)) && store == old(store)[hash([0x00] + data) := [0x00] + data]
    {
      if data == [] { return Err(EmptyContent); }
      if |data| <= chunkSize {
        hide EncodeLeaf;
        AppendNode(hash, store, [], EncodeLeaf(data));
        var id := Put(EncodeLeaf(data));
        return Ok(id);
      }
      hide PutAll, EncodeInternal, Pieces, Leaves;
      var childIds := AddChunks(data);
      var node := EncodeInternal(|data|, childIds);
      AppendNode(hash, old(store), Leaves(Pieces(data, chunkSize)), node);
      var root := Put(node);
      r := Ok(root);
    }

    method AddChunks(data: bytes) returns (childIds: seq<ContentID>)
      requires Valid() && data != []
      modifies this
      ensures childIds == LeafIds(hash, Pieces(data, chunkSize))
      ensures store == PutLeaves(hash, old(store), Pieces(data, chunkSize))
    {
      NoLeaves(hash, store);
      assert chunkSize > 0;
      hide *;
      ghost var was := store;
      var offset := 0;
      childIds := [];
      ghost var done: seq<bytes> := [];
      NothingCut(data, chunkSize);
      while offset < |data|
        invariant 0 <= offset <= |data| && CutTo(data, chunkSize, offset, done)
        invariant childIds == LeafIds(hash, done) && store == PutLeaves(hash, was, done)
      {
        var end := if offset + chunkSize > |data| then |data| else offset + chunkSize;
        var chunk := data[offset..end];
        CutOneMore(data, chunkSize, offset, done, end);
        AppendLeaf(hash, was, done, chunk);
        var id := Put(EncodeLeaf(chunk));
        childIds := childIds + [id];
        done := done + [chunk];
        offset := end;
      }
      AllCut(data, chunkSize, done);
    }

    /** The fetch loop of the content protocol. */
    method FetchContent(root: ContentID, providers: seq<nat>, request: Request, depth: nat) returns (r: Result<bytes, Error>)
      modifies this
      ensures (store, r) == Fetch(old(store), root, providers, request, depth)
      ensures forall id | id in old(store) :: id in store && store[id] == old(store)[id]
      ensures forall id | id in store && id !in old(store) :: FirstAnswer(providers, request, id) == Some(store[id])
      ensures Get(old(store), root, depth).Ok? ==> store == old(store) && r == Get(old(store), root, depth)
      ensures Get(old(store), root, depth).Err? && providers == [] ==> store == old(store) && r == Err(NoProviders)
    {
      forall id ensures
          var after := Fetch(store, root, providers, request, depth).0;
          && (id in store ==> id in after && after[id] == store[id])
          && (id in after && id !in store ==> FirstAnswer(providers, request, id) == Some(after[id]))
      {
        FetchGains(store, root, providers, request, depth, id);
      }
      hide Get, MissingChunks, FirstAnswer;
      var local := Get(store, root, depth);
      if local.Ok? { return local; }
      if |providers| == 0 { return Err(NoProviders); }
      if root !in store {
        var answer := Ask(providers, request, root);
        if answer.Some? { store := store[root := answer.value]; }
      }
      var missing := MissingChunks(store, root);
      if missing.Err? { return Err(missing.error); }
      var ids := missing.value;
      ghost var target := FetchAll(store, ids, providers, request);
      for i := 0 to |ids|
        invariant FetchAll(store, ids[i..], providers, request) == target
      {
        var answer := Ask(providers, request, ids[i]);
        assert ids[i..][0] == ids[i] && ids[i..][1..] == ids[i + 1..];
        if answer.None? { return Err(ChunkUnavailable); }
        store := store[ids[i] := answer.value];
      }
      r := Get(store, root, depth);
    }
  }

  method Ask(providers: seq<nat>, request: Request, id: ContentID) returns (answer: Option<bytes>)
    ensures answer == FirstAnswer(providers, request, id)
  {
    for i := 0 to |providers|
      invariant FirstAnswer(providers[i..], request, id) == FirstAnswer(providers, request, id)
    {
      assert providers[i..][1..] == providers[i + 1..];
      answer := request(providers[i], id);
      if answer.Some? { return answer; }
    }
    answer := None;
  }

  /** The pieces done so far are those of the data before the offset. */
  ghost predicate CutTo(data: bytes, k: nat, offset: nat, done: seq<bytes>)
    requires k > 0 && offset <= |data|
  {
    done + (if offset < |data| then Pieces(data[offset..], k) else []) == Pieces(data, k)
  }

  lemma NothingCut(data: bytes, k: nat)
    requires k > 0 && data != []
    ensures CutTo(data, k, 0, [])
  {
    assert data[0..] == data;
  }

  lemma CutOneMore(data: bytes, k: nat, offset: nat, done: seq<bytes>, end: nat)
    requires k > 0 && offset < |data| && CutTo(data, k, offset, done)
    requires end == if offset + k > |data| then |data| else offset + k
    ensures CutTo(data, k, end, done + [data[offset..end]])
  {
    var tail := data[offset..];
    if offset + k < |data| {
      assert tail[k..] == data[end..] && tail[..k] == data[offset..end];
      assert done + ([tail[..k]] + Pieces(tail[k..], k)) == done + [tail[..k]] + Pieces(tail[k..], k);
    } else {
      assert tail == data[offset..end];
      assert done + [tail] + [] == done + [tail];
    }
  }

  lemma AllCut(data: bytes, k: nat, done: seq<bytes>)
    requires k > 0 && CutTo(data, k, |data|, done)
    ensures done == Pieces(data, k)
  {
  }

  function LeafIds(hash: Hash, ps: seq<bytes>): seq<ContentID> {
    Ids(hash, Leaves(ps))
  }

  function PutLeaves(hash: Hash, store: Store, ps: seq<bytes>): Store {
    PutAll(hash, store, Leaves(ps))
  }

  lemma NoLeaves(hash: Hash, store: Store)
    ensures LeafIds(hash, []) == [] && PutLeaves(hash, store, []) == store
  {
  }

  lemma AppendNode(hash: Hash, store: Store, nodes: seq<bytes>, node: bytes)
    ensures PutAll(hash, store, nodes + [node]) == PutAll(hash, store, nodes)[hash(node) := node]
  {
    assert (nodes + [node])[..|nodes|] == nodes;
  }

  lemma AppendLeaf(hash: Hash, store: Store, ps: seq<bytes>, chunk: bytes)
    ensures LeafIds(hash, ps + [chunk]) == LeafIds(hash, ps) + [hash(EncodeLeaf(chunk))]
    ensures PutLeaves(hash, store, ps + [chunk]) == PutLeaves(hash, store, ps)[hash(EncodeLeaf(chunk)) := EncodeLeaf(chunk)]
  {
    assert Leaves(ps + [chunk]) == Leaves(ps) + [EncodeLeaf(chunk)];
    AppendNode(hash, store, Leaves(ps), EncodeLeaf(chunk));
  }
}
