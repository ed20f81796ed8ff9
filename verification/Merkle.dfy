/**
 Merkle membership proofs of identity/disclosure.go: leaves are padded to a power of two with the
 hash of the empty string, hashed pairwise up to a root, and a proof is the list of siblings with
 the side each is on. The hash is a parameter; nothing is assumed of it except the digest size, and,
 where a proof must be unforgeable, that the strings actually hashed do not collide.
 */
module Merkle {
  import opened Bytes
  import opened Common

  const DigestSize := 32

  type Hash = bytes -> bytes

  ghost predicate Digests(keccak: Hash) {
    forall s: bytes :: |keccak(s)| == DigestSize
  }

  // ---------- the tree ----------

  predicate PowerOfTwo(n: nat) {
    n == 1 || (n > 1 && n % 2 == 0 && PowerOfTwo(n / 2))
  }

  function Log2(n: nat): nat {
    if n <= 1 then 0 else 1 + Log2(n / 2)
  }

  /** The next level: each pair of neighbours hashed. */
  function Level(keccak: Hash, xs: seq<bytes>): (ys: seq<bytes>)
    ensures |ys| == |xs| / 2
  {
    seq(|xs| / 2, i requires 0 <= i < |xs| / 2 => keccak(xs[2 * i] + xs[2 * i + 1]))
  }

  function Root(keccak: Hash, xs: seq<bytes>): bytes
    requires PowerOfTwo(|xs|)
    decreases |xs|
  {
    if |xs| == 1 then xs[0] else Root(keccak, Level(keccak, xs))
  }

  function Sibling(i: nat): nat {
    if i % 2 == 0 then i + 1 else i - 1
  }

  /** The siblings met on the way from leaf i to the root. */
  function Path(keccak: Hash, xs: seq<bytes>, i: nat): (p: seq<bytes>)
    requires PowerOfTwo(|xs|) && i < |xs|
    ensures |p| == Log2(|xs|)
    decreases |xs|
  {
    if |xs| == 1 then [] else [xs[Sibling(i)]] + Path(keccak, Level(keccak, xs), i / 2)
  }

  /** The low bits of the leaf number, as directions: true when the sibling is on the right. */
  function Directions(i: nat, depth: nat): (d: seq<bool>)
    ensures |d| == depth
    decreases depth
  {
    if depth == 0 then [] else [i % 2 == 0] + Directions(i / 2, depth - 1)
  }

  function Position(d: seq<bool>): nat {
    if d == [] then 0 else (if d[0] then 0 else 1) + 2 * Position(d[1..])
  }

  /** What is hashed when a sibling joins the running digest. */
  function Joined(current: bytes, sibling: bytes, right: bool): bytes {
    if right then current + sibling else sibling + current
  }

  /** The checker's running digest after the whole path. */
  function Fold(keccak: Hash, leaf: bytes, path: seq<bytes>, d: seq<bool>): bytes
    requires |path| <= |d|
    decreases |path|
  {
    if path == [] then leaf else Fold(keccak, keccak(Joined(leaf, path[0], d[0])), path[1..], d[1..])
  }

  /** The tree seen from the top: the root is the hash of the left half's root and the right half's. */
  lemma {:induction false} RootOfHalves(keccak: Hash, xs: seq<bytes>, ys: seq<bytes>)
    requires |xs| == |ys| && PowerOfTwo(|xs|)
    ensures PowerOfTwo(|xs + ys|) && Root(keccak, xs + ys) == keccak(Root(keccak, xs) + Root(keccak, ys))
    decreases |xs|
  {
    var zs := xs + ys;
    assert |zs| / 2 == |xs|;
    if |xs| == 1 {
      assert Level(keccak, zs) == [keccak(xs[0] + ys[0])];
    } else {
      RootOfHalves(keccak, Level(keccak, xs), Level(keccak, ys));
      LevelOfHalves(keccak, xs, ys);
      hide Level;
      OneLevel(keccak, zs);
    }
  }

  lemma LevelOfHalves(keccak: Hash, xs: seq<bytes>, ys: seq<bytes>)
    requires |xs| % 2 == 0
    ensures Level(keccak, xs + ys) == Level(keccak, xs) + Level(keccak, ys)
  {
    var zs, n := xs + ys, |xs| / 2;
    forall i | 0 <= i < |zs| / 2 ensures Level(keccak, zs)[i] == (Level(keccak, xs) + Level(keccak, ys))[i] {
      if i < n {
        assert zs[2 * i] == xs[2 * i] && zs[2 * i + 1] == xs[2 * i + 1];
      } else {
        assert zs[2 * i] == ys[2 * (i - n)] && zs[2 * i + 1] == ys[2 * (i - n) + 1];
      }
    }
  }

  function Pow2(k: nat): (p: nat)
    ensures p > 0
  {
    if k == 0 then 1 else 2 * Pow2(k - 1)
  }

  /** Step k of the way up has its sibling on the right exactly if bit k of the leaf number is 0. */
  lemma {:induction false} DirectionAt(i: nat, depth: nat, k: nat)
    requires k < depth
    ensures Directions(i, depth)[k] <==> i / Pow2(k) % 2 == 0
    decreases depth
  {
    if k > 0 {
      DirectionAt(i / 2, depth - 1, k - 1);
      HalfDiv(i, Pow2(k - 1));
    }
  }

  lemma HalfDiv(i: nat, p: nat)
    requires p > 0
    ensures i / 2 / p == i / (2 * p)
  {
    var q, r := i / 2, i % 2;
    var a, b := q / p, q % p;
    assert i == 2 * (a * p + b) + r == (2 * p) * a + (2 * b + r);
    QuotientUnique(i, 2 * p, a, 2 * b + r);
  }

  /** The checker, one sibling at a time: joined on the right for true, on the left for false. */
  lemma FoldStep(keccak: Hash, leaf: bytes, sibling: bytes, path: seq<bytes>, d: seq<bool>)
    requires |path| <= |d|
    ensures Fold(keccak, leaf, [], d) == leaf
    ensures Fold(keccak, leaf, [sibling] + path, [true] + d) == Fold(keccak, keccak(leaf + sibling), path, d)
    ensures Fold(keccak, leaf, [sibling] + path, [false] + d) == Fold(keccak, keccak(sibling + leaf), path, d)
  {
    FoldCons(keccak, leaf, sibling, path, true, d);
    FoldCons(keccak, leaf, sibling, path, false, d);
  }

  // ---------- completeness ----------

  lemma FoldCons(keccak: Hash, leaf: bytes, sibling: bytes, path: seq<bytes>, right: bool, d: seq<bool>)
    requires |path| <= |d|
    ensures Fold(keccak, leaf, [sibling] + path, [right] + d) == Fold(keccak, keccak(Joined(leaf, sibling, right)), path, d)
  {
    assert ([sibling] + path)[1..] == path && ([right] + d)[1..] == d;
  }

  lemma LevelAt(keccak: Hash, xs: seq<bytes>, i: nat)
    requires |xs| % 2 == 0 && i < |xs|
    ensures Sibling(i) < |xs|
    ensures Level(keccak, xs)[i / 2] == keccak(Joined(xs[i], xs[Sibling(i)], i % 2 == 0))
  {
    if i % 2 == 0 {
      assert 2 * (i / 2) == i;
    } else {
      assert 2 * (i / 2) + 1 == i;
    }
  }

  /** The path of every leaf leads the checker to the root. */
  lemma {:induction false} PathLeadsToRoot(keccak: Hash, xs: seq<bytes>, i: nat)
    requires PowerOfTwo(|xs|) && i < |xs|
    ensures Fold(keccak, xs[i], Path(keccak, xs, i), Directions(i, Log2(|xs|))) == Root(keccak, xs)
    decreases |xs|
  {
    if |xs| > 1 {
      hide *;
      OneLevel(keccak, xs);
      Halves(|xs|, i);
      var ys := Level(keccak, xs);
      PathLeadsToRoot(keccak, ys, i / 2);
      LevelAt(keccak, xs, i);
      var sibling, rest, d := xs[Sibling(i)], Path(keccak, ys, i / 2), Directions(i / 2, Log2(|ys|));
      PathUnfold(keccak, xs, i);
      DirectionsUnfold(i, Log2(|xs|));
      FoldCons(keccak, xs[i], sibling, rest, i % 2 == 0, d);
    }
  }

  lemma DirectionsUnfold(i: nat, depth: nat)
    requires depth > 0
    ensures Directions(i, depth) == [i % 2 == 0] + Directions(i / 2, depth - 1)
  {
  }

  lemma {:induction false} PositionOfDirections(i: nat, depth: nat, n: nat)
    requires PowerOfTwo(n) && depth == Log2(n) && i < n
    ensures Position(Directions(i, depth)) == i
    decreases depth
  {
    if n > 1 {
      PositionOfDirections(i / 2, depth - 1, n / 2);
    }
  }

  lemma {:induction false} DirectionsOfPosition(d: seq<bool>, n: nat)
    requires PowerOfTwo(n) && |d| == Log2(n)
    ensures Position(d) < n && Directions(Position(d), |d|) == d
    decreases |d|
  {
    if d != [] {
      DirectionsOfPosition(d[1..], n / 2);
      assert d == [d[0]] + d[1..];
    }
  }

  // ---------- soundness ----------

  /** The strings the checker hashes. */
  function Checked(keccak: Hash, leaf: bytes, path: seq<bytes>, d: seq<bool>): set<bytes>
    requires |path| <= |d|
    decreases |path|
  {
    if path == [] then {}
    else
      var s := Joined(leaf, path[0], d[0]);
      {s} + Checked(keccak, keccak(s), path[1..], d[1..])
  }

  /** The strings the builder hashes. */
  function Built(keccak: Hash, xs: seq<bytes>): set<bytes>
    requires PowerOfTwo(|xs|)
    decreases |xs|
  {
    if |xs| == 1 then {} else Pairs(xs) + Built(keccak, Level(keccak, xs))
  }

  function Pairs(xs: seq<bytes>): set<bytes> {
    set i | 0 <= i < |xs| / 2 :: xs[2 * i] + xs[2 * i + 1]
  }

  lemma OneLevel(keccak: Hash, xs: seq<bytes>)
    requires PowerOfTwo(|xs|) && |xs| > 1
    ensures |xs| % 2 == 0 && PowerOfTwo(|xs| / 2) && Log2(|xs|) == 1 + Log2(|xs| / 2)
    ensures Root(keccak, xs) == Root(keccak, Level(keccak, xs))
    ensures Built(keccak, xs) == Pairs(xs) + Built(keccak, Level(keccak, xs))
  {
    hide Level, Pairs;
  }

  lemma OneCheck(keccak: Hash, leaf: bytes, path: seq<bytes>, d: seq<bool>)
    requires path != [] && |path| <= |d|
    ensures var s := Joined(leaf, path[0], d[0]);
            && Fold(keccak, leaf, path, d) == Fold(keccak, keccak(s), path[1..], d[1..])
            && Checked(keccak, leaf, path, d) == {s} + Checked(keccak, keccak(s), path[1..], d[1..])
            && Position(d) == (if d[0] then 0 else 1) + 2 * Position(d[1..])
  {
    hide Joined;
  }

  ghost predicate NoCollision(keccak: Hash, a: set<bytes>, b: set<bytes>) {
    forall s, t | s in a && t in b && keccak(s) == keccak(t) :: s == t
  }

  /** Unless the checker's and the builder's strings collide, an accepted proof of full length has
      the very leaf its directions point at, and the very siblings on the way up. */
  lemma {:induction false} AcceptedIsLeaf(keccak: Hash, xs: seq<bytes>, leaf: bytes, path: seq<bytes>, d: seq<bool>)
    requires Digests(keccak) && PowerOfTwo(|xs|) && AllDigests(xs)
    requires |leaf| == DigestSize && |path| == |d| == Log2(|xs|)
    requires NoCollision(keccak, Checked(keccak, leaf, path, d), Built(keccak, xs))
    requires Fold(keccak, leaf, path, d) == Root(keccak, xs)
    ensures Position(d) < |xs| && leaf == xs[Position(d)] && path == Path(keccak, xs, Position(d))
    decreases |xs|
  {
    hide *;
    if |xs| > 1 {
      OneLevel(keccak, xs);
      var s := Joined(leaf, path[0], d[0]);
      OneCheck(keccak, leaf, path, d);
      LevelDigests(keccak, xs, s);
      CollisionsBelow(keccak, xs, leaf, path, d);
      AcceptedIsLeaf(keccak, Level(keccak, xs), keccak(s), path[1..], d[1..]);
      LeafStep(keccak, xs, leaf, path, d);
    } else {
      PowerIsPositive(|xs|);
      LastLevel(keccak, xs, leaf, path, d);
    }
  }

  /** The induction step: from the level above to this one. */
  lemma LeafStep(keccak: Hash, xs: seq<bytes>, leaf: bytes, path: seq<bytes>, d: seq<bool>)
    requires PowerOfTwo(|xs|) && |xs| > 1 && PowerOfTwo(|xs| / 2) && AllDigests(xs) && |leaf| == DigestSize
    requires path != [] && d != [] && Position(d[1..]) < |xs| / 2
    requires keccak(Joined(leaf, path[0], d[0])) == Level(keccak, xs)[Position(d[1..])]
    requires NoCollision(keccak, {Joined(leaf, path[0], d[0])}, Built(keccak, xs))
    requires path[1..] == Path(keccak, Level(keccak, xs), Position(d[1..]))
    ensures Position(d) < |xs| && leaf == xs[Position(d)] && path == Path(keccak, xs, Position(d))
  {
    hide *;
    var j := Position(d[1..]);
    PositionStep(d);
    PairDigests(xs, j);
    LeafBelow(keccak, xs, leaf, path[0], d[0], j);
    Halves(|xs|, Position(d));
    PathBelow(keccak, xs, path, Position(d));
  }

  lemma PositionStep(d: seq<bool>)
    requires d != []
    ensures Position(d) == (if d[0] then 0 else 1) + 2 * Position(d[1..]) && Position(d) / 2 == Position(d[1..])
  {
  }

  lemma LastLevel(keccak: Hash, xs: seq<bytes>, leaf: bytes, path: seq<bytes>, d: seq<bool>)
    requires |xs| == 1 && |path| == |d| == Log2(1)
    requires Fold(keccak, leaf, path, d) == Root(keccak, xs)
    ensures Position(d) == 0 && leaf == xs[0] && path == Path(keccak, xs, 0)
  {
  }

  /** One level down: the pair under an established node holds the leaf and its sibling. */
  lemma LeafBelow(keccak: Hash, xs: seq<bytes>, leaf: bytes, sibling: bytes, right: bool, j: nat)
    requires PowerOfTwo(|xs|) && |xs| > 1 && j < |xs| / 2
    requires |xs[2 * j]| == |xs[2 * j + 1]| == |leaf| == DigestSize
    requires keccak(Joined(leaf, sibling, right)) == Level(keccak, xs)[j]
    requires NoCollision(keccak, {Joined(leaf, sibling, right)}, Built(keccak, xs))
    ensures var pos := (if right then 0 else 1) + 2 * j;
            pos < |xs| && Sibling(pos) < |xs| && leaf == xs[pos] && sibling == xs[Sibling(pos)]
  {
    hide *;
    var l, r := xs[2 * j], xs[2 * j + 1];
    JoinedIsPair(keccak, xs, Joined(leaf, sibling, right), j);
    OneLevel(keccak, xs);
    SplitJoined(leaf, sibling, right, l, r);
    SiblingOf(j);
  }

  lemma SiblingOf(j: nat)
    ensures Sibling(2 * j) == 2 * j + 1 && Sibling(2 * j + 1) == 2 * j
  {
  }

  lemma PathBelow(keccak: Hash, xs: seq<bytes>, path: seq<bytes>, pos: nat)
    requires PowerOfTwo(|xs|) && |xs| > 1 && pos < |xs| && PowerOfTwo(|xs| / 2) && Sibling(pos) < |xs|
    requires path != [] && path[0] == xs[Sibling(pos)] && path[1..] == Path(keccak, Level(keccak, xs), pos / 2)
    ensures path == Path(keccak, xs, pos)
  {
    PathUnfold(keccak, xs, pos);
    hide Path, Level, PowerOfTwo, Log2, Sibling;
    assert path == [path[0]] + path[1..];
  }

  lemma Halves(n: nat, i: nat)
    requires PowerOfTwo(n) && n > 1 && i < n
    ensures n % 2 == 0 && PowerOfTwo(n / 2) && i / 2 < n / 2 && Sibling(i) < n
  {
  }

  lemma PathUnfold(keccak: Hash, xs: seq<bytes>, i: nat)
    requires PowerOfTwo(|xs|) && |xs| > 1 && i < |xs| && PowerOfTwo(|xs| / 2) && Sibling(i) < |xs|
    ensures Path(keccak, xs, i) == [xs[Sibling(i)]] + Path(keccak, Level(keccak, xs), i / 2)
  {
  }

  ghost predicate AllDigests(xs: seq<bytes>) {
    forall i | 0 <= i < |xs| :: |xs[i]| == DigestSize
  }

  lemma LevelDigests(keccak: Hash, xs: seq<bytes>, s: bytes)
    requires Digests(keccak)
    ensures AllDigests(Level(keccak, xs)) && |keccak(s)| == DigestSize
  {
  }

  lemma PairDigests(xs: seq<bytes>, j: nat)
    requires AllDigests(xs) && j < |xs| / 2
    ensures |xs[2 * j]| == |xs[2 * j + 1]| == DigestSize
  {
  }

  lemma FewerCollisions(keccak: Hash, a: set<bytes>, b: set<bytes>, a': set<bytes>, b': set<bytes>)
    requires NoCollision(keccak, a, b) && a' <= a && b' <= b
    ensures NoCollision(keccak, a', b')
  {
  }

  lemma CollisionsBelow(keccak: Hash, xs: seq<bytes>, leaf: bytes, path: seq<bytes>, d: seq<bool>)
    requires PowerOfTwo(|xs|) && |xs| > 1 && PowerOfTwo(|xs| / 2) && path != [] && |path| <= |d|
    requires NoCollision(keccak, Checked(keccak, leaf, path, d), Built(keccak, xs))
    ensures var s := Joined(leaf, path[0], d[0]);
            && NoCollision(keccak, Checked(keccak, keccak(s), path[1..], d[1..]), Built(keccak, Level(keccak, xs)))
            && NoCollision(keccak, {s}, Built(keccak, xs))
  {
    hide *;
    var s := Joined(leaf, path[0], d[0]);
    OneLevel(keccak, xs);
    OneCheck(keccak, leaf, path, d);
    var checked, built := Checked(keccak, leaf, path, d), Built(keccak, xs);
    FewerCollisions(keccak, checked, built, Checked(keccak, keccak(s), path[1..], d[1..]), Built(keccak, Level(keccak, xs)));
    FewerCollisions(keccak, checked, built, {s}, built);
  }

  lemma JoinedIsPair(keccak: Hash, xs: seq<bytes>, s: bytes, j: nat)
    requires PowerOfTwo(|xs|) && |xs| > 1 && j < |xs| / 2 && keccak(s) == Level(keccak, xs)[j]
    requires NoCollision(keccak, {s}, Built(keccak, xs))
    ensures s == xs[2 * j] + xs[2 * j + 1]
  {
    hide *;
    OneLevel(keccak, xs);
    var t := xs[2 * j] + xs[2 * j + 1];
    PairIn(keccak, xs, j);
    Collide(keccak, {s}, Built(keccak, xs), s, t);
  }

  lemma PairIn(keccak: Hash, xs: seq<bytes>, j: nat)
    requires j < |xs| / 2
    ensures xs[2 * j] + xs[2 * j + 1] in Pairs(xs)
    ensures Level(keccak, xs)[j] == keccak(xs[2 * j] + xs[2 * j + 1])
  {
  }

  lemma Collide(keccak: Hash, a: set<bytes>, b: set<bytes>, s: bytes, t: bytes)
    requires NoCollision(keccak, a, b) && s in a && t in b && keccak(s) == keccak(t)
    ensures s == t
  {
  }

  lemma SplitJoined(leaf: bytes, sibling: bytes, right: bool, l: bytes, r: bytes)
    requires |leaf| == |l| == |r| == DigestSize && Joined(leaf, sibling, right) == l + r
    ensures right ==> leaf == l && sibling == r
    ensures !right ==> leaf == r && sibling == l
  {
    if right {
      assert leaf == (leaf + sibling)[..DigestSize] == l;
      assert sibling == (leaf + sibling)[DigestSize..] == r;
    } else {
      assert |sibling| == DigestSize;
      assert sibling == (sibling + leaf)[..DigestSize] == l;
      assert leaf == (sibling + leaf)[DigestSize..] == r;
    }
  }

  // ---------- padding ----------

  /** The smallest n * 2^k that is at least len. */
  function PadSize(len: nat, n: nat): (size: nat)
    requires PowerOfTwo(n)
    ensures PowerOfTwo(size) && size >= len
    decreases if n < len then len - n else 0
  {
    if n >= len then n
    else
      assert 2 * n / 2 == n;
      PadSize(len, 2 * n)
  }

  /** The padding is the least that will do. */
  lemma {:induction false} PadMinimal(len: nat, n: nat)
    requires PowerOfTwo(n) && 0 < len && n < 2 * len
    ensures PadSize(len, n) < 2 * len
    decreases if n < len then len - n else 0
  {
    if n < len {
      assert 2 * n / 2 == n;
      PadMinimal(len, 2 * n);
    }
  }

  function Padded(keccak: Hash, leaves: seq<bytes>): (xs: seq<bytes>)
    ensures PowerOfTwo(|xs|) && |xs| >= |leaves| && leaves == xs[..|leaves|]
    ensures forall i | |leaves| <= i < |xs| :: xs[i] == keccak([])
  {
    leaves + seq(PadSize(|leaves|, 1) - |leaves|, _ => keccak([]))
  }

  lemma PaddedSize(keccak: Hash, leaves: seq<bytes>)
    requires leaves != []
    ensures |Padded(keccak, leaves)| < 2 * |leaves|
  {
    PadMinimal(|leaves|, 1);
  }

  // ---------- the builder and the checker ----------

  /** Pads the leaves, then climbs level by level, noting the sibling of the tracked index. */
  method ComputeMerkleProof(keccak: Hash, leaves: seq<bytes>, index: nat)
    returns (root: bytes, path: seq<bytes>, directions: seq<bool>)
    requires leaves != [] ==> index < |leaves|
    ensures leaves == [] ==> root == [] && path == [] && directions == []
    ensures leaves != [] ==>
              var xs := Padded(keccak, leaves);
              && root == Root(keccak, xs) && path == Path(keccak, xs, index)
              && directions == Directions(index, Log2(|xs|)) && |xs| < 2 * |leaves|
              && forall k | 0 <= k < |directions| :: directions[k] <==> index / Pow2(k) % 2 == 0
  {
    hide *;
    if leaves == [] { return [], [], []; }
    var level := PadLeaves(keccak, leaves);
    ghost var xs := level;
    var current: nat := index;
    path, directions := [], [];
    while |level| > 1
      invariant PowerOfTwo(|level|) && current < |level|
      invariant Root(keccak, level) == Root(keccak, xs)
      invariant path + Path(keccak, level, current) == Path(keccak, xs, index)
      invariant directions + Directions(current, Log2(|level|)) == Directions(index, Log2(|xs|))
      decreases |level|
    {
      Halves(|level|, current);
      OneLevel(keccak, level);
      PathUnfold(keccak, level, current);
      DirectionsUnfold(current, Log2(|level|));
      var next, siblings, sides := HashLevel(keccak, level, current);
      Regroup(directions, sides, Directions(current / 2, Log2(|next|)));
      Regroup(path, siblings, Path(keccak, next, current / 2));
      path, directions := path + siblings, directions + sides;
      level := next;
      current := current / 2;
    }
    assert |level| == 1 by { PowerIsPositive(|level|); }
    TopLevel(keccak, level);
    root := level[0];
    PaddedSize(keccak, leaves);
    forall k | 0 <= k < |directions| ensures directions[k] <==> index / Pow2(k) % 2 == 0 {
      DirectionAt(index, Log2(|xs|), k);
    }
  }

  lemma Regroup<T>(a: seq<T>, b: seq<T>, c: seq<T>)
    ensures a + (b + c) == a + b + c
  {
  }

  lemma PowerIsPositive(n: nat)
    requires PowerOfTwo(n)
    ensures n >= 1
  {
  }

  lemma TopLevel(keccak: Hash, xs: seq<bytes>)
    requires |xs| == 1 && PowerOfTwo(1)
    ensures Root(keccak, xs) == xs[0] && Path(keccak, xs, 0) == [] && Directions(0, Log2(1)) == []
  {
  }

  /** One level: hashes the pairs and notes the sibling of the tracked slot. */
  method HashLevel(keccak: Hash, level: seq<bytes>, current: nat)
    returns (next: seq<bytes>, siblings: seq<bytes>, sides: seq<bool>)
    requires |level| % 2 == 0 && current < |level|
    ensures next == Level(keccak, level)
    ensures Sibling(current) < |level| && siblings == [level[Sibling(current)]] && sides == [current % 2 == 0]
  {
    next, siblings, sides := [], [], [];
    var i := 0;
    while i < |level|
      invariant 0 <= i <= |level| && i % 2 == 0 && next == Level(keccak, level)[..i / 2]
      invariant if i <= current then siblings == [] && sides == []
                else Sibling(current) < |level| && siblings == [level[Sibling(current)]] && sides == [current % 2 == 0]
    {
      var left, right := level[i], level[i + 1];
      if i == current || i + 1 == current {
        if current % 2 == 0 {
          siblings, sides := siblings + [right], sides + [true];
        } else {
          siblings, sides := siblings + [left], sides + [false];
        }
      }
      assert Level(keccak, level)[i / 2] == keccak(left + right);
      next := next + [keccak(left + right)];
      i := i + 2;
    }
  }

  method PadLeaves(keccak: Hash, leaves: seq<bytes>) returns (xs: seq<bytes>)
    ensures xs == Padded(keccak, leaves)
  {
    var n := 1;
    while n < |leaves|
      invariant PowerOfTwo(n) && PadSize(|leaves|, n) == PadSize(|leaves|, 1)
      decreases |leaves| - n
    {
      assert 2 * n / 2 == n;
      n := n * 2;
    }
    xs := leaves;
    while |xs| < n
      invariant |leaves| <= |xs| <= n && xs == leaves + seq(|xs| - |leaves|, _ => keccak([]))
    {
      xs := xs + [keccak([])];
    }
  }

  /** Accepts exactly when the running digest ends at the root; with too few directions the code
      panics, which is None here. */
  method VerifyMerkleProof(keccak: Hash, leaf: bytes, root: bytes, path: seq<bytes>, directions: seq<bool>)
    returns (r: Option<bool>)
    ensures r == if |path| <= |directions| then Some(Fold(keccak, leaf, path, directions) == root) else None
  {
    var current := leaf;
    for i := 0 to |path|
      invariant i <= |directions|
      invariant |path| <= |directions| ==> Fold(keccak, current, path[i..], directions[i..]) == Fold(keccak, leaf, path, directions)
    {
      if i == |directions| { return None; }
      if directions[i] {
        current := keccak(current + path[i]);
      } else {
        current := keccak(path[i] + current);
      }
      assert path[i..][1..] == path[i + 1..] && directions[i..][1..] == directions[i + 1..];
    }
    if |current| != |root| { return Some(false); }
    for i := 0 to |current|
      invariant current[..i] == root[..i]
    {
      if current[i] != root[i] { return Some(false); }
    }
    assert current[..|current|] == current && root[..|root|] == root;
    r := Some(true);
  }
}
