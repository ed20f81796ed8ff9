/**
 Membership proofs of identity/disclosure.go and the elements that have one. The checker looks at no
 length, so besides the leaves of the tree it accepts inner nodes, by shorter proofs, and strings
 whose digest is embedded in a member, by longer ones.
 */
module Membership {
  import opened Bytes
  import opened Common
  import opened Merkle

  function LeafHashes(keccak: Hash, members: seq<bytes>): (xs: seq<bytes>)
    ensures |xs| == |members| && forall i | 0 <= i < |xs| :: xs[i] == keccak(members[i])
  {
    seq(|members|, i requires 0 <= i < |members| => keccak(members[i]))
  }

  datatype MembershipProof = MembershipProof(root: bytes, path: seq<bytes>, directions: seq<bool>)

  /** Finds the element, or reports that it is not in the set; the proof it builds is one the
      checker accepts. */
  method CreateMembershipProof(keccak: Hash, element: bytes, members: seq<bytes>)
    returns (r: Result<MembershipProof, string>)
    ensures r.Err? <==> element !in members
    ensures r.Ok? ==>
              var xs, p := Padded(keccak, LeafHashes(keccak, members)), r.value;
              && p.root == Root(keccak, xs) && |p.path| == |p.directions| == Log2(|xs|)
              && Fold(keccak, keccak(element), p.path, p.directions) == p.root
              && exists i | 0 <= i < |members| ::
                   && members[i] == element && element !in members[..i]
                   && p.path == Path(keccak, xs, i) && p.directions == Directions(i, Log2(|xs|))
  {
    var index := 0;
    while index < |members| && members[index] != element
      invariant 0 <= index <= |members| && element !in members[..index]
    {
      index := index + 1;
    }
    if index == |members| {
      assert members[..index] == members;
      return Err("element not in set");
    }
    var leaves := LeafHashes(keccak, members);
    var root, path, directions := ComputeMerkleProof(keccak, leaves, index);
    PathLeadsToRoot(keccak, Padded(keccak, leaves), index);
    r := Ok(MembershipProof(root, path, directions));
  }

  // ---------- which elements have an accepted proof ----------

  function Tree(keccak: Hash, members: seq<bytes>): (xs: seq<bytes>)
    ensures PowerOfTwo(|xs|) && |xs| >= |members|
    ensures forall i | 0 <= i < |xs| :: xs[i] == keccak(if i < |members| then members[i] else [])
  {
    Padded(keccak, LeafHashes(keccak, members))
  }

  /** The checker accepts this proof for element. */
  predicate Accepts(keccak: Hash, members: seq<bytes>, element: bytes, path: seq<bytes>, d: seq<bool>) {
    |path| <= |d| && Fold(keccak, keccak(element), path, d) == Root(keccak, Tree(keccak, members))
  }

  /** All strings hashed to build the tree. */
  function Hashed(keccak: Hash, members: seq<bytes>): set<bytes> {
    Built(keccak, Tree(keccak, members)) + (set e | e in members) + {[]}
  }

  /** No collision between what is hashed for this proof and what the builder hashed. */
  ghost predicate Honest(keccak: Hash, members: seq<bytes>, element: bytes, path: seq<bytes>, d: seq<bool>)
    requires |path| <= |d|
  {
    NoCollision(keccak, Checked(keccak, keccak(element), path, d) + {element}, Hashed(keccak, members))
  }

  /** The levels of the tree, the leaves being level 0. */
  function Climb(keccak: Hash, xs: seq<bytes>, m: nat): (ys: seq<bytes>)
    requires PowerOfTwo(|xs|) && m <= Log2(|xs|)
    ensures PowerOfTwo(|ys|) && Log2(|ys|) == Log2(|xs|) - m
    decreases m
  {
    if m == 0 then xs
    else
      OneLevel(keccak, xs);
      Climb(keccak, Level(keccak, xs), m - 1)
  }

  /** Every level has the same root, and hashing from it on is part of building the tree. */
  lemma {:induction false} ClimbKeeps(keccak: Hash, xs: seq<bytes>, m: nat)
    requires PowerOfTwo(|xs|) && m <= Log2(|xs|) && Digests(keccak) && AllDigests(xs)
    ensures Root(keccak, Climb(keccak, xs, m)) == Root(keccak, xs)
    ensures Built(keccak, Climb(keccak, xs, m)) <= Built(keccak, xs)
    ensures AllDigests(Climb(keccak, xs, m))
    decreases m
  {
    hide Root, Built, Level, AllDigests, Digests, PowerOfTwo, Log2;
    if m > 0 {
      NotSingle(|xs|);
      OneLevel(keccak, xs);
      LevelDigests(keccak, xs, []);
      ClimbKeeps(keccak, Level(keccak, xs), m - 1);
    }
  }

  lemma NotSingle(n: nat)
    requires Log2(n) > 0
    ensures n > 1
  {
  }

  /** A node above the leaves is the hash of a pair below it. */
  lemma {:induction false} NodeIsBuilt(keccak: Hash, xs: seq<bytes>, m: nat, j: nat) returns (s: bytes)
    requires PowerOfTwo(|xs|) && 0 < m <= Log2(|xs|) && j < |Climb(keccak, xs, m)|
    ensures s in Built(keccak, xs) && keccak(s) == Climb(keccak, xs, m)[j]
    decreases m
  {
    hide Root, Built, Level, Pairs, PowerOfTwo, Log2;
    NotSingle(|xs|);
    OneLevel(keccak, xs);
    if m == 1 {
      PairIn(keccak, xs, j);
      s := xs[2 * j] + xs[2 * j + 1];
    } else {
      s := NodeIsBuilt(keccak, Level(keccak, xs), m - 1, j);
    }
  }

  /** And every string that was hashed sits as a node above the leaves. */
  lemma {:induction false} BuiltIsNode(keccak: Hash, xs: seq<bytes>, s: bytes) returns (m: nat, j: nat)
    requires PowerOfTwo(|xs|) && s in Built(keccak, xs)
    ensures 0 < m <= Log2(|xs|) && j < |Climb(keccak, xs, m)| && Climb(keccak, xs, m)[j] == keccak(s)
    decreases |xs|
  {
    NothingBuilt(keccak, xs);
    OneLevel(keccak, xs);
    hide Root, Built, Level, PowerOfTwo, Log2;
    if s in Pairs(xs) {
      j :| 0 <= j < |xs| / 2 && xs[2 * j] + xs[2 * j + 1] == s;
      m := 1;
      PairIn(keccak, xs, j);
    } else {
      m, j := BuiltIsNode(keccak, Level(keccak, xs), s);
      m := m + 1;
    }
  }

  lemma NothingBuilt(keccak: Hash, xs: seq<bytes>)
    requires PowerOfTwo(|xs|) && Built(keccak, xs) != {}
    ensures |xs| > 1
  {
  }

  /** Unless strings collide, an accepted proof of any length up to the height of the tree has the
      very node its directions point at, that many steps below the root, and the very path of it. */
  lemma AcceptedIsNode(keccak: Hash, xs: seq<bytes>, leaf: bytes, path: seq<bytes>, d: seq<bool>)
    requires Digests(keccak) && PowerOfTwo(|xs|) && AllDigests(xs)
    requires |leaf| == DigestSize && |path| == |d| <= Log2(|xs|)
    requires NoCollision(keccak, Checked(keccak, leaf, path, d), Built(keccak, xs))
    requires Fold(keccak, leaf, path, d) == Root(keccak, xs)
    ensures var ys := Climb(keccak, xs, Log2(|xs|) - |d|);
            Position(d) < |ys| && leaf == ys[Position(d)] && path == Path(keccak, ys, Position(d))
  {
    hide *;
    var m := Log2(|xs|) - |d|;
    var ys := Climb(keccak, xs, m);
    ClimbKeeps(keccak, xs, m);
    var checked := Checked(keccak, leaf, path, d);
    FewerCollisions(keccak, checked, Built(keccak, xs), checked, Built(keccak, ys));
    AcceptedIsLeaf(keccak, ys, leaf, path, d);
  }

  // ---------- proofs of any length ----------

  /** Directions beyond the path are not looked at. */
  lemma {:induction false} SpareDirections(keccak: Hash, leaf: bytes, path: seq<bytes>, d: seq<bool>)
    requires |path| <= |d|
    ensures Fold(keccak, leaf, path, d[..|path|]) == Fold(keccak, leaf, path, d)
    ensures Checked(keccak, leaf, path, d[..|path|]) == Checked(keccak, leaf, path, d)
    decreases |path|
  {
    if path != [] {
      var s := Joined(leaf, path[0], d[0]);
      SpareDirections(keccak, keccak(s), path[1..], d[1..]);
      assert d[..|path|][1..] == d[1..][..|path[1..]|];
    }
  }

  /** The checker's work in two halves. */
  lemma {:induction false} FoldSplit(keccak: Hash, leaf: bytes, path: seq<bytes>, d: seq<bool>, k: nat)
    requires k <= |path| == |d|
    ensures Fold(keccak, leaf, path, d) == Fold(keccak, Fold(keccak, leaf, path[..k], d[..k]), path[k..], d[k..])
    ensures Checked(keccak, leaf, path, d)
         == Checked(keccak, leaf, path[..k], d[..k]) + Checked(keccak, Fold(keccak, leaf, path[..k], d[..k]), path[k..], d[k..])
    decreases k
  {
    if k == 0 {
      assert path[0..] == path && d[0..] == d;
    } else {
      hide Joined, Fold, Checked;
      OneCheck(keccak, leaf, path, d);
      OneCheck(keccak, leaf, path[..k], d[..k]);
      var s := Joined(leaf, path[0], d[0]);
      FoldSplit(keccak, keccak(s), path[1..], d[1..], k - 1);
      assert path[..k][1..] == path[1..][..k - 1] && d[..k][1..] == d[1..][..k - 1];
      assert path[k..] == path[1..][k - 1..] && d[k..] == d[1..][k - 1..];
    }
  }

  /** Some member begins or ends with a digest that a proof for element leads to. */
  ghost predicate Embedded(keccak: Hash, members: seq<bytes>, element: bytes) {
    exists e, path, d, sibling, right | e in members && |path| <= |d| ::
      e == Joined(Fold(keccak, keccak(element), path, d), sibling, right)
  }

  lemma TreeDigests(keccak: Hash, members: seq<bytes>)
    requires Digests(keccak)
    ensures AllDigests(Tree(keccak, members))
  {
    hide Tree;
  }

  lemma {:induction false} FoldIsDigest(keccak: Hash, leaf: bytes, path: seq<bytes>, d: seq<bool>)
    requires Digests(keccak) && |path| <= |d| && |leaf| == DigestSize
    ensures |Fold(keccak, leaf, path, d)| == DigestSize
    decreases |path|
  {
    if path != [] {
      FoldIsDigest(keccak, keccak(Joined(leaf, path[0], d[0])), path[1..], d[1..]);
    }
  }

  /** A leaf of the tree is the hash of a member, or of the empty string beyond them. */
  lemma LeafStrings(keccak: Hash, members: seq<bytes>, i: nat)
    requires i < |Tree(keccak, members)|
    ensures var e := if i < |members| then members[i] else [];
            Tree(keccak, members)[i] == keccak(e) && e in Hashed(keccak, members)
  {
    hide Tree, Built;
    if i < |members| { assert members[i] in members; }
  }

  /** What an accepted proof of at most full height shows. */
  lemma ShortProof(keccak: Hash, members: seq<bytes>, element: bytes, path: seq<bytes>, d: seq<bool>)
    requires Digests(keccak) && Accepts(keccak, members, element, path, d) && |path| == |d| <= Log2(|Tree(keccak, members)|)
    requires Honest(keccak, members, element, path, d)
    ensures |d| == Log2(|Tree(keccak, members)|) ==>
              element in members || (element == [] && |Tree(keccak, members)| > |members|)
    ensures |d| < Log2(|Tree(keccak, members)|) ==> element in Built(keccak, Tree(keccak, members))
  {
    hide *;
    var xs := Tree(keccak, members);
    ProofParts(keccak, members, element, path, d);
    TreeDigests(keccak, members);
    AcceptedIsNode(keccak, xs, keccak(element), path, d);
    var m, j := Log2(|xs|) - |d|, Position(d);
    if m > 0 {
      var s := NodeIsBuilt(keccak, xs, m, j);
      Collide(keccak, {element}, Built(keccak, xs), element, s);
    } else {
      GroundLevel(keccak, xs);
      LeafStrings(keccak, members, j);
      var e := if j < |members| then members[j] else [];
      Collide(keccak, {element}, Hashed(keccak, members), element, e);
    }
  }

  lemma GroundLevel(keccak: Hash, xs: seq<bytes>)
    requires PowerOfTwo(|xs|)
    ensures Climb(keccak, xs, 0) == xs
  {
  }

  lemma ProofParts(keccak: Hash, members: seq<bytes>, element: bytes, path: seq<bytes>, d: seq<bool>)
    requires Digests(keccak) && Accepts(keccak, members, element, path, d) && Honest(keccak, members, element, path, d)
    ensures |path| <= |d| && Fold(keccak, keccak(element), path, d) == Root(keccak, Tree(keccak, members))
    ensures |keccak(element)| == DigestSize
    ensures NoCollision(keccak, Checked(keccak, keccak(element), path, d), Built(keccak, Tree(keccak, members)))
    ensures NoCollision(keccak, Checked(keccak, keccak(element), path, d), Hashed(keccak, members))
    ensures NoCollision(keccak, {element}, Built(keccak, Tree(keccak, members)))
    ensures NoCollision(keccak, {element}, Hashed(keccak, members))
  {
    hide Tree, Built, Checked, Fold, NoCollision, Root;
    var c, h := Checked(keccak, keccak(element), path, d), Hashed(keccak, members);
    var b := Built(keccak, Tree(keccak, members));
    FewerCollisions(keccak, c + {element}, h, c, b);
    FewerCollisions(keccak, c + {element}, h, c, h);
    FewerCollisions(keccak, c + {element}, h, {element}, b);
    FewerCollisions(keccak, c + {element}, h, {element}, h);
  }

  /** The last of the first k steps. */
  lemma LastStep(keccak: Hash, leaf: bytes, path: seq<bytes>, d: seq<bool>, k: nat)
    requires 0 < k <= |path| == |d|
    ensures var s := Joined(Fold(keccak, leaf, path[..k - 1], d[..k - 1]), path[k - 1], d[k - 1]);
            Fold(keccak, leaf, path[..k], d[..k]) == keccak(s) && s in Checked(keccak, leaf, path, d)
  {
    hide Joined, Fold, Checked;
    FoldSplit(keccak, leaf, path, d, k);
    FoldSplit(keccak, leaf, path[..k], d[..k], k - 1);
    var before := Fold(keccak, leaf, path[..k - 1], d[..k - 1]);
    assert path[..k][..k - 1] == path[..k - 1] && d[..k][..k - 1] == d[..k - 1];
    assert path[..k][k - 1..] == [path[k - 1]] && d[..k][k - 1..] == [d[k - 1]];
    OneStep(keccak, before, path[k - 1], d[k - 1]);
  }

  lemma OneStep(keccak: Hash, leaf: bytes, sibling: bytes, right: bool)
    ensures var s := Joined(leaf, sibling, right);
            Fold(keccak, leaf, [sibling], [right]) == keccak(s) && Checked(keccak, leaf, [sibling], [right]) == {s}
  {
    hide Joined;
    OneCheck(keccak, leaf, [sibling], [right]);
    assert [sibling][1..] == [] && [right][1..] == [];
  }

  /** What an accepted proof longer than the tree is high shows. */
  lemma LongProof(keccak: Hash, members: seq<bytes>, element: bytes, path: seq<bytes>, d: seq<bool>)
    requires Digests(keccak) && Accepts(keccak, members, element, path, d) && |path| == |d| > Log2(|Tree(keccak, members)|)
    requires Honest(keccak, members, element, path, d)
    ensures Embedded(keccak, members, element)
  {
    hide *;
    var xs := Tree(keccak, members);
    var leaf, k := keccak(element), |d| - Log2(|xs|);
    ProofParts(keccak, members, element, path, d);
    TreeDigests(keccak, members);
    FoldSplit(keccak, leaf, path, d, k);
    FoldIsDigest(keccak, leaf, path[..k], d[..k]);
    FoldIsDigest(keccak, leaf, path[..k - 1], d[..k - 1]);
    var node := Fold(keccak, leaf, path[..k], d[..k]);
    var all, later := Checked(keccak, leaf, path, d), Checked(keccak, node, path[k..], d[k..]);
    FewerCollisions(keccak, all, Built(keccak, xs), later, Built(keccak, xs));
    AcceptedIsNode(keccak, xs, node, path[k..], d[k..]);
    GroundLevel(keccak, xs);
    var j := Position(d[k..]);
    LeafStrings(keccak, members, j);
    LastStep(keccak, leaf, path, d, k);
    var before := Fold(keccak, leaf, path[..k - 1], d[..k - 1]);
    var s, e := Joined(before, path[k - 1], d[k - 1]), if j < |members| then members[j] else [];
    Collide(keccak, all, Hashed(keccak, members), s, e);
    JoinedNotEmpty(before, path[k - 1], d[k - 1]);
    assert e in members;
    Embeds(keccak, members, element, e, path[..k - 1], d[..k - 1], path[k - 1], d[k - 1]);
  }

  lemma JoinedNotEmpty(leaf: bytes, sibling: bytes, right: bool)
    requires |leaf| == DigestSize
    ensures Joined(leaf, sibling, right) != []
  {
  }

  lemma Embeds(keccak: Hash, members: seq<bytes>, element: bytes, e: bytes, path: seq<bytes>, d: seq<bool>, sibling: bytes, right: bool)
    requires e in members && |path| <= |d| && e == Joined(Fold(keccak, keccak(element), path, d), sibling, right)
    ensures Embedded(keccak, members, element)
  {
    hide Fold, Joined;
  }

  /** A proof for a node of the tree. */
  lemma NodeAccepted(keccak: Hash, members: seq<bytes>, element: bytes, m: nat, j: nat) returns (path: seq<bytes>, d: seq<bool>)
    requires Digests(keccak) && m <= Log2(|Tree(keccak, members)|) && j < |Climb(keccak, Tree(keccak, members), m)|
    requires keccak(element) == Climb(keccak, Tree(keccak, members), m)[j]
    ensures Accepts(keccak, members, element, path, d) && |path| == |d| == Log2(|Tree(keccak, members)|) - m
  {
    var xs := Tree(keccak, members);
    var ys := Climb(keccak, xs, m);
    path, d := Path(keccak, ys, j), Directions(j, Log2(|ys|));
    hide Tree, Climb, Root, Fold, Path, Directions, Log2, PowerOfTwo, AllDigests, Digests;
    TreeDigests(keccak, members);
    ClimbKeeps(keccak, xs, m);
    PathLeadsToRoot(keccak, ys, j);
  }

  /** A proof that goes through a member's own bytes. */
  lemma EmbeddedAccepted(keccak: Hash, members: seq<bytes>, element: bytes, i: nat, path: seq<bytes>, d: seq<bool>,
                         sibling: bytes, right: bool) returns (path': seq<bytes>, d': seq<bool>)
    requires Digests(keccak) && i < |members| && |path| <= |d|
    requires members[i] == Joined(Fold(keccak, keccak(element), path, d), sibling, right)
    ensures Accepts(keccak, members, element, path', d')
  {
    hide *;
    var leaf, k := keccak(element), |path|;
    LeafStrings(keccak, members, i);
    GroundLevel(keccak, Tree(keccak, members));
    var up, du := NodeAccepted(keccak, members, members[i], 0, i);
    AcceptsIs(keccak, members, members[i], up, du);
    SpareDirections(keccak, leaf, path, d);
    path', d' := path + [sibling] + up, d[..k] + [right] + du;
    FoldSplit(keccak, leaf, path', d', k + 1);
    LastStep(keccak, leaf, path', d', k + 1);
    assert path'[..k] == path && d'[..k] == d[..k] && path'[k + 1..] == up && d'[k + 1..] == du;
    AcceptsIs(keccak, members, element, path', d');
  }

  lemma AcceptsIs(keccak: Hash, members: seq<bytes>, element: bytes, path: seq<bytes>, d: seq<bool>)
    ensures Accepts(keccak, members, element, path, d) <==>
              |path| <= |d| && Fold(keccak, keccak(element), path, d) == Root(keccak, Tree(keccak, members))
  {
  }

  /** Who has an accepted proof, of whatever length the checker is given: the members; the empty
      string as soon as the number of members is not a power of two, because the padding leaves are
      hashes of it; the concatenation of any two neighbouring nodes of the tree, by a shorter proof;
      and, by a longer one, whatever folds to a digest that some member begins or ends with. */
  lemma ProvableIff(keccak: Hash, members: seq<bytes>, element: bytes)
    requires Digests(keccak) && members != []
    requires forall path, d | Accepts(keccak, members, element, path, d) :: Honest(keccak, members, element, path, d)
    ensures (exists path, d :: Accepts(keccak, members, element, path, d))
       <==> || element in members || (element == [] && !PowerOfTwo(|members|))
            || element in Built(keccak, Tree(keccak, members)) || Embedded(keccak, members, element)
  {
    hide *;
    PaddedIff(keccak, members);
    forall path, d | Accepts(keccak, members, element, path, d)
      ensures || element in members || (element == [] && !PowerOfTwo(|members|))
              || element in Built(keccak, Tree(keccak, members)) || Embedded(keccak, members, element)
    {
      ProofShows(keccak, members, element, path, d);
    }
    if element in members || (element == [] && !PowerOfTwo(|members|)) {
      var i := LeafOf(keccak, members, element);
      GroundLevel(keccak, Tree(keccak, members));
      var path, d := NodeAccepted(keccak, members, element, 0, i);
    } else if element in Built(keccak, Tree(keccak, members)) {
      var m, j := BuiltIsNode(keccak, Tree(keccak, members), element);
      var path, d := NodeAccepted(keccak, members, element, m, j);
    } else if Embedded(keccak, members, element) {
      var path, d := EmbeddedProof(keccak, members, element);
    }
  }

  lemma EmbeddedProof(keccak: Hash, members: seq<bytes>, element: bytes) returns (path: seq<bytes>, d: seq<bool>)
    requires Digests(keccak) && Embedded(keccak, members, element)
    ensures Accepts(keccak, members, element, path, d)
  {
    var e, p, q, sibling, right :| e in members && |p| <= |q| && e == Joined(Fold(keccak, keccak(element), p, q), sibling, right);
    hide *;
    var i :| 0 <= i < |members| && members[i] == e;
    path, d := EmbeddedAccepted(keccak, members, element, i, p, q, sibling, right);
  }

  lemma LeafOf(keccak: Hash, members: seq<bytes>, element: bytes) returns (i: nat)
    requires element in members || (element == [] && |Tree(keccak, members)| > |members|)
    ensures i < |Tree(keccak, members)| && Tree(keccak, members)[i] == keccak(element)
  {
    hide Tree;
    if element in members {
      i :| i < |members| && members[i] == element;
    } else {
      i := |members|;
    }
  }

  lemma {:induction false} PowersAreApart(n: nat, m: nat)
    requires PowerOfTwo(n) && PowerOfTwo(m) && n < m
    ensures 2 * n <= m
    decreases n
  {
    if n > 1 { PowersAreApart(n / 2, m / 2); }
  }

  /** Padding adds nothing exactly when the length is a power of two. */
  lemma {:induction false} PadExact(len: nat, n: nat)
    requires PowerOfTwo(n) && n <= len
    ensures PadSize(len, n) == len <==> PowerOfTwo(len)
    decreases len - n
  {
    if n < len {
      assert 2 * n / 2 == n;
      if 2 * n <= len {
        PadExact(len, 2 * n);
      } else if PowerOfTwo(len) {
        PowersAreApart(n, len);
      }
    }
  }

  lemma PaddedIff(keccak: Hash, members: seq<bytes>)
    requires members != []
    ensures |Tree(keccak, members)| > |members| <==> !PowerOfTwo(|members|)
  {
    PadExact(|members|, 1);
  }

  lemma ProofShows(keccak: Hash, members: seq<bytes>, element: bytes, path: seq<bytes>, d: seq<bool>)
    requires Digests(keccak) && members != [] && Accepts(keccak, members, element, path, d) && Honest(keccak, members, element, path, d)
    ensures || element in members || (element == [] && |Tree(keccak, members)| > |members|)
            || element in Built(keccak, Tree(keccak, members)) || Embedded(keccak, members, element)
  {
    Trimmed(keccak, members, element, path, d);
    hide *;
    var d' := d[..|path|];
    if |path| <= Log2(|Tree(keccak, members)|) {
      ShortProof(keccak, members, element, path, d');
    } else {
      LongProof(keccak, members, element, path, d');
    }
  }

  lemma Trimmed(keccak: Hash, members: seq<bytes>, element: bytes, path: seq<bytes>, d: seq<bool>)
    requires Accepts(keccak, members, element, path, d) && Honest(keccak, members, element, path, d)
    ensures |path| <= |d| && Accepts(keccak, members, element, path, d[..|path|]) && Honest(keccak, members, element, path, d[..|path|])
  {
    SpareDirections(keccak, keccak(element), path, d);
    hide Fold, Checked, Tree, Root, NoCollision, Hashed;
  }

  /** A checker that also insisted on the length would leave only the first two. */
  lemma FullLengthProvableIff(keccak: Hash, members: seq<bytes>, element: bytes)
    requires Digests(keccak) && members != []
    requires forall path, d | Accepts(keccak, members, element, path, d) :: Honest(keccak, members, element, path, d)
    ensures (exists path, d :: Accepts(keccak, members, element, path, d) && |path| == |d| == Log2(|Tree(keccak, members)|))
       <==> element in members || (element == [] && !PowerOfTwo(|members|))
  {
    hide *;
    PaddedIff(keccak, members);
    forall path, d | Accepts(keccak, members, element, path, d) && |path| == |d| == Log2(|Tree(keccak, members)|)
      ensures element in members || (element == [] && !PowerOfTwo(|members|))
    {
      ShortProof(keccak, members, element, path, d);
    }
    if element in members || (element == [] && !PowerOfTwo(|members|)) {
      var i := LeafOf(keccak, members, element);
      GroundLevel(keccak, Tree(keccak, members));
      var path, d := NodeAccepted(keccak, members, element, 0, i);
    }
  }

  /** Of two members, the concatenation of their hashes has the empty proof. */
  lemma PairIsProvable(keccak: Hash, a: bytes, b: bytes)
    ensures Accepts(keccak, [a, b], keccak(a) + keccak(b), [], [])
  {
    var xs := Tree(keccak, [a, b]);
    PadExact(2, 1);
    assert xs == [keccak(a), keccak(b)];
    assert Level(keccak, xs) == [keccak(keccak(a) + keccak(b))];
  }

  /** A member that begins with the hash of some string makes that string provable. */
  lemma PrefixIsProvable(keccak: Hash, element: bytes, rest: bytes)
    ensures Accepts(keccak, [keccak(element) + rest], element, [rest], [true])
  {
    var e := keccak(element) + rest;
    PadExact(1, 1);
    assert Tree(keccak, [e]) == [keccak(e)];
    OneStep(keccak, keccak(element), rest, true);
  }

  /** Among three members the empty string is provable. */
  lemma EmptyIsProvable(keccak: Hash, a: bytes, b: bytes, c: bytes)
    requires Digests(keccak)
    ensures exists path, d :: Accepts(keccak, [a, b, c], [], path, d)
  {
    hide *;
    ThreeIsNoPower();
    PaddedIff(keccak, [a, b, c]);
    var i := LeafOf(keccak, [a, b, c], []);
    GroundLevel(keccak, Tree(keccak, [a, b, c]));
    var path, d := NodeAccepted(keccak, [a, b, c], [], 0, i);
  }

  lemma ThreeIsNoPower()
    ensures !PowerOfTwo(3)
  {
  }
}
