/**
 Directed concept pathways of memory/pathways.go, keyed by the pair of concept hashes written
 "from:to", with an index of the keys by source hash. Concept hashes are sixteen characters long.
 */
module Pathways {

  type Hash = string
  type Key = string

  const HashLength := 16

  datatype Pathway = Pathway(fromHash: Hash, toHash: Hash, fromWord: string, toWord: string, strength: real, activations: int)

  type Memory = map<Key, Pathway>
  type Index = map<Hash, seq<Key>>

  function PathwayKey(fromHash: Hash, toHash: Hash): Key {
    fromHash + ":" + toHash
  }

  /** Hashes of one length make the key unambiguous. */
  lemma KeyInjective(f: Hash, t: Hash, g: Hash, u: Hash)
    requires |f| == |g| == HashLength && PathwayKey(f, t) == PathwayKey(g, u)
    ensures f == g && t == u
  {
    assert f == PathwayKey(f, t)[..HashLength] == PathwayKey(g, u)[..HashLength] == g;
    assert t == PathwayKey(f, t)[HashLength + 1..] == PathwayKey(g, u)[HashLength + 1..] == u;
  }

  function Listed(index: Index, h: Hash): seq<Key> {
    if h in index then index[h] else []
  }

  /** 1 for a live pathway that leaves h, else 0. */
  function Leaves(m: Memory, k: Key, h: Hash): nat {
    if k in m && m[k].fromHash == h then 1 else 0
  }

  ghost predicate AgreesAt(m: Memory, index: Index, h: Hash, k: Key) {
    multiset(Listed(index, h))[k] == Leaves(m, k, h)
  }

  /** Every source lists exactly the live pathways that leave it, each once. */
  ghost predicate Agrees(m: Memory, index: Index) {
    forall h, k {:trigger AgreesAt(m, index, h, k)} :: AgreesAt(m, index, h, k)
  }

  ghost predicate Keyed(m: Memory) {
    forall k | k in m :: k == PathwayKey(m[k].fromHash, m[k].toHash) && |m[k].fromHash| == HashLength
  }

  function Without(keys: seq<Key>, k: Key): (r: seq<Key>)
    ensures multiset(r) == multiset(keys)[k := 0]
  {
    if keys == [] then []
    else
      var n := |keys| - 1;
      assert keys == keys[..n] + [keys[n]];
      Without(keys[..n], k) + (if keys[n] != k then [keys[n]] else [])
  }

  lemma AddKeepsAgreement(m: Memory, index: Index, k: Key, p: Pathway)
    requires Agrees(m, index) && k !in m
    ensures Agrees(m[k := p], index[p.fromHash := Listed(index, p.fromHash) + [k]])
  {
    var n, i := m[k := p], index[p.fromHash := Listed(index, p.fromHash) + [k]];
    forall h, x ensures AgreesAt(n, i, h, x) {
      assert AgreesAt(m, index, h, x);
    }
  }

  lemma RemoveKeepsAgreement(m: Memory, index: Index, k: Key)
    requires Agrees(m, index) && k in m
    ensures m[k].fromHash in index && index[m[k].fromHash] != []
    ensures Agrees(m - {k}, index[m[k].fromHash := Without(index[m[k].fromHash], k)])
  {
    var f := m[k].fromHash;
    assert AgreesAt(m, index, f, k);
    assert multiset(Listed(index, f))[k] == 1;
    var n, i := m - {k}, index[f := Without(index[f], k)];
    forall h, x ensures AgreesAt(n, i, h, x) {
      assert AgreesAt(m, index, h, x);
    }
  }

  lemma TouchKeepsAgreement(m: Memory, n: Memory, index: Index)
    requires Agrees(m, index) && m.Keys == n.Keys && forall k | k in m :: n[k].fromHash == m[k].fromHash
    ensures Agrees(n, index)
  {
    forall h, x ensures AgreesAt(n, index, h, x) {
      assert AgreesAt(m, index, h, x);
    }
  }

  /** No key is listed twice under a source. */
  lemma NoDuplicates(m: Memory, index: Index, h: Hash, i: nat, j: nat)
    requires Agrees(m, index) && i < j < |Listed(index, h)|
    ensures Listed(index, h)[i] != Listed(index, h)[j]
  {
    var keys := Listed(index, h);
    assert AgreesAt(m, index, h, keys[i]);
    assert multiset(keys)[keys[i]] <= 1;
    hide *;
    if keys[i] == keys[j] { TwiceCounted(keys, i, j); }
  }

  lemma TwiceCounted(keys: seq<Key>, i: nat, j: nat)
    requires i < j < |keys| && keys[i] == keys[j]
    ensures multiset(keys)[keys[i]] >= 2
  {
    var a, b := keys[..j], keys[j..];
    assert keys == a + b && a[i] == b[0] == keys[i];
    assert keys[i] in a && keys[i] in b;
    assert multiset(keys) == multiset(a) + multiset(b);
  }

  /** The faded strength of a pathway, which depends on the time since its last use. */
  type Fade = (Key, Pathway) -> real

  lemma SameSize(m: Memory, n: Memory)
    requires m.Keys == n.Keys
    ensures |m| == |n|
  {
    assert |m| == |m.Keys| && |n| == |n.Keys|;
  }

  lemma MinusMinus(m: Memory, gone: set<Key>, k: Key)
    ensures (m - gone) - {k} == m - (gone + {k})
  {
  }

  lemma OneLess(m: Memory, k: Key)
    requires k in m
    ensures |m - {k}| == |m| - 1
  {
    assert (m - {k}).Keys == m.Keys - {k};
    assert |m| == |m.Keys| && |m - {k}| == |(m - {k}).Keys|;
  }

  function Strengthened(p: Pathway, delta: real, max: real): Pathway {
    p.(strength := if p.strength + delta > max then max else p.strength + delta, activations := p.activations + 1)
  }

  class PathwayMemory {
    var pathways: Memory
    var bySource: Index
    var totalActivations: int
    const hashOf: string -> Hash
    const reinforceDelta: real
    const maxStrength: real

    ghost predicate Valid()
      reads this
    {
      Agrees(pathways, bySource) && Keyed(pathways) && forall w :: |hashOf(w)| == HashLength
    }

    constructor (hashOf: string -> Hash, reinforceDelta: real, maxStrength: real)
      requires forall w :: |hashOf(w)| == HashLength
      ensures Valid() && pathways == map[] && this.hashOf == hashOf
      ensures this.reinforceDelta == reinforceDelta && this.maxStrength == maxStrength
    {
      pathways, bySource, totalActivations := map[], map[], 0;
      this.hashOf, this.reinforceDelta, this.maxStrength := hashOf, reinforceDelta, maxStrength;
      new;
      forall h, k ensures AgreesAt(pathways, bySource, h, k) {}
    }

    /** Creates the pathway between two words, or reinforces the one between words of these hashes. */
    method Strengthen(fromWord: string, toWord: string)
      requires Valid()
      modifies this
      ensures Valid() && totalActivations == old(totalActivations) + 1
      ensures var f, t := hashOf(fromWord), hashOf(toWord);
              var k := f + ":" + t;
              && k in pathways && pathways[k].fromHash == f && pathways[k].toHash == t
              && pathways == old(pathways)[k := pathways[k]]
              && if k in old(pathways) then
                   var p := old(pathways)[k];
                   && pathways[k].fromWord == p.fromWord && pathways[k].toWord == p.toWord
                   && pathways[k].strength == (if p.strength + reinforceDelta > maxStrength then maxStrength else p.strength + reinforceDelta)
                   && pathways[k].activations == p.activations + 1 && bySource == old(bySource)
                 else
                   && pathways[k].fromWord == fromWord && pathways[k].toWord == toWord
                   && pathways[k].strength == reinforceDelta && pathways[k].activations == 1
                   && Listed(bySource, f) == Listed(old(bySource), f) + [k]
    {
      var f, t := hashOf(fromWord), hashOf(toWord);
      var k := PathwayKey(f, t);
      assert k == f + ":" + t;
      hide PathwayKey;
      if k !in pathways {
        var p := Pathway(f, t, fromWord, toWord, reinforceDelta, 0);
        AddKeepsAgreement(pathways, bySource, k, p);
        ghost var before := pathways[k := p];
        pathways := pathways[k := p];
        bySource := bySource[f := Listed(bySource, f) + [k]];
        pathways := pathways[k := p.(activations := 1)];
        TouchKeepsAgreement(before, pathways, bySource);
      } else {
        KeyInjective(f, t, pathways[k].fromHash, pathways[k].toHash);
        ghost var before := pathways;
        pathways := pathways[k := Strengthened(pathways[k], reinforceDelta, maxStrength)];
        TouchKeepsAgreement(before, pathways, bySource);
      }
      totalActivations := totalActivations + 1;
    }

    /** The keys listed for a word are all live, pairwise different and exactly those of the pathways
        leaving the word; the results follow that list with faded strengths. */
    method GetOutgoingPathways(fromWord: string, fade: Fade) returns (result: seq<Pathway>)
      requires Valid()
      ensures var keys := Listed(bySource, hashOf(fromWord));
              && (forall k :: k in keys <==> k in pathways && pathways[k].fromHash == hashOf(fromWord))
              && (forall i, j | 0 <= i < j < |keys| :: keys[i] != keys[j])
              && |result| == |keys|
              && forall i | 0 <= i < |keys| :: keys[i] in pathways &&
                   result[i] == pathways[keys[i]].(strength := fade(keys[i], pathways[keys[i]]))
    {
      var list := Listed(bySource, hashOf(fromWord));
      forall k ensures k in list <==> k in pathways && pathways[k].fromHash == hashOf(fromWord) {
        assert AgreesAt(pathways, bySource, hashOf(fromWord), k);
        assert k in list <==> k in multiset(list);
      }
      forall i, j | 0 <= i < j < |list| ensures list[i] != list[j] {
        NoDuplicates(pathways, bySource, hashOf(fromWord), i, j);
      }
      hide Agrees, Keyed, Listed;
      result := [];
      for i := 0 to |list|
        invariant |result| == i
        invariant forall j | 0 <= j < i :: list[j] in pathways &&
                    result[j] == pathways[list[j]].(strength := fade(list[j], pathways[list[j]]))
      {
        assert list[i] in list;
        if list[i] in pathways {
          var p := pathways[list[i]];
          result := result + [p.(strength := fade(list[i], p))];
        }
      }
    }

    /** Fades every pathway and removes exactly those that fall below the minimum strength. */
    method Decay(fade: Fade, minStrength: real) returns (pruned: nat)
      requires Valid()
      modifies this`pathways, this`bySource
      ensures Valid() && pruned == |old(pathways)| - |pathways|
      ensures pathways == (map k | k in old(pathways) && fade(k, old(pathways)[k]) >= minStrength
                             :: old(pathways)[k].(strength := fade(k, old(pathways)[k])))
    {
      hide PathwayKey;
      var faded := map k | k in pathways :: pathways[k].(strength := fade(k, pathways[k]));
      SameSize(pathways, faded);
      TouchKeepsAgreement(pathways, faded, bySource);
      pathways := faded;
      var toDelete := set k | k in faded && faded[k].strength < minStrength;
      hide Agrees, Keyed;
      pruned := RemoveAll(toDelete);
    }

    method RemoveAll(keys: set<Key>) returns (pruned: nat)
      requires Valid() && keys <= pathways.Keys
      modifies this`pathways, this`bySource
      ensures Valid() && pathways == old(pathways) - keys && pruned + |pathways| == |old(pathways)|
    {
      hide *;
      ghost var m, done := pathways, {};
      var todo := keys;
      pruned := 0;
      assert m - {} == m;
      while todo != {}
        invariant Valid() && pathways == m - done && done + todo == keys && done !! todo
        invariant pruned + |pathways| == |m|
      {
        var k :| k in todo;
        OneLess(pathways, k);
        RemoveOne(k);
        MinusMinus(m, done, k);
        todo, done := todo - {k}, done + {k};
        pruned := pruned + 1;
      }
      assert done == keys;
    }

    /** The new list of a source is made with one less capacity than the old, which is never empty. */
    method RemoveOne(k: Key)
      requires Valid() && k in pathways
      modifies this`pathways, this`bySource
      ensures Valid() && pathways == old(pathways) - {k}
    {
      hide Agrees;
      var p := pathways[k];
      RemoveKeepsAgreement(pathways, bySource, k);
      pathways := pathways - {k};
      if p.fromHash in bySource {
        assert |bySource[p.fromHash]| - 1 >= 0;
        bySource := bySource[p.fromHash := Without(bySource[p.fromHash], k)];
      }
    }
  }
}
