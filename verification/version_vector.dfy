/** Version vectors: per-field maps from a device id to that device's edit
    counter, and the dominance test that decides which copy of a field is
    newer. A key missing from a vector reads as counter 0. */
module VersionVectors {

  /** Device id to edit counter. */
  type VersionVector = map<string, int>

  /** Outcome of comparing a local vector with a remote one. */
  datatype VVCompareResult = LocalNewer | RemoteNewer | Concurrent

  /** The counter `v` holds for `device`; an absent key reads as 0. */
  function Get(v: VersionVector, device: string): int {
    if device in v then v[device] else 0
  }

  /** Some key of either vector carries a larger counter in `a` than in `b`. */
  predicate AnyGreater(a: VersionVector, b: VersionVector) {
    exists k | k in a.Keys + b.Keys :: Get(a, k) > Get(b, k)
  }

  /** The verdict drawn from the two "some key is greater" flags. */
  function Classify(localGreater: bool, remoteGreater: bool): VVCompareResult {
    if localGreater && !remoteGreater then LocalNewer
    else if remoteGreater && !localGreater then RemoteNewer
    else Concurrent
  }

  /** The dominance test as a pure function over the union of both key sets. */
  function Compare(local: VersionVector, remote: VersionVector): VVCompareResult {
    Classify(AnyGreater(local, remote), AnyGreater(remote, local))
  }

  /** Strict dominance over every possible device id: `a` is at least `b`
      everywhere and strictly greater somewhere. */
  ghost predicate Dominates(a: VersionVector, b: VersionVector) {
    && (forall k :: Get(b, k) <= Get(a, k))
    && (exists k :: Get(b, k) < Get(a, k))
  }

  /** The verdict seen from the other side. */
  function Mirror(c: VVCompareResult): VVCompareResult {
    match c
    case LocalNewer => RemoteNewer
    case RemoteNewer => LocalNewer
    case Concurrent => Concurrent
  }

  /** `v` with `device`'s counter raised by one (an absent key becomes 1). */
  function Bump(v: VersionVector, device: string): (r: VersionVector)
    ensures Get(r, device) == Get(v, device) + 1
    ensures forall k :: k != device ==> Get(r, k) == Get(v, k)
    ensures r.Keys == v.Keys + {device}
  {
    v[device := Get(v, device) + 1]
  }

  /** The key-bounded existential agrees with one over all device ids. */
  lemma {:induction false} AnyGreaterUnbounded(a: VersionVector, b: VersionVector)
    ensures AnyGreater(a, b) <==> exists k :: Get(b, k) < Get(a, k)
  {
    if k :| Get(b, k) < Get(a, k) {
      assert k in a.Keys + b.Keys;
    }
  }

  /** The comparison is exactly the dominance order: localNewer iff local
      dominates, remoteNewer iff remote dominates, concurrent otherwise. */
  lemma {:induction false} CompareIsDominance(a: VersionVector, b: VersionVector)
    ensures Compare(a, b) == LocalNewer <==> Dominates(a, b)
    ensures Compare(a, b) == RemoteNewer <==> Dominates(b, a)
    ensures Compare(a, b) == Concurrent <==> !Dominates(a, b) && !Dominates(b, a)
  {
    AnyGreaterUnbounded(a, b);
    AnyGreaterUnbounded(b, a);
    if !AnyGreater(b, a) {
      forall k ensures Get(b, k) <= Get(a, k) {
        assert k in b.Keys + a.Keys || (k !in a && k !in b);
      }
    }
    if !AnyGreater(a, b) {
      forall k ensures Get(a, k) <= Get(b, k) {
        assert k in a.Keys + b.Keys || (k !in a && k !in b);
      }
    }
  }

  /** compareVV(a, b) is the mirror image of compareVV(b, a). */
  lemma {:induction false} CompareMirror(a: VersionVector, b: VersionVector)
    ensures Compare(b, a) == Mirror(Compare(a, b))
  {
    CompareIsDominance(a, b);
    CompareIsDominance(b, a);
  }

  /** A vector is never newer than itself, so equal vectors (two empty maps
      included) compare as concurrent. */
  lemma {:induction false} CompareReflexiveConcurrent(a: VersionVector)
    ensures Compare(a, a) == Concurrent
  {
    CompareIsDominance(a, a);
  }

  /** Dominance is a strict partial order: irreflexive, asymmetric, transitive. */
  lemma {:induction false} DominanceStrictOrder(a: VersionVector, b: VersionVector, c: VersionVector)
    ensures !Dominates(a, a)
    ensures Dominates(a, b) ==> !Dominates(b, a)
    ensures Dominates(a, b) && Dominates(b, c) ==> Dominates(a, c)
  {
    if Dominates(a, b) && Dominates(b, c) {
      var k :| Get(c, k) < Get(b, k);
      assert Get(c, k) < Get(a, k);
    }
  }

  /** Two vectors that read the same under `Get` compare the same against any vector. */
  lemma {:induction false} CompareRespectsReading(a: VersionVector, a': VersionVector, b: VersionVector)
    requires forall k :: Get(a', k) == Get(a, k)
    ensures Compare(a', b) == Compare(a, b)
    ensures Compare(b, a') == Compare(b, a)
  {
    CompareIsDominance(a, b);
    CompareIsDominance(a', b);
    assert Dominates(a', b) <==> Dominates(a, b);
    assert Dominates(b, a') <==> Dominates(b, a) by {
      if Dominates(b, a) {
        var k :| Get(a, k) < Get(b, k);
        assert Get(a', k) < Get(b, k);
      }
      if Dominates(b, a') {
        var k :| Get(a', k) < Get(b, k);
        assert Get(a, k) < Get(b, k);
      }
    }
  }

  /** Adding a key with counter 0 to either vector never changes the verdict. */
  lemma {:induction false} ZeroEntryIrrelevant(a: VersionVector, b: VersionVector, device: string)
    requires device !in a
    ensures Compare(a[device := 0], b) == Compare(a, b)
    ensures Compare(b, a[device := 0]) == Compare(b, a)
  {
    CompareRespectsReading(a, a[device := 0], b);
  }

  /** Raising one device's counter makes the new vector dominate the old one. */
  lemma {:induction false} BumpDominates(v: VersionVector, device: string)
    ensures Compare(Bump(v, device), v) == LocalNewer
    ensures Compare(v, Bump(v, device)) == RemoteNewer
  {
    var r := Bump(v, device);
    assert Get(v, device) < Get(r, device);
    CompareIsDominance(r, v);
  }

  /** The source's loop: visit every key of either vector once, reading an
      absent key as 0, and record whether either side was ever greater. */
  method CompareVV(local: VersionVector, remote: VersionVector) returns (r: VVCompareResult)
    ensures r == Compare(local, remote)
    ensures r == LocalNewer <==> Dominates(local, remote)
    ensures r == RemoteNewer <==> Dominates(remote, local)
    ensures r == Concurrent <==> !Dominates(local, remote) && !Dominates(remote, local)
  {
    var localGreater := false;
    var remoteGreater := false;
    var allKeys := local.Keys + remote.Keys;
    var pending := allKeys;
    while pending != {}
      invariant pending <= allKeys
      invariant localGreater <==> exists k | k in allKeys - pending :: Get(local, k) > Get(remote, k)
      invariant remoteGreater <==> exists k | k in allKeys - pending :: Get(remote, k) > Get(local, k)
      decreases pending
    {
      var key :| key in pending;
      var l := Get(local, key);
      var rv := Get(remote, key);
      if l > rv {
        localGreater := true;
      } else if rv > l {
        remoteGreater := true;
      }
      pending := pending - {key};
    }
    assert allKeys - pending == local.Keys + remote.Keys;
    assert remote.Keys + local.Keys == allKeys;
    CompareIsDominance(local, remote);
    r := Classify(localGreater, remoteGreater);
  }
}
