/** The bucket chains of hashtable.c as plain sequences, and what they mean:
    a map from keys to the value buffers they own. */
module Chains {
  import opened Hashes

  /** A malloc'ed value: its identity and its bytes. */
  datatype Buffer = Buffer(id: nat, bytes: Bytes)

  datatype Container = Container(hash: Hash, data: Buffer)

  type Chain = seq<Container>

  function Slot(h: Hash, n: nat): (i: nat)
    requires n > 0
    ensures i < n
  {
    h.value % n
  }

  /** Where the search loop stops: the first container with this key, or the end. */
  function Position(chain: Chain, h: Hash): (p: nat)
    ensures p <= |chain|
    ensures p < |chain| ==> chain[p].hash == h
    ensures forall k | 0 <= k < p :: chain[k].hash != h
  {
    if chain == [] || chain[0].hash == h then 0 else 1 + Position(chain[1..], h)
  }

  function Put(chain: Chain, c: Container): Chain {
    var p := Position(chain, c.hash);
    if p < |chain| then chain[p := c] else chain + [c]
  }

  function Drop(chain: Chain, h: Hash): Chain {
    var p := Position(chain, h);
    if p < |chain| then chain[..p] + chain[p + 1..] else chain
  }

  /** `chain` holds entries of `m` that belong in slot `i` of `n`, each key once. */
  ghost predicate ChainOf(chain: Chain, i: nat, n: nat, m: map<Hash, Buffer>)
    requires n > 0
  {
    && (forall k | 0 <= k < |chain| ::
          chain[k].hash in m && m[chain[k].hash] == chain[k].data && Slot(chain[k].hash, n) == i)
    && (forall j, k | 0 <= j < k < |chain| :: chain[j].hash != chain[k].hash)
  }

  /** The chains hold exactly the entries of `m`, each once and in its own bucket. */
  ghost predicate Represents(chains: seq<Chain>, m: map<Hash, Buffer>) {
    && (chains == [] ==> m == map[])
    && (forall i | 0 <= i < |chains| :: ChainOf(chains[i], i, |chains|, m))
    && (chains != [] ==> forall h | h in m ::
          var chain := chains[Slot(h, |chains|)]; Position(chain, h) < |chain|)
  }

  lemma LookupIsExact(chains: seq<Chain>, m: map<Hash, Buffer>, h: Hash)
    requires Represents(chains, m) && chains != []
    ensures var chain := chains[Slot(h, |chains|)]; var p := Position(chain, h);
      if p < |chain| then h in m && m[h] == chain[p].data else h !in m
  {
    var i := Slot(h, |chains|);
    assert ChainOf(chains[i], i, |chains|, m);
  }

  lemma FoundAt(chain: Chain, k: nat, h: Hash)
    requires k < |chain| && chain[k].hash == h
    ensures Position(chain, h) < |chain|
  {
  }

  /** Each entry stands in the chain that its hash modulo their number selects, and nowhere else. */
  lemma EntriesAreInPlace(chains: seq<Chain>, m: map<Hash, Buffer>, h: Hash)
    requires Represents(chains, m) && h in m
    ensures chains != [] && Container(h, m[h]) in chains[h.value % |chains|]
    ensures forall i, k | 0 <= i < |chains| && 0 <= k < |chains[i]| && chains[i][k].hash == h :: i == h.value % |chains|
  {
    var i := Slot(h, |chains|);
    LookupIsExact(chains, m, h);
    assert chains[i][Position(chains[i], h)] == Container(h, m[h]);
    forall i, k | 0 <= i < |chains| && 0 <= k < |chains[i]| && chains[i][k].hash == h ensures i == h.value % |chains| {
      assert ChainOf(chains[i], i, |chains|, m);
    }
  }

  /** Away from a key, a chain keeps its positions found when that key changes. */
  lemma OthersStayFoundInPut(chain: Chain, c: Container, h: Hash)
    requires h != c.hash
    ensures Position(chain, h) < |chain| <==> Position(Put(chain, c), h) < |Put(chain, c)|
  {
    var p, q := Position(chain, h), Put(chain, c);
    if p < |chain| {
      FoundAt(q, p, h);
    }
    if Position(q, h) < |q| {
      FoundAt(chain, Position(q, h), h);
    }
  }

  lemma OthersStayFoundInDrop(chain: Chain, g: Hash, h: Hash)
    requires h != g
    ensures Position(chain, h) < |chain| <==> Position(Drop(chain, g), h) < |Drop(chain, g)|
  {
    var p, r, a := Position(chain, h), Drop(chain, g), Position(chain, g);
    if p < |chain| {
      FoundAt(r, if p < a then p else p - 1, h);
    }
    var b := Position(r, h);
    if b < |r| {
      FoundAt(chain, if a < |chain| && b >= a then b + 1 else b, h);
    }
  }

  lemma PutRepresents(chains: seq<Chain>, m: map<Hash, Buffer>, c: Container)
    requires Represents(chains, m) && chains != []
    ensures var i := Slot(c.hash, |chains|);
      Represents(chains[i := Put(chains[i], c)], m[c.hash := c.data])
  {
    var n, i := |chains|, Slot(c.hash, |chains|);
    var next, m' := chains[i := Put(chains[i], c)], m[c.hash := c.data];
    forall j | 0 <= j < n ensures ChainOf(next[j], j, n, m') {
      assert ChainOf(chains[j], j, n, m);
    }
    forall h | h in m' ensures Position(next[Slot(h, n)], h) < |next[Slot(h, n)]| {
      if h == c.hash {
        assert next[i][Position(chains[i], h)] == c;
      } else {
        OthersStayFoundInPut(chains[i], c, h);
      }
    }
  }

  lemma DropRepresents(chains: seq<Chain>, m: map<Hash, Buffer>, h: Hash)
    requires Represents(chains, m) && chains != []
    ensures var i := Slot(h, |chains|);
      Represents(chains[i := Drop(chains[i], h)], m - {h})
  {
    var n, i := |chains|, Slot(h, |chains|);
    var next, m' := chains[i := Drop(chains[i], h)], m - {h};
    forall j | 0 <= j < n ensures ChainOf(next[j], j, n, m') {
      assert ChainOf(chains[j], j, n, m);
      if j == i {
        DropIsChain(chains[i], i, n, m, h);
      }
    }
    forall g | g in m' ensures Position(next[Slot(g, n)], g) < |next[Slot(g, n)]| {
      OthersStayFoundInDrop(chains[i], h, g);
    }
  }

  lemma DropIsChain(chain: Chain, i: nat, n: nat, m: map<Hash, Buffer>, h: Hash)
    requires n > 0 && ChainOf(chain, i, n, m)
    ensures ChainOf(Drop(chain, h), i, n, m - {h})
  {
    var p, r := Position(chain, h), Drop(chain, h);
    forall k | 0 <= k < |r| ensures r[k].hash != h && r[k] == chain[if k < p then k else k + 1] {
    }
  }

  // Rehashing.

  function Empty(n: nat): (chains: seq<Chain>)
    ensures |chains| == n
    ensures forall i | 0 <= i < n :: chains[i] == []
  {
    seq(n, _ => [])
  }

  /** Appending each container in turn to the chain its hash selects. */
  function Distribute(chains: seq<Chain>, moved: Chain): (r: seq<Chain>)
    requires chains != [] || moved == []
    ensures |r| == |chains|
  {
    if moved == [] then chains
    else
      var c, d := moved[|moved| - 1], Distribute(chains, moved[..|moved| - 1]);
      var i := Slot(c.hash, |chains|);
      d[i := d[i] + [c]]
  }

  function Flatten(chains: seq<Chain>): Chain {
    if chains == [] then [] else Flatten(chains[..|chains| - 1]) + chains[|chains| - 1]
  }

  ghost predicate DistinctKeys(s: Chain) {
    forall j, k | 0 <= j < k < |s| :: s[j].hash != s[k].hash
  }

  /** A sequence lists a map: every entry once. */
  ghost predicate Lists(s: Chain, m: map<Hash, Buffer>) {
    && DistinctKeys(s)
    && (forall k | 0 <= k < |s| :: s[k].hash in m && m[s[k].hash] == s[k].data)
    && (forall h | h in m :: Position(s, h) < |s|)
  }

  lemma ListsFront(s: Chain, m: map<Hash, Buffer>)
    requires Lists(s, m) && s != []
    ensures var c := s[|s| - 1];
      && Lists(s[..|s| - 1], m - {c.hash})
      && c.hash in m && m == (m - {c.hash})[c.hash := c.data]
      && |m| == |m - {c.hash}| + 1
  {
    var front, c := s[..|s| - 1], s[|s| - 1];
    var m' := m - {c.hash};
    forall h | h in m' ensures Position(front, h) < |front| {
      assert front[Position(s, h)].hash == h;
    }
    assert m == m'[c.hash := c.data];
  }

  lemma {:induction false} DistributeRepresents(s: Chain, m: map<Hash, Buffer>, n: nat)
    requires Lists(s, m) && (n > 0 || m == map[])
    ensures |s| == |m|
    ensures Represents(Distribute(Empty(n), s), m)
  {
    if s == [] {
      assert forall h | h in m :: Position(s, h) < 0;
    } else {
      var front, c := s[..|s| - 1], s[|s| - 1];
      ListsFront(s, m);
      DistributeRepresents(front, m - {c.hash}, n);
      var d := Distribute(Empty(n), front);
      LookupIsExact(d, m - {c.hash}, c.hash);
      PutRepresents(d, m - {c.hash}, c);
    }
  }

  /** The entries of the first `i` buckets. */
  ghost function Upto(m: map<Hash, Buffer>, i: nat, n: nat): map<Hash, Buffer>
    requires n > 0
  {
    map h | h in m && Slot(h, n) < i :: m[h]
  }

  lemma {:induction false} FlattenLists(chains: seq<Chain>, m: map<Hash, Buffer>, i: nat)
    requires Represents(chains, m) && i <= |chains| && chains != []
    ensures Lists(Flatten(chains[..i]), Upto(m, i, |chains|))
  {
    if i > 0 {
      FlattenLists(chains, m, i - 1);
      assert chains[..i][..i - 1] == chains[..i - 1];
      var s, chain := Flatten(chains[..i - 1]), chains[i - 1];
      assert ChainOf(chain, i - 1, |chains|, m);
      NextBucketIsListed(s, chain, m, i, |chains|);
    }
  }

  /** The next bucket's chain goes on with the list. */
  lemma NextBucketIsListed(s: Chain, chain: Chain, m: map<Hash, Buffer>, i: nat, n: nat)
    requires 0 < i <= n && Lists(s, Upto(m, i - 1, n)) && ChainOf(chain, i - 1, n, m)
    requires forall h | h in m && Slot(h, n) == i - 1 :: Position(chain, h) < |chain|
    ensures Lists(s + chain, Upto(m, i, n))
  {
    var before := Upto(m, i - 1, n);
    BucketsAreDistinct(s, chain, before, i, n);
    forall h | h in Upto(m, i, n) ensures Position(s + chain, h) < |s + chain| {
      assert Slot(h, n) < i - 1 ==> h in before;
      FoundInEither(s, chain, h);
    }
  }

  lemma BucketsAreDistinct(s: Chain, chain: Chain, before: map<Hash, Buffer>, i: nat, n: nat)
    requires 0 < i <= n && DistinctKeys(s) && DistinctKeys(chain)
    requires forall k | 0 <= k < |s| :: s[k].hash in before
    requires forall h | h in before :: Slot(h, n) < i - 1
    requires forall k | 0 <= k < |chain| :: Slot(chain[k].hash, n) == i - 1
    ensures DistinctKeys(s + chain)
  {
  }

  lemma FoundInEither(s: Chain, t: Chain, h: Hash)
    requires Position(s, h) < |s| || Position(t, h) < |t|
    ensures Position(s + t, h) < |s + t|
  {
    if Position(s, h) < |s| {
      FoundAt(s + t, Position(s, h), h);
    } else {
      FoundAt(s + t, |s| + Position(t, h), h);
    }
  }

  /** Rehashing into `n` chains leaves the map as it was and moves each entry once. */
  lemma RehashRepresents(chains: seq<Chain>, m: map<Hash, Buffer>, n: nat)
    requires Represents(chains, m) && (n > 0 || m == map[])
    ensures |Flatten(chains)| == |m|
    ensures Represents(Distribute(Empty(n), Flatten(chains)), m)
  {
    FlattenListsAll(chains, m);
    DistributeRepresents(Flatten(chains), m, n);
  }

  lemma FlattenListsAll(chains: seq<Chain>, m: map<Hash, Buffer>)
    requires Represents(chains, m)
    ensures Lists(Flatten(chains), m)
  {
    if chains != [] {
      FlattenLists(chains, m, |chains|);
      assert chains[..|chains|] == chains;
      assert Upto(m, |chains|, |chains|) == m;
    }
  }

  function Data(s: Chain): seq<Buffer> {
    seq(|s|, i requires 0 <= i < |s| => s[i].data)
  }

  lemma DataSnoc(s: Chain, i: nat)
    requires i < |s|
    ensures Data(s[..i + 1]) == Data(s[..i]) + [s[i].data]
  {
  }

  lemma ListsCount(s: Chain, m: map<Hash, Buffer>)
    requires Lists(s, m)
    ensures |s| == |m|
  {
    DistributeRepresents(s, m, 1);
  }
}
