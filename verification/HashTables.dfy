/** hashtable.c: an array of lazily created bucket lists that is rebuilt in both directions. */
module HashTables {
  import opened Options
  import opened Hashes
  import opened LinkedLists
  import opened Chains
  import T = TableSpec

  type Bucket = LinkedList<Container>
  type Bucket? = LinkedList?<Container>

  ghost predicate BucketHolds(b: Bucket?, chain: Chain, repr: set<object>)
    reads repr
  {
    if b == null then chain == []
    else b in repr && b.repr <= repr && b.Valid() && b.contents == chain && b.deleter
  }

  /** The array holds distinct lists whose contents are `chains`, all within `repr`. */
  ghost predicate Buckets(a: array<Bucket?>, chains: seq<Chain>, repr: set<object>)
    reads a, repr
  {
    && |chains| == a.Length
    && (forall i {:trigger a[i]} | 0 <= i < a.Length :: BucketHolds(a[i], chains[i], repr))
    && (forall i, j {:trigger a[i], a[j]} | 0 <= i < j < a.Length && a[i] != null :: a[i] != a[j])
  }

  /** The bucket at `pos`, created if it is not there yet. */
  method EnsureBucket(a: array<Bucket?>, pos: nat, ghost chains: seq<Chain>, ghost repr: set<object>)
    returns (b: Bucket, ghost repr': set<object>)
    requires Buckets(a, chains, repr) && pos < a.Length && a !in repr
    modifies a
    ensures a[pos] == b && repr <= repr' && fresh(repr' - repr) && b in repr'
    ensures Buckets(a, chains, repr') && a !in repr'
  {
    if a[pos] == null {
      b := new LinkedList<Container>();
      b.OnDelete(true);
      a[pos] := b;
      repr' := repr + {b};
    } else {
      b := a[pos];
      repr' := repr;
    }
  }

  method Append(a: array<Bucket?>, pos: nat, c: Container, ghost chains: seq<Chain>, ghost repr: set<object>)
    returns (ghost repr': set<object>)
    requires Buckets(a, chains, repr) && pos < a.Length && a !in repr
    modifies a, repr
    ensures repr <= repr' && fresh(repr' - repr) && a !in repr'
    ensures Buckets(a, chains[pos := chains[pos] + [c]], repr')
  {
    var b;
    b, repr' := EnsureBucket(a, pos, chains, repr);
    OtherBucketsApart(a, pos, chains, repr');
    var n := b.InsertLast(c);
    repr' := repr' + {n};
  }

  /** Bucket `pos` shares no node with any other bucket. */
  lemma OtherBucketsApart(a: array<Bucket?>, pos: nat, chains: seq<Chain>, repr: set<object>)
    requires Buckets(a, chains, repr) && pos < a.Length && a[pos] != null
    ensures forall i {:trigger a[i]} | 0 <= i < a.Length && i != pos && a[i] != null ::
      a[i] != a[pos] && a[i].repr !! a[pos].repr
  {
    forall i {:trigger a[i]} | 0 <= i < a.Length && i != pos && a[i] != null
      ensures a[i] != a[pos] && a[i].repr !! a[pos].repr
    {
      ListsAreDisjoint(a[i], a[pos]);
    }
  }

  lemma DistributeSnoc(chains: seq<Chain>, moved: Chain, c: Container)
    requires chains != []
    ensures var d, i := Distribute(chains, moved), Slot(c.hash, |chains|);
      Distribute(chains, moved + [c]) == d[i := d[i] + [c]]
  {
    assert (moved + [c])[..|moved|] == moved;
  }

  /** One container goes to its new bucket and leaves the old one. */
  method MoveFirst(b: Bucket, a: array<Bucket?>, ghost chains: seq<Chain>, ghost repr: set<object>)
    returns (ghost repr': set<object>)
    requires Buckets(a, chains, repr) && a.Length > 0 && a !in repr
    requires b.Valid() && !b.deleter && b !in repr && b.repr !! repr && b.nodes != []
    modifies a, repr, b, b.repr`next, b.repr`prev
    ensures repr <= repr' && fresh(repr' - repr) && a !in repr'
    ensures b.Valid() && !b.deleter && b.repr == old(b.repr)
    ensures b.nodes == old(b.nodes)[1..] && b.contents == old(b.contents)[1..]
    ensures Buckets(a, Distribute(chains, [old(b.contents)[0]]), repr')
  {
    var node: Node<Container> := b.first;
    var c := node.data;
    DistributeSnoc(chains, [], c);
    repr' := Append(a, c.hash.value % a.Length, c, chains, repr);
    var _ := b.Remove(node, 0);
  }

  lemma {:induction false} DistributeConcat(chains: seq<Chain>, s: Chain, t: Chain)
    requires chains != []
    ensures Distribute(chains, s + t) == Distribute(Distribute(chains, s), t)
  {
    if t == [] {
      assert s + t == s;
    } else {
      var front, c := t[..|t| - 1], t[|t| - 1];
      assert s + t == (s + front) + [c];
      DistributeSnoc(chains, s + front, c);
      DistributeConcat(chains, s, front);
    }
  }

  /** The iterator stands at the head of what is left of an old bucket. */
  ghost predicate AtHead(b: Bucket, iter: Iterator<Container>)
    reads b, iter
  {
    && iter.list == b && iter.started
    && iter.value == At(b.nodes, 0)
    && iter.Ahead(if b.nodes == [] then 0 else 1)
  }

  method MoveNext(b: Bucket, iter: Iterator<Container>, a: array<Bucket?>, ghost chains: seq<Chain>,
                  ghost repr: set<object>)
    returns (ghost repr': set<object>)
    requires Buckets(a, chains, repr) && a.Length > 0 && a !in repr
    requires b.Valid() && !b.deleter && AtHead(b, iter) && b !in repr && b.repr !! repr && iter !in repr
    requires b.nodes != []
    modifies a, repr, b, b.repr`next, b.repr`prev, iter
    ensures repr <= repr' && fresh(repr' - repr) && a !in repr'
    ensures b.Valid() && !b.deleter && AtHead(b, iter) && b.repr == old(b.repr) && b.contents == old(b.contents)[1..]
    ensures Buckets(a, Distribute(chains, [old(b.contents)[0]]), repr')
  {
    repr' := MoveFirst(b, a, chains, repr);
    var _ := iter.Next(0);
  }

  /** What is left of an old bucket is carried over, iterating over it while emptying it. */
  method MoveRest(b: Bucket, iter: Iterator<Container>, a: array<Bucket?>, ghost chains: seq<Chain>,
                  ghost repr: set<object>)
    returns (moved: nat, ghost repr': set<object>)
    requires Buckets(a, chains, repr) && (a.Length > 0 || b.contents == []) && a !in repr
    requires b.Valid() && !b.deleter && AtHead(b, iter) && b !in repr && b.repr !! repr && iter !in repr
    modifies a, repr, b, b.repr`next, b.repr`prev, iter
    ensures repr <= repr' && fresh(repr' - repr) && a !in repr'
    ensures b.Valid() && !b.deleter && b.contents == [] && b.repr == old(b.repr)
    ensures moved == |old(b.contents)|
    ensures Buckets(a, Distribute(chains, old(b.contents)), repr')
  {
    moved, repr' := 0, repr;
    ghost var done: Chain := [];
    while iter.value != null
      invariant b.Valid() && !b.deleter && AtHead(b, iter) && b.repr == old(b.repr) && iter !in repr'
      invariant done + b.contents == old(b.contents)
      invariant repr <= repr' && fresh(repr' - repr) && a !in repr' && b !in repr' && b.repr !! repr'
      invariant Buckets(a, Distribute(chains, done), repr')
      invariant a.Length > 0 || b.contents == []
      invariant moved == |done|
      decreases |b.contents|
    {
      ghost var c := b.contents[0];
      MoveHead(done, b.contents);
      DistributeConcat(chains, done, [c]);
      repr' := MoveNext(b, iter, a, Distribute(chains, done), repr');
      done, moved := done + [c], moved + 1;
    }
    assert b.contents == [] && done == old(b.contents);
  }

  method MoveChain(b: Bucket, a: array<Bucket?>, ghost chains: seq<Chain>, ghost repr: set<object>)
    returns (moved: nat, ghost repr': set<object>)
    requires Buckets(a, chains, repr) && (a.Length > 0 || b.contents == []) && a !in repr
    requires b.Valid() && b !in repr && b.repr !! repr
    modifies a, repr, b, b.repr`next, b.repr`prev
    ensures repr <= repr' && fresh(repr' - repr) && a !in repr'
    ensures Buckets(a, Distribute(chains, old(b.contents)), repr')
    ensures moved == |old(b.contents)|
  {
    b.OnDelete(false);
    var iter := new Iterator(b);
    var _ := iter.Next(0);
    moved, repr' := MoveRest(b, iter, a, chains, repr);
    var released, _ := b.Delete();
    assert released == [];
  }

  /** `a` from position `i` on is as `Buckets` says. */
  ghost predicate BucketsFrom(a: array<Bucket?>, i: nat, chains: seq<Chain>, repr: set<object>)
    reads a, repr
  {
    && |chains| == a.Length
    && (forall j {:trigger a[j]} | i <= j < a.Length :: BucketHolds(a[j], chains[j], repr))
    && (forall j, k {:trigger a[j], a[k]} | i <= j < k < a.Length && a[j] != null :: a[j] != a[k])
  }

  /** One old bucket is carried over; the ones after it are untouched. */
  method MoveBucket(from: array<Bucket?>, i: nat, to: array<Bucket?>,
                    ghost fromChains: seq<Chain>, ghost fromRepr: set<object>,
                    ghost chains: seq<Chain>, ghost repr: set<object>)
    returns (moved: nat, ghost repr': set<object>)
    requires i < from.Length && BucketsFrom(from, i, fromChains, fromRepr)
    requires Buckets(to, chains, repr) && (to.Length > 0 || fromChains[i] == [])
    requires from != to && {from, to} !! fromRepr && {from, to} !! repr && fromRepr !! repr
    modifies to, repr, fromRepr
    ensures repr <= repr' && fresh(repr' - repr) && {from, to} !! repr'
    ensures Buckets(to, Distribute(chains, fromChains[i]), repr')
    ensures BucketsFrom(from, i + 1, fromChains, fromRepr)
    ensures moved == |fromChains[i]|
  {
    var b := from[i];
    if b == null {
      moved, repr' := 0, repr;
    } else {
      forall j {:trigger from[j]} | i < j < from.Length && from[j] != null
        ensures from[j] != b && from[j].repr !! b.repr
      {
        ListsAreDisjoint(from[j], b);
      }
      moved, repr' := MoveChain(b, to, chains, repr);
    }
  }

  /** The loop of rebuild over the old buckets. */
  method MoveBuckets(from: array<Bucket?>, to: array<Bucket?>, ghost fromChains: seq<Chain>,
                     ghost fromRepr: set<object>)
    returns (moved: nat, ghost repr: set<object>)
    requires Buckets(from, fromChains, fromRepr)
    requires forall i | 0 <= i < to.Length :: to[i] == null
    requires to.Length > 0 || Flatten(fromChains) == []
    requires from != to && {from, to} !! fromRepr
    modifies to, fromRepr
    ensures fresh(repr) && to !in repr
    ensures Buckets(to, Distribute(Empty(to.Length), Flatten(fromChains)), repr)
    ensures moved == |Flatten(fromChains)|
  {
    moved, repr := 0, {};
    ghost var empty := Empty(to.Length);
    assert Flatten(fromChains[..0]) == [];
    for i := 0 to from.Length
      invariant BucketsFrom(from, i, fromChains, fromRepr)
      invariant fresh(repr) && {from, to} !! repr && moved == |Flatten(fromChains[..i])|
      invariant to.Length > 0 || Flatten(fromChains[..i]) == []
      invariant Buckets(to, Distribute(empty, Flatten(fromChains[..i])), repr)
    {
      FlattenStep(fromChains, i);
      if to.Length > 0 {
        DistributeConcat(empty, Flatten(fromChains[..i]), fromChains[i]);
      }
      var n;
      n, repr := MoveBucket(from, i, to, fromChains, fromRepr, Distribute(empty, Flatten(fromChains[..i])), repr);
      moved := moved + n;
    }
    assert fromChains[..from.Length] == fromChains;
  }

  method Rehash(from: array<Bucket?>, size: nat, ghost fromChains: seq<Chain>, ghost fromRepr: set<object>)
    returns (to: array<Bucket?>, moved: nat, ghost repr: set<object>)
    requires Buckets(from, fromChains, fromRepr) && from !in fromRepr
    requires size > 0 || Flatten(fromChains) == []
    modifies fromRepr
    ensures fresh(repr + {to}) && to !in repr && to.Length == size
    ensures Buckets(to, Distribute(Empty(size), Flatten(fromChains)), repr)
    ensures moved == |Flatten(fromChains)|
  {
    to := new Bucket?[size](_ => null);
    moved, repr := MoveBuckets(from, to, fromChains, fromRepr);
  }

  lemma RehashSafely(chains: seq<Chain>, m: map<Hash, Buffer>, size: nat)
    requires Represents(chains, m) && (size > 0 || |m| == 0)
    ensures |Flatten(chains)| == |m| && (size > 0 || Flatten(chains) == [])
    ensures Represents(Distribute(Empty(size), Flatten(chains)), m)
    ensures chains == [] ==> Flatten(chains) == []
  {
    assert |m| == 0 ==> m == map[];
    RehashRepresents(chains, m, size);
  }

  lemma FlattenStep(chains: seq<Chain>, i: nat)
    requires i < |chains|
    ensures Flatten(chains[..i + 1]) == Flatten(chains[..i]) + chains[i]
    ensures Flatten(chains) == [] ==> chains[i] == [] && Flatten(chains[..i]) == []
    decreases |chains|
  {
    assert chains[..i + 1][..i] == chains[..i];
    if i == |chains| - 1 {
      assert chains[..i + 1] == chains;
    } else {
      assert chains[..|chains| - 1][..i] == chains[..i];
      FlattenStep(chains[..|chains| - 1], i);
    }
  }

  /** memory_equals on buffers of one length. */
  method MemoryEquals(a: Bytes, b: Bytes) returns (equal: bool)
    requires |a| == |b|
    ensures equal == (a == b)
  {
    for i := 0 to |a|
      invariant a[..i] == b[..i]
    {
      if a[i] != b[i] {
        return false;
      }
      assert a[..i + 1] == a[..i] + [a[i]];
      assert b[..i + 1] == b[..i] + [b[i]];
    }
    assert a[..|a|] == a && b[..|b|] == b;
    return true;
  }

  /** The search loop of set and get. */
  method Search(b: Bucket, h: Hash) returns (node: Node?<Container>, ghost k: nat)
    requires b.Valid()
    ensures k == Position(b.contents, h)
    ensures node == At(b.nodes, k) && node == At(b.nodes, Position(b.contents, h))
  {
    k := 0;
    var iter := new Iterator(b);
    node := iter.Next(0);
    while node != null
      invariant b.Valid() && k <= |b.nodes|
      invariant iter.list == b && iter.started
      invariant node == At(b.nodes, k)
      invariant iter.Ahead(if k < |b.nodes| then k + 1 else k)
      invariant forall j | 0 <= j < k :: b.contents[j].hash != h
      decreases |b.nodes| - k
    {
      var c := node.data;
      assert c == b.contents[k];
      if |h.bytes| == |c.hash.bytes| && h.value == c.hash.value {
        var same := MemoryEquals(h.bytes, c.hash.bytes);
        if same {
          return;
        }
      }
      k := k + 1;
      node := iter.Next(k);
    }
  }

  /** What the search in the key's own bucket says about the map. */
  lemma FoundInMap(chains: seq<Chain>, m: map<Hash, Buffer>, h: Hash, pos: nat)
    requires Represents(chains, m) && chains != [] && pos == Slot(h, |chains|)
    ensures var k := Position(chains[pos], h);
      if k < |chains[pos]| then h in m && chains[pos][k] == Container(h, m[h]) else h !in m
  {
    LookupIsExact(chains, m, h);
  }

  /** Set within the key's list: an identical value stays, a different one is overwritten
      in its container, a new key goes to the end. */
  method StoreInList(b: Bucket, h: Hash, made: Buffer)
    returns (prior: Option<Buffer>, same: bool, ghost added: set<object>)
    requires b.Valid()
    modifies b, b.repr
    ensures b.Valid() && b.deleter == old(b.deleter) && b.repr <= old(b.repr) + added && fresh(added)
    ensures var chain, k := old(b.contents), Position(old(b.contents), h);
      && prior == (if k < |chain| then Some(chain[k].data) else None)
      && same == (k < |chain| && chain[k].data.bytes == made.bytes)
      && b.contents == if same then chain else Put(chain, Container(h, made))
  {
    added := {};
    var node; ghost var k;
    node, k := Search(b, h);
    if node != null {
      assert node.data == b.contents[k];
      prior := Some(node.data.data);
      same := node.data.data.bytes == made.bytes;
      if !same {
        b.Write(node, k, Container(node.data.hash, made));
      }
    } else {
      prior, same := None, false;
      var n := b.InsertLast(Container(h, made));
      added := {n};
    }
  }

  /** Set within bucket `pos`; the other buckets are as they were. */
  method StoreAt(a: array<Bucket?>, pos: nat, h: Hash, made: Buffer, ghost chains: seq<Chain>, ghost inner: set<object>)
    returns (prior: Option<Buffer>, same: bool, ghost inner': set<object>)
    requires Buckets(a, chains, inner) && a !in inner && pos < a.Length && a[pos] != null
    modifies inner
    ensures inner <= inner' && fresh(inner' - inner) && a !in inner'
    ensures var chain := chains[pos]; var k := Position(chain, h);
      && prior == (if k < |chain| then Some(chain[k].data) else None)
      && same == (k < |chain| && chain[k].data.bytes == made.bytes)
      && Buckets(a, chains[pos := if same then chain else Put(chain, Container(h, made))], inner')
  {
    var b: Bucket := a[pos];
    ghost var added;
    OtherBucketsApart(a, pos, chains, inner);
    prior, same, added := StoreInList(b, h, made);
    inner' := inner + added;
  }

  /** The body of set with a value: `prior` is the buffer the key had, `same` that it is kept. */
  method StoreIn(a: array<Bucket?>, h: Hash, made: Buffer, ghost chains: seq<Chain>, ghost inner: set<object>,
                 ghost m: map<Hash, Buffer>)
    returns (prior: Option<Buffer>, same: bool, ghost chains': seq<Chain>, ghost inner': set<object>)
    requires Buckets(a, chains, inner) && a !in inner && a.Length > 0 && Represents(chains, m)
    modifies a, inner
    ensures prior == (if h in m then Some(m[h]) else None)
    ensures same == (h in m && m[h].bytes == made.bytes)
    ensures inner <= inner' && fresh(inner' - inner) && a !in inner'
    ensures Buckets(a, chains', inner') && Represents(chains', if same then m else m[h := made])
  {
    var pos := h.value % a.Length;
    StoredInMap(chains, m, h, pos, made);
    var _, all := EnsureBucket(a, pos, chains, inner);
    prior, same, inner' := StoreAt(a, pos, h, made, chains, all);
    chains' := chains[pos := if same then chains[pos] else Put(chains[pos], Container(h, made))];
  }

  /** What storing in the key's own bucket does to the map. */
  lemma StoredInMap(chains: seq<Chain>, m: map<Hash, Buffer>, h: Hash, pos: nat, made: Buffer)
    requires Represents(chains, m) && chains != [] && pos == Slot(h, |chains|)
    ensures var k := Position(chains[pos], h);
      if k < |chains[pos]| then h in m && chains[pos][k] == Container(h, m[h]) else h !in m
    ensures chains[pos := chains[pos]] == chains
    ensures Represents(chains[pos := Put(chains[pos], Container(h, made))], m[h := made])
  {
    FoundInMap(chains, m, h, pos);
    PutRepresents(chains, m, Container(h, made));
  }

  /** Removal within bucket `pos`; the other buckets are as they were. */
  method RemoveAt(a: array<Bucket?>, pos: nat, h: Hash, ghost chains: seq<Chain>, ghost inner: set<object>)
    returns (released: Option<Container>)
    requires Buckets(a, chains, inner) && a !in inner && pos < a.Length
    modifies inner
    ensures var chain := chains[pos]; var k := Position(chain, h);
      && released == (if k < |chain| then Some(chain[k]) else None)
      && Buckets(a, chains[pos := Drop(chain, h)], inner)
  {
    released := None;
    var b := a[pos];
    if b != null {
      OtherBucketsApart(a, pos, chains, inner);
      var node; ghost var k;
      node, k := Search(b, h);
      if node != null {
        released := b.Remove(node, k);
      }
    }
  }

  /** The body of set with null: the list hands the removed container to free_container. */
  method RemoveIn(a: array<Bucket?>, h: Hash, ghost chains: seq<Chain>, ghost inner: set<object>,
                  ghost m: map<Hash, Buffer>)
    returns (released: Option<Container>, ghost chains': seq<Chain>)
    requires Buckets(a, chains, inner) && a !in inner && a.Length > 0 && Represents(chains, m)
    modifies a, inner
    ensures released == if h in m then Some(Container(h, m[h])) else None
    ensures Buckets(a, chains', inner) && Represents(chains', m - {h})
  {
    var pos := h.value % a.Length;
    FoundInMap(chains, m, h, pos);
    DropRepresents(chains, m, h);
    released := RemoveAt(a, pos, h, chains, inner);
    chains' := chains[pos := Drop(chains[pos], h)];
  }

  method FindIn(a: array<Bucket?>, h: Hash, ghost chains: seq<Chain>, ghost inner: set<object>,
                ghost m: map<Hash, Buffer>)
    returns (found: Option<Buffer>)
    requires Buckets(a, chains, inner) && a.Length > 0 && Represents(chains, m)
    ensures found == if h in m then Some(m[h]) else None
  {
    var pos := h.value % a.Length;
    FoundInMap(chains, m, h, pos);
    found := None;
    var b := a[pos];
    if b != null && b.count > 0 {
      var node; ghost var k;
      node, k := Search(b, h);
      if node != null {
        assert node.data == b.contents[k];
        found := Some(node.data.data);
      }
    }
  }

  /** Deleting every bucket list in turn hands over all containers, bucket by bucket. */
  method DeleteBuckets(a: array<Bucket?>, ghost chains: seq<Chain>, ghost inner: set<object>)
    returns (released: Chain)
    requires Buckets(a, chains, inner) && a !in inner
    modifies inner
    ensures released == Flatten(chains)
  {
    released := [];
    assert Flatten(chains[..0]) == [];
    for i := 0 to a.Length
      invariant BucketsFrom(a, i, chains, inner)
      invariant released == Flatten(chains[..i])
    {
      FlattenStep(chains, i);
      var b := a[i];
      if b != null {
        forall j {:trigger a[j]} | i < j < a.Length && a[j] != null
          ensures a[j] != b && a[j].repr !! b.repr
        {
          ListsAreDisjoint(a[j], b);
        }
        var some, _ := b.Delete();
        released := released + some;
      }
    }
    assert chains[..a.Length] == chains;
  }

  lemma WithoutKey(m: map<Hash, Buffer>, h: Hash)
    ensures h in m ==> |m - {h}| == |m| - 1
    ensures h !in m ==> m - {h} == m
  {
    assert h in m ==> m == (m - {h})[h := m[h]];
  }

  class HashTable {
    var buckets: array?<Bucket?>
    var bucketsCount: nat
    var count: nat
    var deleter: bool
    var minted: nat           // value buffers allocated so far
    var moved: nat            // containers carried over by rebuilds so far
    var freed: seq<Buffer>    // value buffers freed, in order
    var handed: seq<Buffer>   // value buffers given to the deleter, in order
    ghost var repr: set<object>
    ghost var inner: set<object>  // the bucket lists and their nodes
    ghost var chains: seq<Chain>
    ghost var entries: map<Hash, Buffer>

    ghost predicate Valid()
      reads this, repr
    {
      && this in repr && inner <= repr && this !in inner
      && count == |entries| && Represents(chains, entries)
      && (buckets == null ==> bucketsCount == 0 && chains == [])
      && (buckets != null ==>
            && buckets in repr && buckets !in inner && bucketsCount == buckets.Length
            && Buckets(buckets, chains, inner))
    }

    ghost function Table(): T.Table
      reads this
    {
      T.Table(entries, bucketsCount, moved, minted, deleter, freed, handed)
    }

    constructor ()
      ensures Valid() && fresh(repr) && Table() == T.NEW_TABLE
    {
      buckets, bucketsCount, count, deleter := null, 0, 0, false;
      minted, moved, freed, handed := 0, 0, [], [];
      repr, inner, chains, entries := {this}, {}, [], map[];
    }

    method OnDelete(enabled: bool)
      requires Valid()
      modifies this`deleter
      ensures Valid() && Table() == old(Table()).(deleter := enabled)
    {
      deleter := enabled;
    }

    /** A new array of `size` buckets, holding everything the old buckets held. */
    method CarryOver(size: nat)
      returns (to: array<Bucket?>, n: nat, ghost chains': seq<Chain>, ghost inner': set<object>)
      requires Valid() && (size > 0 || count == 0)
      modifies inner
      ensures fresh(inner' + {to}) && this !in inner' && to !in inner' && to.Length == size
      ensures Buckets(to, chains', inner') && Represents(chains', entries) && n == |entries|
    {
      RehashSafely(chains, entries, size);
      chains' := Distribute(Empty(size), Flatten(chains));
      if buckets == null {
        to := new Bucket?[size](_ => null);
        n, inner' := 0, {};
      } else {
        to, n, inner' := Rehash(buckets, size, chains, inner);
      }
    }

    /** Rehashing into no buckets at all divides by zero unless the table is empty. */
    method Rebuild(size: nat)
      requires Valid() && (size > 0 || count == 0)
      modifies repr
      ensures Valid() && fresh(repr - old(repr)) && buckets != null
      ensures Table() == T.Rebuilt(old(Table()), size)
    {
      var newBuckets, n;
      ghost var chains', inner';
      newBuckets, n, chains', inner' := CarryOver(size);
      Install(newBuckets, n, chains', inner');
    }

    method Install(newBuckets: array<Bucket?>, n: nat, ghost chains': seq<Chain>, ghost inner': set<object>)
      modifies this
      ensures buckets == newBuckets && count == old(count)
      ensures chains == chains' && inner == inner' && repr == old(repr) + (inner' + {newBuckets})
      ensures Table() == old(Table()).(buckets := newBuckets.Length, moved := old(moved) + n)
    {
      buckets, bucketsCount, moved := newBuckets, newBuckets.Length, moved + n;
      chains, inner, repr := chains', inner', repr + (inner' + {newBuckets});
    }

    /** The deleter and the free of one value buffer. */
    method ReleaseBuffer(b: Buffer)
      modifies this`freed, this`handed
      ensures freed == old(freed) + [b]
      ensures handed == if deleter then old(handed) + [b] else old(handed)
    {
      if deleter {
        handed := handed + [b];
      }
      freed := freed + [b];
    }

    /** The new value takes the place of the key's buffer, or is one more. */
    method RecordValue(h: Hash, value: Bytes, prior: Option<Buffer>)
      requires count == |entries|
      requires prior == if h in entries then Some(entries[h]) else None
      requires !(h in entries && entries[h].bytes == value)
      modifies this`count, this`entries, this`minted, this`freed, this`handed
      ensures count == |entries|
      ensures Table() == T.Stored(old(Table()), h, value)
    {
      if prior.Some? {
        ReleaseBuffer(prior.value);
      } else {
        count := count + 1;
      }
      entries := entries[h := Buffer(minted, value)];
      minted := minted + 1;
    }

    /** What set with a value does to the table's own fields. */
    method RecordStore(h: Hash, value: Bytes, prior: Option<Buffer>, same: bool,
                       ghost chains': seq<Chain>, ghost inner': set<object>)
      requires count == |entries|
      requires prior == if h in entries then Some(entries[h]) else None
      requires same == (h in entries && entries[h].bytes == value)
      modifies this
      ensures buckets == old(buckets) && bucketsCount == old(bucketsCount)
      ensures count == |entries| && chains == chains' && inner == inner' && repr == old(repr) + inner'
      ensures Table() == T.Stored(old(Table()), h, value)
    {
      if !same {
        RecordValue(h, value, prior);
      }
      chains, inner, repr := chains', inner', repr + inner';
    }

    /** The locked body of set with a value. */
    method Store(h: Hash, value: Bytes)
      requires Valid() && bucketsCount > 0
      modifies repr
      ensures Valid() && fresh(repr - old(repr)) && bucketsCount > 0
      ensures Table() == T.Stored(old(Table()), h, value)
    {
      var prior, same;
      ghost var chains', inner';
      prior, same, chains', inner' := StoreIn(buckets, h, Buffer(minted, value), chains, inner, entries);
      RecordStore(h, value, prior, same, chains', inner');
      assert Buckets(buckets, chains, inner) && Represents(chains, entries);
    }

    method RecordErase(h: Hash, released: Option<Container>, ghost chains': seq<Chain>)
      requires count == |entries|
      requires released == if h in entries then Some(Container(h, entries[h])) else None
      modifies this
      ensures buckets == old(buckets) && bucketsCount == old(bucketsCount)
      ensures count == |entries| && chains == chains' && inner == old(inner) && repr == old(repr)
      ensures Table() == T.Removed(old(Table()), h) && entries == old(entries) - {h}
    {
      WithoutKey(entries, h);
      if released.Some? {
        ReleaseBuffer(released.value.data);
        count := count - 1;
        entries := entries - {h};
      }
      chains := chains';
    }

    /** The locked body of set with null. */
    method Erase(h: Hash)
      requires Valid() && bucketsCount > 0
      modifies repr
      ensures Valid() && fresh(repr - old(repr)) && bucketsCount == old(bucketsCount)
      ensures Table() == T.Removed(old(Table()), h)
    {
      var released;
      ghost var chains';
      released, chains' := RemoveIn(buckets, h, chains, inner, entries);
      RecordErase(h, released, chains');
      assert Buckets(buckets, chains, inner) && Represents(chains, entries);
    }

    /** The size check of set with a value, and the rebuild it may ask for. */
    method GrowIfFull()
      requires Valid()
      modifies repr
      ensures Valid() && fresh(repr - old(repr))
      ensures Table() == T.Resized(old(Table()), T.Grow(old(count), old(bucketsCount)))
    {
      if count + 1 > bucketsCount * 2 {
        var newsize := bucketsCount * 4;
        if newsize < T.START_SIZE {
          newsize := T.START_SIZE;
        }
        Rebuild(newsize);
      }
    }

    /** The size check of set with null: `count - 1` wraps around on an empty table. */
    method ShrinkIfSparse()
      requires Valid()
      modifies repr
      ensures Valid() && fresh(repr - old(repr))
      ensures Table() == T.Resized(old(Table()), T.Shrink(old(count), old(bucketsCount)))
    {
      if T.Predecessor(count) < bucketsCount / 8 {
        var newsize := bucketsCount / 4;
        if newsize > T.START_SIZE {
          Rebuild(newsize);
        }
      }
    }

    /** cflare_hashtable_set. Removing from a table that never had buckets is asserted away. */
    method Set(h: Hash, value: Option<Bytes>)
      requires Valid() && (value.None? ==> bucketsCount > 0)
      modifies repr
      ensures Valid() && fresh(repr - old(repr)) && bucketsCount > 0
      ensures value.Some? ==> Table() == T.Set(old(Table()), h, value.value)
      ensures value.None? ==> Table() == T.Remove(old(Table()), h)
    {
      ghost var between;
      if value.Some? {
        GrowIfFull();
        between := repr;
        Store(h, value.value);
      } else {
        ShrinkIfSparse();
        between := repr;
        Erase(h);
      }
      assert repr - old(repr) <= (repr - between) + (between - old(repr));
    }

    method Get(h: Hash) returns (found: Option<Buffer>)
      requires Valid()
      ensures found == if h in entries then Some(entries[h]) else None
    {
      found := None;
      if bucketsCount > 0 {
        found := FindIn(buckets, h, chains, inner, entries);
      }
    }

    /** free_container on each released container in turn. */
    method ReleaseAll(gone: Chain)
      modifies this`freed, this`handed
      ensures freed == old(freed) + Data(gone)
      ensures handed == old(handed) + if deleter then Data(gone) else []
    {
      for i := 0 to |gone|
        invariant freed == old(freed) + Data(gone[..i])
        invariant handed == old(handed) + if deleter then Data(gone[..i]) else []
      {
        ReleaseBuffer(gone[i].data);
        DataSnoc(gone, i);
      }
      assert gone[..|gone|] == gone;
    }

    /** cflare_hashtable_delete: every live buffer is released, each exactly once. */
    method Delete() returns (ghost released: Chain)
      requires Valid()
      modifies repr
      ensures Lists(released, old(entries))
      ensures freed == old(freed) + Data(released)
      ensures handed == old(handed) + if old(deleter) then Data(released) else []
    {
      released := Flatten(chains);
      FlattenListsAll(chains, entries);
      if buckets != null {
        var gone := DeleteBuckets(buckets, chains, inner);
        ReleaseAll(gone);
        buckets := null;
      } else {
        assert Data(released) == [];
      }
    }
  }
}
