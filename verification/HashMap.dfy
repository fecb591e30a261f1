/** The chained hash map that holds a schema's structs, enums and unions by name. */
module HashMap {
  import opened Bytes

  /** A key's content with the hash the map's function gives it; equal contents have equal hashes. */
  datatype Key = Key(content: bytes, hash: nat)

  /** The map does not look behind its values. */
  type Address = nat

  datatype Code = Okay | DuplicateKey | NotFound | NoMemory

  function BucketOf(k: Key, n: nat): (i: nat)
    requires n > 0
    ensures i < n
  {
    k.hash % n
  }

  class Entry {
    const key: Key
    const value: Address
    var next: Entry?

    constructor (key: Key, value: Address)
      ensures this.key == key && this.value == value && next == null
    {
      this.key, this.value, next := key, value, null;
    }
  }

  /** The chain starts at `head` and is linked in order by the entries' `next` fields, as `links` records them. */
  ghost predicate Linked(head: Entry?, chain: seq<Entry>, links: map<Entry, Entry?>) {
    && head == (if chain == [] then null else chain[0])
    && (forall j :: 0 <= j < |chain| ==> chain[j] in links)
    && (forall j :: 0 <= j < |chain| - 1 ==> links[chain[j]] == chain[j + 1])
    && (chain != [] ==> links[chain[|chain| - 1]] == null)
  }

  /** Bucket by bucket. */
  ghost predicate Wired(heads: seq<Entry?>, chains: seq<seq<Entry>>, links: map<Entry, Entry?>) {
    |heads| == |chains| && forall i :: 0 <= i < |chains| ==> Linked(heads[i], chains[i], links)
  }

  /** The `next` fields are what `links` records. */
  ghost predicate Recorded(links: map<Entry, Entry?>)
    reads links.Keys
  {
    forall e :: e in links ==> e.next == links[e]
  }

  lemma {:induction false} WiredFront(heads: seq<Entry?>, chains: seq<seq<Entry>>,
                                      links: map<Entry, Entry?>, b: nat, entry: Entry)
    requires Wired(heads, chains, links) && b < |heads| && entry !in links
    ensures Wired(heads[b := entry], chains[b := [entry] + chains[b]], links[entry := heads[b]])
  {
    var links' := links[entry := heads[b]];
    var chain := [entry] + chains[b];
    forall i | 0 <= i < |chains| && i != b ensures Linked(heads[i], chains[i], links') {
      assert Linked(heads[i], chains[i], links);
    }
    assert Linked(heads[b], chains[b], links);
    forall j | 0 <= j < |chain| - 1 ensures links'[chain[j]] == chain[j + 1] {
      if j > 0 { assert chain[j] == chains[b][j - 1] && chain[j + 1] == chains[b][j]; }
    }
    assert chains[b] != [] ==> chain[|chain| - 1] == chains[b][|chains[b]| - 1];
  }

  /** The links once entry `j` of a chain is bypassed. */
  ghost function Bypass(links: map<Entry, Entry?>, chain: seq<Entry>, j: nat): map<Entry, Entry?>
    requires j < |chain| && forall k :: 0 <= k < |chain| ==> chain[k] in links
  {
    (if j == 0 then links else links[chain[j - 1] := links[chain[j]]]) - {chain[j]}
  }

  lemma {:induction false} WiredWithout(heads: seq<Entry?>, chains: seq<seq<Entry>>,
                                        links: map<Entry, Entry?>, b: nat, j: nat)
    requires Wired(heads, chains, links) && b < |chains| && j < |chains[b]|
    requires forall k, l :: 0 <= k < l < |chains[b]| ==> chains[b][k] != chains[b][l]
    requires forall i, e :: 0 <= i < |chains| && i != b && e in chains[i] ==> e !in chains[b]
    ensures Linked(heads[b], chains[b], links)
    ensures Wired(if j == 0 then heads[b := links[chains[b][0]]] else heads,
                  chains[b := chains[b][..j] + chains[b][j + 1..]], Bypass(links, chains[b], j))
  {
    var chain := chains[b];
    assert Linked(heads[b], chain, links);
    var links' := Bypass(links, chain, j);
    forall i | 0 <= i < |chains| && i != b ensures Linked(heads[i], chains[i], links') {
      assert Linked(heads[i], chains[i], links);
      forall k | 0 <= k < |chains[i]| ensures chains[i][k] !in chain { assert chains[i][k] in chains[i]; }
    }
    ChainWithout(heads[b], chain, links, j);
  }

  lemma {:induction false} ChainWithout(head: Entry?, chain: seq<Entry>,
                                        links: map<Entry, Entry?>, j: nat)
    requires Linked(head, chain, links) && j < |chain|
    requires forall k, l :: 0 <= k < l < |chain| ==> chain[k] != chain[l]
    ensures Linked(if j == 0 then links[chain[0]] else head, chain[..j] + chain[j + 1..], Bypass(links, chain, j))
  {
    var rest := chain[..j] + chain[j + 1..];
    var links' := Bypass(links, chain, j);
    forall k | 0 <= k < |rest|
      ensures rest[k] in links'
      ensures k + 1 < |rest| ==> links'[rest[k]] == rest[k + 1]
      ensures k + 1 == |rest| ==> links'[rest[k]] == null
    {
      var was := if k < j then k else k + 1;
      assert rest[k] == chain[was] && chain[was] != chain[j];
      assert k + 1 < |rest| ==> rest[k + 1] == chain[if k + 1 < j then k + 1 else k + 2];
      assert j > 0 && was != j - 1 ==> chain[was] != chain[j - 1];
      assert was + 1 < |chain| ==> links[chain[was]] == chain[was + 1];
      assert j + 1 < |chain| ==> links[chain[j]] == chain[j + 1];
    }
    assert rest != [] ==> rest[0] == chain[if j == 0 then 1 else 0];
    assert |chain| > 1 ==> links[chain[0]] == chain[1];
  }

  lemma {:induction false} RecordMore(links: map<Entry, Entry?>, entry: Entry)
    requires Recorded(links)
    ensures Recorded(links[entry := entry.next])
  {
  }

  // ----- Where the entries are -----

  /** Entries of `index`, without repetition, whose keys hash to bucket `i` of `n`. */
  ghost predicate InBucket(i: nat, n: nat, chain: seq<Entry>, index: map<Key, Entry>)
    requires n > 0
  {
    && (forall e :: e in chain ==> e.key in index && index[e.key] == e && BucketOf(e.key, n) == i)
    && (forall j, k :: 0 <= j < k < |chain| ==> chain[j] != chain[k])
  }

  /** The chains hold exactly the entries of `index` that are in `done`. */
  ghost predicate Placed(chains: seq<seq<Entry>>, index: map<Key, Entry>, done: set<Entry>) {
    && |chains| > 0
    && (forall i :: 0 <= i < |chains| ==> InBucket(i, |chains|, chains[i], index))
    && (forall i, e :: 0 <= i < |chains| && e in chains[i] ==> e in done)
    && (forall e :: e in done ==> e in chains[BucketOf(e.key, |chains|)])
  }

  /** The index gives each key its entry, one of the placed ones. */
  ghost predicate Indexed(index: map<Key, Entry>, nodes: set<Entry>) {
    forall k :: k in index ==> index[k].key == k && index[k] in nodes
  }

  lemma {:induction false} IndexMore(index: map<Key, Entry>, nodes: set<Entry>, entry: Entry)
    requires Indexed(index, nodes)
    ensures Indexed(index[entry.key := entry], nodes + {entry})
  {
  }

  /** The chain of a key's bucket holds the key's entry, if there is one, and entries of the index only. */
  lemma {:induction false} ChainHolds(chains: seq<seq<Entry>>, index: map<Key, Entry>,
                                      nodes: set<Entry>, k: Key)
    requires Placed(chains, index, nodes) && Indexed(index, nodes)
    ensures var chain := chains[BucketOf(k, |chains|)];
            && (k in index ==> index[k] in chain)
            && (forall e :: e in chain ==> e.key in index && index[e.key] == e)
  {
    var b := BucketOf(k, |chains|);
    assert InBucket(b, |chains|, chains[b], index);
  }

  lemma {:induction false} PlaceOne(chains: seq<seq<Entry>>, index: map<Key, Entry>,
                                    done: set<Entry>, e: Entry)
    requires Placed(chains, index, done) && e !in done && e.key in index && index[e.key] == e
    ensures var b := BucketOf(e.key, |chains|); Placed(chains[b := [e] + chains[b]], index, done + {e})
  {
    var b := BucketOf(e.key, |chains|);
    var chains' := chains[b := [e] + chains[b]];
    assert InBucket(b, |chains|, chains[b], index);
    assert InBucket(b, |chains|, chains'[b], index);
    forall f | f in done + {e} ensures f in chains'[BucketOf(f.key, |chains|)] {
      if f != e { assert f in chains[BucketOf(f.key, |chains|)]; }
    }
  }

  /** A key that was not there. */
  lemma {:induction false} MoreKeys(chains: seq<seq<Entry>>, index: map<Key, Entry>,
                                    done: set<Entry>, e: Entry)
    requires Placed(chains, index, done) && e.key !in index
    ensures Placed(chains, index[e.key := e], done)
  {
    forall i | 0 <= i < |chains| ensures InBucket(i, |chains|, chains[i], index[e.key := e]) {
      assert InBucket(i, |chains|, chains[i], index);
    }
  }

  lemma {:induction false} TakeOut(chains: seq<seq<Entry>>, index: map<Key, Entry>,
                                   done: set<Entry>, b: nat, j: nat)
    requires Placed(chains, index, done) && b < |chains| && j < |chains[b]|
    ensures var e := chains[b][j]; var rest := chains[b][..j] + chains[b][j + 1..];
            Placed(chains[b := rest], index - {e.key}, done - {e})
  {
    var e := chains[b][j];
    var rest := chains[b][..j] + chains[b][j + 1..];
    var chains' := chains[b := rest];
    assert InBucket(b, |chains|, chains[b], index);
    assert e in chains[b];
    forall f | f in rest ensures f in chains[b] && f != e {
    }
    forall i | 0 <= i < |chains| ensures InBucket(i, |chains|, chains'[i], index - {e.key}) {
      assert InBucket(i, |chains|, chains[i], index);
    }
    forall f | f in done - {e} ensures f in chains'[BucketOf(f.key, |chains|)] {
      assert f in chains[BucketOf(f.key, |chains|)];
      if BucketOf(f.key, |chains|) == b {
        var k :| 0 <= k < |chains[b]| && chains[b][k] == f;
        assert k != j;
        assert if k < j then rest[k] == f else rest[k - 1] == f;
      }
    }
  }

  /** The first entry of the chain with this key, and the entry before it. */
  method Walk(head: Entry?, ghost chain: seq<Entry>, ghost links: map<Entry, Entry?>, k: Key)
    returns (prev: Entry?, found: Entry?, ghost j: nat)
    requires Linked(head, chain, links) && Recorded(links)
    ensures found == null ==> forall e :: e in chain ==> e.key != k
    ensures found != null ==> j < |chain| && found == chain[j] && found.key == k
    ensures found != null ==> prev == if j == 0 then null else chain[j - 1]
  {
    j := 0;
    prev, found := null, head;
    while found != null
      invariant 0 <= j <= |chain| && found == if j < |chain| then chain[j] else null
      invariant prev == if j == 0 then null else chain[j - 1]
      invariant forall m :: 0 <= m < j ==> chain[m].key != k
      decreases |chain| - j
    {
      if found.key == k { return; }
      prev := found;
      found := found.next;
      j := j + 1;
    }
  }

  method MakeFirst(entry: Entry, buckets: array<Entry?>, b: nat, ghost links: map<Entry, Entry?>)
    requires b < buckets.Length && entry !in links && Recorded(links)
    modifies entry, buckets
    ensures buckets[..] == old(buckets[..])[b := entry] && Recorded(links[entry := old(buckets[b])])
  {
    hide Recorded;
    entry.next := buckets[b];
    RecordMore(links, entry);
    buckets[b] := entry;
    assert buckets[..] == old(buckets[..])[b := entry];
  }

  // ----- The map -----

  /** What the heap holds: the chains, the `next` fields, and the entry of each key. */
  datatype Shape = Shape(chains: seq<seq<Entry>>, links: map<Entry, Entry?>, index: map<Key, Entry>)

  ghost predicate Sound(heads: seq<Entry?>, g: Shape) {
    && |heads| == |g.chains| > 0
    && Indexed(g.index, g.links.Keys) && Placed(g.chains, g.index, g.links.Keys) && Wired(heads, g.chains, g.links)
  }

  ghost function Added(heads: seq<Entry?>, g: Shape, entry: Entry): Shape
    requires |heads| == |g.chains| > 0
  {
    var b := BucketOf(entry.key, |heads|);
    Shape(g.chains[b := [entry] + g.chains[b]], g.links[entry := heads[b]], g.index[entry.key := entry])
  }

  lemma {:induction false} AddedIsSound(heads: seq<Entry?>, g: Shape, entry: Entry)
    requires Sound(heads, g) && entry !in g.links && entry.key !in g.index
    ensures Sound(heads[BucketOf(entry.key, |heads|) := entry], Added(heads, g, entry))
    ensures Added(heads, g, entry).links.Keys == g.links.Keys + {entry}
    ensures |Added(heads, g, entry).index| == |g.index| + 1
  {
    hide BucketOf, Placed, Wired, Indexed;
    MoreKeys(g.chains, g.index, g.links.Keys, entry);
    PlaceOne(g.chains, g.index[entry.key := entry], g.links.Keys, entry);
    IndexMore(g.index, g.links.Keys, entry);
    WiredFront(heads, g.chains, g.links, BucketOf(entry.key, |heads|), entry);
    assert g.links[entry := heads[BucketOf(entry.key, |heads|)]].Keys == g.links.Keys + {entry};
  }

  lemma {:induction false} AddedHas(heads: seq<Entry?>, g: Shape, entry: Entry)
    requires Sound(heads, g)
    ensures |heads| == |g.chains| > 0 && Added(heads, g, entry).index == g.index[entry.key := entry]
    ensures Added(heads, g, entry).links == g.links[entry := heads[BucketOf(entry.key, |heads|)]]
  {
  }

  /** Entry `j` of chain `b` is taken out. */
  ghost function Removed(g: Shape, b: nat, j: nat): Shape
    requires b < |g.chains| && j < |g.chains[b]| && forall e :: e in g.chains[b] ==> e in g.links
  {
    var chain := g.chains[b];
    Shape(g.chains[b := chain[..j] + chain[j + 1..]], Bypass(g.links, chain, j), g.index - {chain[j].key})
  }

  lemma {:induction false} RemovedIsSound(heads: seq<Entry?>, g: Shape, b: nat, j: nat)
    requires Sound(heads, g) && b < |g.chains| && j < |g.chains[b]|
    ensures var chain := g.chains[b];
            && (forall e :: e in chain ==> e in g.links)
            && Sound(if j == 0 then heads[b := g.links[chain[0]]] else heads, Removed(g, b, j))
            && NoRepeats(chain) && Linked(heads[b], chain, g.links)
  {
    hide BucketOf, Placed, Wired, Bypass, Linked;
    var chain := g.chains[b];
    ChainsApart(g.chains, g.index, g.links.Keys, b);
    WiredWithout(heads, g.chains, g.links, b, j);
    BypassIs(heads[b], g.links, chain, j);
    TakeOut(g.chains, g.index, g.links.Keys, b, j);
    OtherKeys(g.chains, g.index, g.links.Keys, b, j);
  }

  lemma {:induction false} RemovedHas(heads: seq<Entry?>, g: Shape, b: nat, j: nat)
    requires Sound(heads, g) && b < |g.chains| && j < |g.chains[b]|
    ensures (forall e :: e in g.chains[b] ==> e in g.links) && NoRepeats(g.chains[b])
    ensures var entry := g.chains[b][j]; var g' := Removed(g, b, j);
            && g'.index == g.index - {entry.key} && |g'.index| + 1 == |g.index|
            && g'.links == Bypass(g.links, g.chains[b], j) && g'.links.Keys == g.links.Keys - {entry}
  {
    hide BucketOf, Placed, Wired, Bypass, Linked, Indexed;
    RemovedIsSound(heads, g, b, j);
    BypassIs(heads[b], g.links, g.chains[b], j);
    OtherKeys(g.chains, g.index, g.links.Keys, b, j);
  }

  lemma {:induction false} OtherKeys(chains: seq<seq<Entry>>, index: map<Key, Entry>, nodes: set<Entry>, b: nat, j: nat)
    requires Indexed(index, nodes) && Placed(chains, index, nodes) && b < |chains| && j < |chains[b]|
    ensures Indexed(index - {chains[b][j].key}, nodes - {chains[b][j]})
    ensures chains[b][j].key in index && index[chains[b][j].key] == chains[b][j]
  {
    assert InBucket(b, |chains|, chains[b], index) && chains[b][j] in chains[b];
  }

  /** Nothing is assumed of the hashes; allocations may fail. */
  class Table {
    var buckets: array<Entry?>
    var size: nat
    ghost var g: Shape

    ghost function Repr(): set<object>
      reads this
    {
      {this, buckets} + set e | e in g.links
    }

    /** Each entry in the chain its key hashes to, and never more than one beyond three quarters full. */
    ghost predicate Valid()
      reads this, Repr()
    {
      && Sound(buckets[..], g) && Recorded(g.links)
      && size == |g.index| && 4 * (size - 1) < 3 * buckets.Length
    }

    /** The bindings. */
    ghost function Contents(): map<Key, Address>
      reads this
    {
      map k | k in g.index :: g.index[k].value
    }

    constructor (bucketCount: nat)
      requires bucketCount > 0
      ensures Valid() && fresh(Repr()) && Contents() == map[]
    {
      buckets := new Entry?[bucketCount](_ => null);
      size, g := 0, Shape(seq(bucketCount, _ => []), map[], map[]);
      new;
      NothingPlaced(buckets[..], g.chains, map[]);
    }

    /** The chain of the key's bucket, searched from its head. */
    method Lookup(k: Key) returns (prev: Entry?, found: Entry?, ghost j: nat)
      requires Valid()
      ensures found == if k in g.index then g.index[k] else null
      ensures |g.chains| > 0 && (found != null ==>
                var chain := g.chains[BucketOf(k, |g.chains|)];
                j < |chain| && found == chain[j] && found.key == k && prev == if j == 0 then null else chain[j - 1])
    {
      hide BucketOf, Placed, Linked, Recorded;
      ChainHolds(g.chains, g.index, g.links.Keys, k);
      ghost var b := BucketOf(k, |g.chains|);
      assert buckets[..][b] == buckets[BucketOf(k, buckets.Length)];
      prev, found, j := Walk(buckets[BucketOf(k, buckets.Length)], g.chains[b], g.links, k);
      if found != null { assert found in g.chains[b]; }
    }

    method Find(k: Key) returns (code: Code, value: Option<Address>)
      requires Valid()
      ensures (code, value) == if k in Contents() then (Okay, Some(Contents()[k])) else (NotFound, None)
    {
      hide BucketOf, Sound, Recorded;
      var _, entry, _ := Lookup(k);
      if entry == null { return NotFound, None; }
      return Okay, Some(entry.value);
    }

    /** `moreMemory` and `memory` say whether the two allocations succeed. */
    method Insert(k: Key, v: Address, moreMemory: bool, memory: bool) returns (code: Code)
      requires Valid()
      modifies Repr()
      ensures Valid() && fresh(Repr() - old(Repr()))
      ensures Contents() == if code == Okay then old(Contents())[k := v] else old(Contents())
      ensures code == Okay ==> k !in old(Contents())
      ensures code == DuplicateKey ==> k in old(Contents())
      ensures code == NoMemory ==> !moreMemory || !memory
      ensures moreMemory && memory ==> code == if k in old(Contents()) then DuplicateKey else Okay
    {
      hide BucketOf, Sound, Recorded;
      var resized := ResizeIfNeeded(moreMemory);
      if !resized { return NoMemory; }
      var _, entry, _ := Lookup(k);
      if entry != null { return DuplicateKey; }
      if !memory { return NoMemory; }
      Add(k, v);
      code := Okay;
    }

    method Add(k: Key, v: Address)
      requires Valid() && k !in g.index && 4 * size < 3 * buckets.Length
      modifies this, buckets
      ensures Valid() && fresh(Repr() - old(Repr()))
      ensures Contents() == old(Contents())[k := v]
    {
      hide BucketOf, Sound, Recorded;
      var entry := new Entry(k, v);
      AddFirst(entry);
    }

    method AddFirst(entry: Entry)
      requires Valid() && entry !in Repr() && entry.key !in g.index && 4 * size < 3 * buckets.Length
      modifies this, buckets, entry
      ensures Valid()
      ensures Repr() <= old(Repr()) + {entry}
      ensures g.index == old(g.index)[entry.key := entry]
    {
      hide BucketOf, Sound, Recorded, Added;
      AddedIsSound(buckets[..], g, entry);
      AddedHas(buckets[..], g, entry);
      var b := BucketOf(entry.key, buckets.Length);
      ghost var g' := Added(buckets[..], g, entry);
      MakeFirst(entry, buckets, b, g.links);
      Adopt(g');
    }

    method Adopt(ghost g': Shape)
      requires Sound(buckets[..], g') && Recorded(g'.links) && |g'.index| == size + 1 && 4 * size < 3 * buckets.Length
      modifies this
      ensures Valid() && g == g' && buckets == old(buckets) && size == old(size) + 1
    {
      hide Sound;
      g := g';
      size := size + 1;
    }

    /** A full enough table is doubled; the bindings stay. */
    method ResizeIfNeeded(memory: bool) returns (ok: bool)
      requires Valid()
      modifies Repr()
      ensures Valid() && fresh(Repr() - old(Repr())) && g.index == old(g.index)
      ensures ok ==> 4 * size < 3 * buckets.Length
      ensures !ok ==> !memory
    {
      hide BucketOf, Placed, Wired, Indexed, Recorded;
      if 4 * size < 3 * buckets.Length { return true; }
      if !memory { return false; }
      ghost var chains, links;
      var newBuckets;
      newBuckets, chains, links := Rehash();
      g := Shape(chains, links, g.index);
      buckets := newBuckets;
      ok := true;
    }

    /** The entries of the buckets before `i` are in the new ones, the rest where they were. */
    ghost predicate HalfMoved(i: nat, newBuckets: array<Entry?>, chains: seq<seq<Entry>>, links: map<Entry, Entry?>)
      reads this, buckets, newBuckets, g.links.Keys, links.Keys
    {
      && |chains| == newBuckets.Length > 0 && buckets.Length > 0
      && Placed(chains, g.index, links.Keys) && Wired(newBuckets[..], chains, links)
      && links.Keys == Before(g.links.Keys, buckets.Length, i) && Recorded(links)
      && forall e :: e in g.links && e !in links ==> e.next == g.links[e]
    }

    method RehashBucket(i: nat, newBuckets: array<Entry?>, ghost chains: seq<seq<Entry>>, ghost links: map<Entry, Entry?>)
      returns (ghost chains': seq<seq<Entry>>, ghost links': map<Entry, Entry?>)
      requires i < buckets.Length && newBuckets != buckets && Sound(buckets[..], g)
      requires HalfMoved(i, newBuckets, chains, links)
      modifies newBuckets, g.links.Keys
      ensures HalfMoved(i + 1, newBuckets, chains', links')
    {
      hide BucketOf, Placed, Wired, Linked, Indexed, Before, InBucket, NoRepeats, Recorded;
      NextBucket(buckets[..], g.chains, g.links, g.index, i);
      chains', links' := MoveChain(buckets[i], g.chains[i], g.links, newBuckets, chains, links, g.index);
    }

    /** Bucket by bucket into an array of twice the size. */
    method Rehash() returns (newBuckets: array<Entry?>, ghost chains: seq<seq<Entry>>, ghost links: map<Entry, Entry?>)
      requires Valid()
      modifies g.links.Keys
      ensures fresh(newBuckets) && newBuckets.Length == 2 * buckets.Length
      ensures links.Keys == g.links.Keys && Recorded(links)
      ensures |chains| == newBuckets.Length && Placed(chains, g.index, links.Keys) && Wired(newBuckets[..], chains, links)
    {
      hide BucketOf, Placed, Wired, Linked, Indexed, Before, InBucket, NoRepeats, SetOf;
      var n := buckets.Length;
      newBuckets := new Entry?[n * 2](_ => null);
      chains, links := seq(n * 2, _ => []), map[];
      ghost var heads := newBuckets[..];
      NothingPlaced(heads, chains, g.index);
      assert links.Keys == {};
      NothingBefore(g.links.Keys, n);
      for i := 0 to n
        invariant newBuckets.Length == n * 2 && fresh(newBuckets) && HalfMoved(i, newBuckets, chains, links)
      {
        chains, links := RehashBucket(i, newBuckets, chains, links);
      }
      AllBefore(g.links.Keys, n);
    }

    method Delete(k: Key) returns (code: Code)
      requires Valid()
      modifies Repr()
      ensures Valid() && Repr() <= old(Repr())
      ensures code == if k in old(Contents()) then Okay else NotFound
      ensures Contents() == old(Contents()) - {k}
    {
      hide BucketOf, Sound, Recorded;
      var prev, entry, j := Lookup(k);
      if entry == null {
        assert Contents() == Contents() - {k};
        return NotFound;
      }
      Remove(prev, entry, j);
      return Okay;
    }

    /** Unlinks an entry, wherever it is in its chain. */
    method Remove(prev: Entry?, entry: Entry, ghost j: nat)
      requires Valid() && entry.key in g.index && j < |g.chains[BucketOf(entry.key, |g.chains|)]|
      requires var chain := g.chains[BucketOf(entry.key, |g.chains|)];
               entry == chain[j] && prev == if j == 0 then null else chain[j - 1]
      modifies Repr()
      ensures Valid() && Repr() <= old(Repr())
      ensures g.index == old(g.index) - {entry.key}
    {
      hide BucketOf, Placed, Wired, Linked, Indexed, Bypass, Removed, Recorded, NoRepeats;
      var b := BucketOf(entry.key, buckets.Length);
      RemovedIsSound(buckets[..], g, b, j);
      RemovedHas(buckets[..], g, b, j);
      ghost var g' := Removed(g, b, j);
      Unlink(b, prev, entry, j);
      Drop(g');
    }

    method Drop(ghost g': Shape)
      requires Sound(buckets[..], g') && Recorded(g'.links) && |g'.index| + 1 == size && 4 * (size - 1) < 3 * buckets.Length
      modifies this
      ensures Valid() && g == g' && buckets == old(buckets)
    {
      hide Sound;
      g := g';
      size := size - 1;
    }

    method Unlink(b: nat, prev: Entry?, entry: Entry, ghost j: nat)
      requires b < buckets.Length && |g.chains| == buckets.Length && Linked(buckets[b], g.chains[b], g.links)
      requires NoRepeats(g.chains[b]) && Recorded(g.links)
      requires j < |g.chains[b]| && entry == g.chains[b][j] && prev == if j == 0 then null else g.chains[b][j - 1]
      modifies buckets, prev
      ensures buckets[..] == if j == 0 then old(buckets[..])[b := g.links[entry]] else old(buckets[..])
      ensures entry in g.links && Recorded(Bypass(g.links, g.chains[b], j))
    {
      hide Linked, Bypass;
      BypassIs(buckets[b], g.links, g.chains[b], j);
      if prev == null { buckets[b] := entry.next; } else { prev.next := entry.next; }
    }

    /** What a caller's function is given, bucket by bucket. */
    method ForEach() returns (visited: seq<(Key, Address)>)
      requires Valid()
      ensures forall k :: k in Contents() ==> (k, Contents()[k]) in visited
      ensures forall v :: v in visited ==> v.0 in Contents() && Contents()[v.0] == v.1
      ensures forall i, j :: 0 <= i < j < |visited| ==> visited[i].0 != visited[j].0
      ensures |visited| == size == |Contents()|
    {
      hide BucketOf, Placed, Wired, Linked, InBucket, Before, SameBindings, NoRepeats, Recorded;
      visited := [];
      NothingBefore(g.links.Keys, |g.chains|);
      NothingSeen();
      ghost var seen: seq<Entry> := [];
      for i := 0 to buckets.Length
        invariant SameBindings(visited, seen) && NoRepeats(seen)
        invariant SetOf(seen) == Before(g.links.Keys, |g.chains|, i)
      {
        NextBucket(buckets[..], g.chains, g.links, g.index, i);
        var more := VisitChain(buckets[i], g.chains[i], g.links);
        JoinSeen(visited, seen, more, g.chains[i]);
        visited := visited + more;
        seen := seen + g.chains[i];
      }
      AllBefore(g.links.Keys, |g.chains|);
      NodesIndexed(g.chains, g.index, g.links.Keys);
      VisitedAll(visited, seen, g.index);
      SameCount(g.index, Contents());
    }
  }

  lemma {:induction false} SameCount(index: map<Key, Entry>, contents: map<Key, Address>)
    requires index.Keys == contents.Keys
    ensures |index| == |contents|
  {
    assert |index| == |index.Keys| && |contents| == |contents.Keys|;
  }

  /** The entries of the buckets before `i`. */
  ghost function Before(nodes: set<Entry>, n: nat, i: nat): set<Entry>
    requires n > 0
  {
    set e | e in nodes && BucketOf(e.key, n) < i
  }

  lemma {:induction false} AllBefore(nodes: set<Entry>, n: nat)
    requires n > 0
    ensures Before(nodes, n, n) == nodes
  {
  }

  lemma {:induction false} NothingPlaced(heads: seq<Entry?>, chains: seq<seq<Entry>>,
                                         index: map<Key, Entry>)
    requires |heads| == |chains| > 0 && (forall c :: c in chains ==> c == []) && forall h :: h in heads ==> h == null
    ensures Placed(chains, index, {}) && Wired(heads, chains, map[])
  {
    forall i | 0 <= i < |chains| ensures chains[i] == [] && heads[i] == null {
      assert chains[i] in chains && heads[i] in heads;
    }
  }

  /** Bucket `i` holds what is to be added to the buckets before it. */
  lemma {:induction false} NextBucket(heads: seq<Entry?>, chains: seq<seq<Entry>>,
                                      links: map<Entry, Entry?>, index: map<Key, Entry>, i: nat)
    requires i < |chains| && Placed(chains, index, links.Keys) && Wired(heads, chains, links)
    ensures Linked(heads[i], chains[i], links) && NoRepeats(chains[i])
    ensures var n := |chains|;
            && Before(links.Keys, n, i + 1) == Before(links.Keys, n, i) + SetOf(chains[i])
            && forall e :: e in chains[i] ==> e in links && e !in Before(links.Keys, n, i) && e.key in index && index[e.key] == e
  {
    hide BucketOf, Linked;
    assert InBucket(i, |chains|, chains[i], index);
    BucketAdded(chains, index, links.Keys, i);
  }

  lemma {:induction false} BucketAdded(chains: seq<seq<Entry>>, index: map<Key, Entry>,
                                       nodes: set<Entry>, i: nat)
    requires i < |chains| && Placed(chains, index, nodes)
    ensures Before(nodes, |chains|, i + 1) == Before(nodes, |chains|, i) + SetOf(chains[i])
    ensures forall e :: e in chains[i] ==> e !in Before(nodes, |chains|, i)
  {
    var n := |chains|;
    assert InBucket(i, n, chains[i], index);
    forall e | e in Before(nodes, n, i + 1) && e !in Before(nodes, n, i) ensures e in chains[i] {
      assert BucketOf(e.key, n) == i;
    }
  }

  lemma {:induction false} NodesIndexed(chains: seq<seq<Entry>>, index: map<Key, Entry>,
                                        nodes: set<Entry>)
    requires Placed(chains, index, nodes)
    ensures forall e :: e in nodes ==> e.key in index && index[e.key] == e
  {
    forall e | e in nodes ensures e.key in index && index[e.key] == e {
      var b := BucketOf(e.key, |chains|);
      assert InBucket(b, |chains|, chains[b], index);
    }
  }

  /** Every entry of an old chain becomes the first of its new one. */
  method MoveChain(head: Entry?, ghost chain: seq<Entry>,
                   ghost links: map<Entry, Entry?>, newBuckets: array<Entry?>,
                   ghost chains: seq<seq<Entry>>, ghost newLinks: map<Entry, Entry?>,
                   ghost index: map<Key, Entry>)
    returns (ghost chains': seq<seq<Entry>>, ghost links': map<Entry, Entry?>)
    requires Linked(head, chain, links) && NoRepeats(chain) && newBuckets.Length == |chains| > 0
    requires forall e :: e in chain ==> e in links && e.next == links[e]
    requires forall e :: e in chain ==> e !in newLinks && e.key in index && index[e.key] == e
    requires Placed(chains, index, newLinks.Keys) && Wired(newBuckets[..], chains, newLinks) && Recorded(newLinks)
    modifies newBuckets, chain
    ensures |chains'| == |chains| && links'.Keys == newLinks.Keys + SetOf(chain)
    ensures Placed(chains', index, links'.Keys) && Wired(newBuckets[..], chains', links') && Recorded(links')
  {
    hide BucketOf, Placed, Wired, Linked, SetOf, Recorded;
    chains', links' := chains, newLinks;
    var entry := head;
    ghost var j := 0;
    FirstOf(head, chain, links);
    MembersUpTo(chain, 0);
    while entry != null
      invariant 0 <= j <= |chain| && |chains'| == |chains| && entry == if j < |chain| then chain[j] else null
      invariant links'.Keys == newLinks.Keys + SetOf(chain[..j])
      invariant forall k :: j <= k < |chain| ==> chain[k] !in links' && chain[k].next == links[chain[k]]
      invariant Placed(chains', index, links'.Keys) && Wired(newBuckets[..], chains', links') && Recorded(links')
      decreases |chain| - j
    {
      var next := entry.next;
      NextOf(head, chain, links, j);
      MembersUpTo(chain, j);
      chains', links' := MoveOne(entry, newBuckets, chains', links', index);
      entry := next;
      j := j + 1;
    }
    assert chain[..j] == chain;
  }

  lemma {:induction false} FirstOf(head: Entry?, chain: seq<Entry>, links: map<Entry, Entry?>)
    requires Linked(head, chain, links)
    ensures head == if chain == [] then null else chain[0]
  {
  }

  lemma {:induction false} NextOf(head: Entry?, chain: seq<Entry>, links: map<Entry, Entry?>, j: nat)
    requires Linked(head, chain, links) && j < |chain|
    ensures chain[j] in links && links[chain[j]] == (if j + 1 < |chain| then chain[j + 1] else null) && chain[j] in chain
  {
  }

  lemma {:induction false} MembersUpTo(chain: seq<Entry>, j: nat)
    requires j <= |chain|
    ensures j == 0 ==> SetOf(chain[..j]) == {}
    ensures j < |chain| ==> SetOf(chain[..j + 1]) == SetOf(chain[..j]) + {chain[j]}
  {
    if j < |chain| { assert chain[..j + 1] == chain[..j] + [chain[j]]; }
  }

  method MoveOne(entry: Entry, newBuckets: array<Entry?>, ghost chains: seq<seq<Entry>>, ghost links: map<Entry, Entry?>,
                 ghost index: map<Key, Entry>)
    returns (ghost chains': seq<seq<Entry>>, ghost links': map<Entry, Entry?>)
    requires newBuckets.Length == |chains| > 0 && entry !in links && entry.key in index && index[entry.key] == entry
    requires Placed(chains, index, links.Keys) && Wired(newBuckets[..], chains, links) && Recorded(links)
    modifies newBuckets, entry
    ensures |chains'| == |chains| && links'.Keys == links.Keys + {entry}
    ensures Placed(chains', index, links'.Keys) && Wired(newBuckets[..], chains', links') && Recorded(links')
  {
    hide BucketOf, Placed, Wired, Recorded;
    var b := BucketOf(entry.key, newBuckets.Length);
    PlaceOne(chains, index, links.Keys, entry);
    WiredFront(newBuckets[..], chains, links, b, entry);
    chains', links' := chains[b := [entry] + chains[b]], links[entry := newBuckets[b]];
    MakeFirst(entry, newBuckets, b, links);
    assert links'.Keys == links.Keys + {entry};
  }

  /** Chains of different buckets share no entry. */
  lemma {:induction false} ChainsApart(chains: seq<seq<Entry>>, index: map<Key, Entry>,
                                       nodes: set<Entry>, b: nat)
    requires Placed(chains, index, nodes) && b < |chains|
    ensures forall i, e :: 0 <= i < |chains| && i != b && e in chains[i] ==> e !in chains[b]
    ensures forall k, l :: 0 <= k < l < |chains[b]| ==> chains[b][k] != chains[b][l]
  {
    assert InBucket(b, |chains|, chains[b], index);
    forall i, e | 0 <= i < |chains| && i != b && e in chains[i] ensures e !in chains[b] {
      assert InBucket(i, |chains|, chains[i], index);
    }
  }

  lemma {:induction false} BypassIs(head: Entry?, links: map<Entry, Entry?>, chain: seq<Entry>, j: nat)
    requires Linked(head, chain, links) && j < |chain| && NoRepeats(chain)
    ensures var m := Bypass(links, chain, j);
            && m.Keys == links.Keys - {chain[j]} && chain[j] in links
            && (forall e :: e in m && (j == 0 || e != chain[j - 1]) ==> m[e] == links[e])
            && (j > 0 ==> chain[j - 1] in m && m[chain[j - 1]] == links[chain[j]])
  {
  }

  // ----- Visiting -----

  ghost predicate SameBindings(visited: seq<(Key, Address)>, seen: seq<Entry>) {
    |visited| == |seen| && forall i :: 0 <= i < |seen| ==> visited[i] == (seen[i].key, seen[i].value)
  }

  method VisitChain(head: Entry?, ghost chain: seq<Entry>, ghost links: map<Entry, Entry?>)
    returns (visited: seq<(Key, Address)>)
    requires Linked(head, chain, links) && Recorded(links)
    ensures SameBindings(visited, chain)
  {
    visited := [];
    var entry := head;
    while entry != null
      invariant |visited| <= |chain| && entry == if |visited| < |chain| then chain[|visited|] else null
      invariant SameBindings(visited, chain[..|visited|])
      decreases |chain| - |visited|
    {
      visited := visited + [(entry.key, entry.value)];
      entry := entry.next;
    }
    assert chain[..|visited|] == chain;
  }

  lemma {:induction false} NothingBefore(nodes: set<Entry>, n: nat)
    requires n > 0
    ensures Before(nodes, n, 0) == {}
  {
  }

  lemma {:induction false} NothingSeen()
    ensures SameBindings([], []) && NoRepeats<Entry>([])
  {
  }

  lemma {:induction false} JoinSeen(visited: seq<(Key, Address)>, seen: seq<Entry>,
                                    more: seq<(Key, Address)>, chain: seq<Entry>)
    requires SameBindings(visited, seen) && SameBindings(more, chain)
    requires NoRepeats(seen) && NoRepeats(chain) && forall e :: e in chain ==> e !in SetOf(seen)
    ensures SameBindings(visited + more, seen + chain) && NoRepeats(seen + chain)
    ensures SetOf(seen + chain) == SetOf(seen) + SetOf(chain)
  {
    var all := seen + chain;
    forall j, k | 0 <= j < k < |all| ensures all[j] != all[k] {
      if j < |seen| <= k { assert all[k] in chain && all[j] in seen; }
    }
  }

  ghost predicate Covers(seen: seq<Entry>, index: map<Key, Entry>) {
    && (forall e :: e in seen ==> e.key in index && index[e.key] == e)
    && (forall k :: k in index ==> index[k] in seen && index[k].key == k)
  }

  lemma {:induction false} VisitedAll(visited: seq<(Key, Address)>, seen: seq<Entry>, index: map<Key, Entry>)
    requires SameBindings(visited, seen) && NoRepeats(seen)
    requires Covers(seen, index)
    ensures forall k :: k in index ==> (k, index[k].value) in visited
    ensures forall v :: v in visited ==> v.0 in index && index[v.0].value == v.1
    ensures forall i, j :: 0 <= i < j < |visited| ==> visited[i].0 != visited[j].0
    ensures |visited| == |index|
  {
    forall k | k in index ensures (k, index[k].value) in visited {
      assert index[k] in seen;
      var i :| 0 <= i < |seen| && seen[i] == index[k];
      assert visited[i] == (k, index[k].value);
    }
    forall v | v in visited ensures v.0 in index && index[v.0].value == v.1 {
      var i :| 0 <= i < |visited| && visited[i] == v;
      assert seen[i] in seen;
    }
    forall i, j | 0 <= i < j < |visited| ensures visited[i].0 != visited[j].0 {
      assert seen[i] in seen && seen[j] in seen;
    }
    CountSeen(seen, index);
  }

  lemma {:induction false} CountSeen(seen: seq<Entry>, index: map<Key, Entry>)
    requires NoRepeats(seen)
    requires Covers(seen, index)
    ensures |seen| == |index|
    decreases |seen|
  {
    if seen == [] {
      assert index == map[];
    } else {
      var k := seen[0].key;
      assert seen[0] in seen;
      forall e | e in seen[1..] ensures e.key in index - {k} {
        var i :| 0 <= i < |seen| - 1 && seen[1..][i] == e;
        assert seen[i + 1] == e && seen[0] != seen[i + 1];
      }
      CountSeen(seen[1..], index - {k});
    }
  }

  // ----- Whole runs -----

  datatype Op = Put(k: Key, v: Address) | Drop(k: Key)

  function After(m: map<Key, Address>, ops: seq<Op>): map<Key, Address>
    decreases |ops|
  {
    if ops == [] then m else After(AfterOne(m, ops[0]), ops[1..])
  }

  function AfterOne(m: map<Key, Address>, op: Op): map<Key, Address> {
    match op
    case Put(k, v) => if k in m then m else m[k := v]
    case Drop(k) => m - {k}
  }

  method Apply(t: Table, op: Op)
    requires t.Valid()
    modifies t.Repr()
    ensures t.Valid() && fresh(t.Repr() - old(t.Repr())) && t.Contents() == AfterOne(old(t.Contents()), op)
  {
    hide Sound, Recorded;
    match op
    case Put(k, v) => var code := t.Insert(k, v, true, true);
    case Drop(k) => var code := t.Delete(k);
  }

  /** While memory lasts, a run leaves what it would leave of a finite map, however the keys hash. */
  method Run(t: Table, ops: seq<Op>)
    requires t.Valid()
    modifies t.Repr()
    ensures t.Valid() && fresh(t.Repr() - old(t.Repr())) && t.Contents() == After(old(t.Contents()), ops)
  {
    hide Sound, Recorded, AfterOne;
    for i := 0 to |ops|
      invariant t.Valid() && fresh(t.Repr() - old(t.Repr()))
      invariant After(t.Contents(), ops[i..]) == After(old(t.Contents()), ops)
    {
      assert ops[i..][0] == ops[i] && ops[i..][1..] == ops[i + 1..];
      Apply(t, ops[i]);
    }
  }
}
