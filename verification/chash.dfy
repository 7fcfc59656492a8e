/** The chained hash dictionary of fern/chash.c. */
module ChainedHash {
  import opened Bits
  import opened Options

  /** A C string. */
  type Name = s: seq<Byte> | 0 !in s witness []

  // ----- Sizes -----

  const PRIMES: seq<nat> := [
    3, 5, 11, 23, 47, 97, 191, 383, 769, 1531, 3067, 6143, 12289, 24571, 49157,
    98299, 196613, 393209, 786431, 1572869, 3145721]

  const LAST_PRIME: nat := 3145721

  /** The smallest listed prime above `v`. */
  predicate IsNextPrime(p: nat, v: int) {
    p in PRIMES && v < p && forall i :: 0 <= i < |PRIMES| && v < PRIMES[i] ==> p <= PRIMES[i]
  }

  lemma {:induction false} PrimesAreApart(i: nat, j: nat)
    requires i < j < |PRIMES|
    ensures PRIMES[i] + 2 <= PRIMES[j]
    decreases j
  {
    assert forall k :: 0 < k < |PRIMES| ==> PRIMES[k - 1] + 2 <= PRIMES[k];
    if i < j - 1 {
      PrimesAreApart(i, j - 1);
    }
  }

  lemma LastPrime()
    ensures |PRIMES| > 0 && PRIMES[|PRIMES| - 1] == LAST_PRIME
  {}

  /** `prime_larger`. */
  method PrimeLarger(v: int) returns (p: nat)
    requires v < LAST_PRIME
    ensures IsNextPrime(p, v)
  {
    hide PRIMES;
    LastPrime();
    var i := 0;
    while PRIMES[i] <= v
      invariant i < |PRIMES|
      invariant forall k :: 0 <= k < i ==> PRIMES[k] <= v
      decreases |PRIMES| - i
    {
      i := i + 1;
    }
    p := PRIMES[i];
    forall k | 0 <= k < |PRIMES| && v < PRIMES[k]
      ensures p <= PRIMES[k]
    {
      if k > i {
        PrimesAreApart(i, k);
      }
    }
  }

  /** There is a larger listed prime exactly below the last one. */
  lemma NextPrimeExists(v: int)
    ensures (exists p: nat :: IsNextPrime(p, v)) <==> v < LAST_PRIME
  {
    hide PRIMES;
    LastPrime();
    if v < LAST_PRIME {
      var k := FirstAbove(v, 0);
      forall j | 0 <= j < |PRIMES| && v < PRIMES[j]
        ensures PRIMES[k] <= PRIMES[j]
      {
        if k < j {
          PrimesAreApart(k, j);
        }
      }
      assert IsNextPrime(PRIMES[k], v);
    } else {
      forall p: nat
        ensures !IsNextPrime(p, v)
      {
        if p in PRIMES {
          LastIsLargest(p);
        }
      }
    }
  }

  /** The place of the first listed prime above `v`. */
  ghost function FirstAbove(v: int, i: nat): (k: nat)
    requires v < LAST_PRIME && i < |PRIMES| && forall j :: 0 <= j < i ==> PRIMES[j] <= v
    ensures k < |PRIMES| && v < PRIMES[k] && forall j :: 0 <= j < k ==> PRIMES[j] <= v
    decreases |PRIMES| - i
  {
    hide PRIMES;
    LastPrime();
    if v < PRIMES[i] then i else FirstAbove(v, i + 1)
  }

  /** The sizes there are, each about twice the one before. */
  function SizeAbove(v: int): nat {
    if v < 3 then 3
    else if v < 5 then 5 else if v < 11 then 11 else if v < 23 then 23 else if v < 47 then 47 else if v < 97 then 97
    else if v < 191 then 191 else if v < 383 then 383 else if v < 769 then 769 else if v < 1531 then 1531
    else if v < 3067 then 3067 else if v < 6143 then 6143 else if v < 12289 then 12289 else if v < 24571 then 24571
    else if v < 49157 then 49157 else if v < 98299 then 98299 else if v < 196613 then 196613
    else if v < 393209 then 393209 else if v < 786431 then 786431 else if v < 1572869 then 1572869
    else 3145721
  }

  /** The next listed prime, number by number. */
  lemma NextPrimeIs(p: nat, v: int)
    requires v < 3145721
    ensures IsNextPrime(p, v) <==> p == SizeAbove(v)
  {
    var k := PlaceOf(v);
    assert IsNextPrime(PRIMES[k], v) by {
      forall i | 0 <= i < |PRIMES| && v < PRIMES[i]
        ensures PRIMES[k] <= PRIMES[i]
      {
        hide PRIMES;
        if k < i {
          PrimesAreApart(k, i);
        }
      }
    }
    hide PRIMES, SizeAbove;
    if IsNextPrime(p, v) {
      var i :| 0 <= i < |PRIMES| && PRIMES[i] == p;
    }
  }

  lemma PlaceOf(v: int) returns (k: nat)
    requires v < 3145721
    ensures k < |PRIMES| && PRIMES[k] == SizeAbove(v) && v < PRIMES[k] && forall i :: 0 <= i < k ==> PRIMES[i] <= v
  {
    k := 0;
    while PRIMES[k] <= v
      invariant k < |PRIMES| && forall i :: 0 <= i < k ==> PRIMES[i] <= v
      decreases |PRIMES| - k
    {
      k := k + 1;
    }
    assert k > 0 ==> PRIMES[k - 1] <= v;
  }

  /** A resize gains at least two buckets, which is what keeps it from needing another. */
  lemma NextPrimeIsApart(p: nat, v: nat)
    requires v in PRIMES && IsNextPrime(p, v)
    ensures v + 2 <= p
  {
    hide PRIMES;
    var i :| 0 <= i < |PRIMES| && PRIMES[i] == v;
    var k :| 0 <= k < |PRIMES| && PRIMES[k] == p;
    if i < k {
      PrimesAreApart(i, k);
    } else if k < i {
      PrimesAreApart(k, i);
    }
  }

  // ----- Hashing -----

  /** A `char`, sign-extended, as an `unsigned int`. */
  function AsUnsigned(b: Byte): Word {
    if b < 0x80 then b else 0xFFFF_FF00 + b
  }

  function HashValue(s: seq<Byte>): Word {
    if s == [] then 0 else (AsUnsigned(s[|s| - 1]) as nat + 31 * HashValue(s[..|s| - 1])) % 0x1_0000_0000
  }

  /** A byte as a signed `char`. */
  function Signed(b: Byte): int {
    if b < 0x80 then b else b - 0x100
  }

  /** The signed bytes as digits of base 31. */
  function Polynomial(s: seq<Byte>): int {
    if s == [] then 0 else Signed(s[|s| - 1]) + 31 * Polynomial(s[..|s| - 1])
  }

  /** The hash is the polynomial modulo 2^32: wrapping around after every step makes no difference. */
  lemma {:induction false} HashIsPolynomial(s: seq<Byte>)
    ensures HashValue(s) == Polynomial(s) % 0x1_0000_0000
  {
    if s != [] {
      var last, init := s[|s| - 1], s[..|s| - 1];
      HashIsPolynomial(init);
      hide HashValue, Polynomial;
      HashStep(AsUnsigned(last), Signed(last), HashValue(init), Polynomial(init)) by {
        assert AsUnsigned(last) == Signed(last) + if last < 0x80 then 0 else 0x1_0000_0000;
      }
      HashOf(s);
    }
  }

  lemma HashOf(s: seq<Byte>)
    requires s != []
    ensures HashValue(s) == (AsUnsigned(s[|s| - 1]) as nat + 31 * HashValue(s[..|s| - 1])) % 0x1_0000_0000
    ensures Polynomial(s) == Signed(s[|s| - 1]) + 31 * Polynomial(s[..|s| - 1])
  {
    hide AsUnsigned, Signed;
  }

  lemma HashStep(a: int, c: int, h: int, p: int)
    requires h == p % 0x1_0000_0000 && (a == c || a == c + 0x1_0000_0000)
    ensures (a + 31 * h) % 0x1_0000_0000 == (c + 31 * p) % 0x1_0000_0000
  {
    var q := p / 0x1_0000_0000;
    assert p == 0x1_0000_0000 * q + h;
    SameModulo(a + 31 * h, c + 31 * p, (if a == c then 0 else 1) - 31 * q);
  }

  lemma SameModulo(x: int, y: int, k: int)
    requires x == y + 0x1_0000_0000 * k
    ensures x % 0x1_0000_0000 == y % 0x1_0000_0000
  {
    assert x == 0x1_0000_0000 * (y / 0x1_0000_0000 + k) + y % 0x1_0000_0000;
  }

  /** The bucket a name belongs to in a table of `size` buckets. */
  function Bucket(name: Name, size: nat): (h: nat)
    requires size > 0
    ensures h < size
  {
    HashValue(name) % size
  }

  // ----- Chains -----

  class Entry<V> {
    const name: Name
    var data: V
    var next: Entry?<V>

    constructor (name: Name, data: V, next: Entry?<V>)
      ensures this.name == name && this.data == data && this.next == next
    {
      this.name, this.data, this.next := name, data, next;
    }
  }

  ghost function At<V>(chain: seq<Entry<V>>, k: int): Entry?<V> {
    if 0 <= k < |chain| then chain[k] else null
  }

  /** The entries of one bucket, as linked. */
  ghost predicate Linked<V>(head: Entry?<V>, chain: seq<Entry<V>>)
    reads (set e | e in chain)`next
  {
    head == At(chain, 0) && forall k :: 0 <= k < |chain| ==> chain[k].next == At(chain, k + 1)
  }

  /** Every entry is in the bucket of its hash, and no name appears twice. */
  ghost predicate Placed<V>(chains: seq<seq<Entry<V>>>) {
    && (forall i, k :: 0 <= i < |chains| && 0 <= k < |chains[i]| ==> Bucket(chains[i][k].name, |chains|) == i)
    && (forall i, k, l :: 0 <= i < |chains| && 0 <= k < l < |chains[i]| ==> chains[i][k].name != chains[i][l].name)
  }

  ghost function Names<V>(chain: seq<Entry<V>>): set<Name> {
    set k | 0 <= k < |chain| :: chain[k].name
  }

  ghost function All<V>(chains: seq<seq<Entry<V>>>): set<Entry<V>> {
    set i, k | 0 <= i < |chains| && 0 <= k < |chains[i]| :: chains[i][k]
  }

  lemma NamesAre<V>(chain: seq<Entry<V>>, a: seq<Entry<V>>, b: seq<Entry<V>>)
    requires chain == a + b
    ensures Names(chain) == Names(a) + Names(b)
  {
    forall k | 0 <= k < |a|
      ensures a[k].name in Names(chain)
    {
      assert chain[k] == a[k];
    }
    forall k | 0 <= k < |b|
      ensures b[k].name in Names(chain)
    {
      assert chain[|a| + k] == b[k];
    }
  }

  lemma PushPlaced<V>(chains: seq<seq<Entry<V>>>, h: nat, np: Entry<V>)
    requires Placed(chains) && h < |chains| && Bucket(np.name, |chains|) == h && np.name !in Names(chains[h])
    ensures Placed(chains[h := [np] + chains[h]])
    ensures All(chains[h := [np] + chains[h]]) == All(chains) + {np}
  {
    var longer := chains[h := [np] + chains[h]];
    forall i, k | 0 <= i < |longer| && 0 <= k < |longer[i]|
      ensures longer[i][k] in All(chains) + {np}
    {
      if i == h && k > 0 {
        assert longer[i][k] == chains[h][k - 1];
      }
    }
    forall e | e in All(chains) + {np}
      ensures e in All(longer)
    {
      if e == np {
        assert longer[h][0] == np;
      } else {
        var i, k :| 0 <= i < |chains| && 0 <= k < |chains[i]| && chains[i][k] == e;
        assert longer[i][if i == h then k + 1 else k] == e;
      }
    }
    forall k, l | 0 <= k < l < |longer[h]|
      ensures longer[h][k].name != longer[h][l].name
    {
      assert longer[h][l] == chains[h][l - 1];
      if k > 0 {
        assert longer[h][k] == chains[h][k - 1];
      }
    }
  }

  /** Keys and data of a run of entries. */
  ghost function Items<V>(entries: seq<Entry<V>>): map<Name, V>
    reads (set e | e in entries)`data
  {
    if entries == [] then map[]
    else
      var last := |entries| - 1;
      Items(entries[..last])[entries[last].name := entries[last].data]
  }

  /** All entries, bucket by bucket. */
  ghost function Flat<V>(chains: seq<seq<Entry<V>>>): seq<Entry<V>> {
    if chains == [] then [] else Flat(chains[..|chains| - 1]) + chains[|chains| - 1]
  }

  ghost predicate DistinctNames<V>(entries: seq<Entry<V>>) {
    forall k, l :: 0 <= k < l < |entries| ==> entries[k].name != entries[l].name
  }

  lemma FlatStep<V>(chains: seq<seq<Entry<V>>>, i: nat)
    requires i < |chains|
    ensures Flat(chains[..i + 1]) == Flat(chains[..i]) + chains[i]
  {
    assert chains[..i + 1][..i] == chains[..i];
  }

  lemma {:induction false} FlatGrows<V>(chains: seq<seq<Entry<V>>>, i: nat)
    requires i <= |chains|
    ensures |Flat(chains[..i])| <= |Flat(chains)|
    decreases |chains| - i
  {
    if i < |chains| {
      FlatStep(chains, i);
      FlatGrows(chains, i + 1);
    } else {
      assert chains[..i] == chains;
    }
  }

  /** The entries of the first buckets: those whose hash is below. */
  lemma {:induction false} FlatPrefix<V>(chains: seq<seq<Entry<V>>>, i: nat)
    requires Placed(chains) && i <= |chains|
    ensures var flat := Flat(chains[..i]);
            && DistinctNames(flat)
            && (forall k :: 0 <= k < |flat| ==> flat[k] in All(chains) && Bucket(flat[k].name, |chains|) < i)
            && (forall j, k :: 0 <= j < i && 0 <= k < |chains[j]| ==> chains[j][k] in flat)
  {
    hide Bucket;
    if i > 0 {
      FlatPrefix(chains, i - 1);
      FlatStep(chains, i - 1);
      var rest, chain := Flat(chains[..i - 1]), chains[i - 1];
      var flat := rest + chain;
      forall k | |rest| <= k < |flat|
        ensures flat[k] in All(chains) && Bucket(flat[k].name, |chains|) == i - 1
      {
        assert flat[k] == chains[i - 1][k - |rest|];
      }
      forall k, l | 0 <= k < l < |flat|
        ensures flat[k].name != flat[l].name
      {
        if l < |rest| {
          assert rest[k].name != rest[l].name;
        } else if k < |rest| {
          assert Bucket(rest[k].name, |chains|) < i - 1 == Bucket(flat[l].name, |chains|);
        } else {
          assert chains[i - 1][k - |rest|].name != chains[i - 1][l - |rest|].name;
        }
      }
    }
  }

  lemma {:induction false} ItemsConcat<V>(a: seq<Entry<V>>, b: seq<Entry<V>>)
    ensures Items(a + b) == Items(a) + Items(b)
  {
    if b == [] {
      assert a + b == a;
    } else {
      var last := |b| - 1;
      ItemsConcat(a, b[..last]);
      assert (a + b)[..|a| + last] == a + b[..last];
    }
  }

  lemma NoItems<V>(before: map<Name, V>, entries: seq<Entry<V>>)
    ensures before + Items(entries[..0]) == before
  {}

  lemma ItemsStep<V>(before: map<Name, V>, entries: seq<Entry<V>>, k: nat)
    requires k < |entries|
    ensures before + Items(entries[..k + 1]) == (before + Items(entries[..k]))[entries[k].name := entries[k].data]
  {
    assert entries[..k + 1][..k] == entries[..k];
  }

  lemma {:induction false} ItemKeys<V>(entries: seq<Entry<V>>)
    requires DistinctNames(entries)
    ensures Items(entries).Keys == Names(entries) && |Items(entries)| == |entries|
  {
    if entries != [] {
      var last := |entries| - 1;
      var e, rest := entries[last], entries[..last];
      assert DistinctNames(rest);
      ItemKeys(rest);
      assert entries == rest + [e];
      NamesAre(entries, rest, [e]);
      assert Names([e]) == {e.name};
      assert e.name !in Names(rest);
      hide DistinctNames, Names;
      assert Items(entries).Keys == Items(rest).Keys + {e.name};
    }
  }

  lemma {:induction false} ItemData<V>(entries: seq<Entry<V>>)
    requires DistinctNames(entries)
    ensures forall k :: 0 <= k < |entries| ==>
              entries[k].name in Items(entries) && Items(entries)[entries[k].name] == entries[k].data
  {
    if entries != [] {
      var last := |entries| - 1;
      var rest := entries[..last];
      assert DistinctNames(rest);
      ItemData(rest);
      forall k | 0 <= k < last
        ensures entries[k].name in Items(entries) && Items(entries)[entries[k].name] == entries[k].data
      {
        assert rest[k] == entries[k];
      }
    }
  }

  lemma SameKeysSameSize<V, W>(a: map<Name, V>, b: map<Name, W>)
    requires a.Keys == b.Keys
    ensures |a| == |b|
  {
    assert |a.Keys| == |a| && |b.Keys| == |b|;
  }

  /** The names of all entries are the keys, each once. */
  lemma FlatNames<V>(chains: seq<seq<Entry<V>>>, contents: map<Name, V>)
    requires Placed(chains) && Stands(chains, contents) && |chains| > 0
    ensures DistinctNames(Flat(chains)) && Names(Flat(chains)) == contents.Keys && |Flat(chains)| == |contents|
  {
    hide Bucket, DistinctNames, Placed, Flat, Items;
    assert chains[..|chains|] == chains;
    FlatPrefix(chains, |chains|);
    var flat := Flat(chains);
    ItemKeys(flat);
    forall s | s in contents
      ensures s in Names(flat)
    {
      var h := Bucket(s, |chains|);
      var k :| 0 <= k < |chains[h]| && chains[h][k].name == s;
      assert chains[h][k] in flat;
    }
    forall k | 0 <= k < |flat|
      ensures flat[k].name in contents
    {
      assert flat[k] in All(chains);
    }
    assert Names(flat) == contents.Keys;
    SameKeysSameSize(Items(flat), contents);
  }

  lemma ItemsAre<V>(entries: seq<Entry<V>>, contents: map<Name, V>)
    requires DistinctNames(entries) && Names(entries) == contents.Keys
    requires forall k :: 0 <= k < |entries| ==>
               entries[k].name in contents && contents[entries[k].name] == entries[k].data
    ensures Items(entries) == contents
  {
    ItemKeys(entries);
    ItemData(entries);
    hide DistinctNames, Items;
  }

  /** The entries of any table that stands for a map spell out the map. */
  lemma FlatItems<V>(chains: seq<seq<Entry<V>>>, contents: map<Name, V>)
    requires Placed(chains) && Stands(chains, contents) && |chains| > 0
    ensures Items(Flat(chains)) == contents && |Flat(chains)| == |contents|
  {
    hide Bucket, DistinctNames, Placed, Flat, Items, Names, All;
    FlatNames(chains, contents);
    assert chains[..|chains|] == chains;
    FlatPrefix(chains, |chains|);
    ItemsAre(Flat(chains), contents);
  }

  ghost function Listed<V>(entries: seq<Entry<V>>): (keys: seq<Option<Name>>)
    ensures |keys| == |entries|
  {
    seq(|entries|, m requires 0 <= m < |entries| => Some(entries[m].name))
  }

  lemma ListedConcat<V>(a: seq<Entry<V>>, b: seq<Entry<V>>)
    ensures Listed(a + b) == Listed(a) + Listed(b)
  {}

  lemma KeysListed<V>(entries: seq<Entry<V>>)
    requires DistinctNames(entries)
    ensures forall s :: s in Names(entries) <==> Some(s) in Listed(entries)
    ensures forall m, l :: 0 <= m < l < |entries| ==> Listed(entries)[m] != Listed(entries)[l]
  {
    forall s | s in Names(entries)
      ensures Some(s) in Listed(entries)
    {
      var m :| 0 <= m < |entries| && entries[m].name == s;
      assert Listed(entries)[m] == Some(s);
    }
  }

  lemma SameNameSameEntry<V>(chains: seq<seq<Entry<V>>>, e: Entry<V>, f: Entry<V>)
    requires Placed(chains) && e in All(chains) && f in All(chains) && e.name == f.name
    ensures e == f
  {
    var i, k :| 0 <= i < |chains| && 0 <= k < |chains[i]| && chains[i][k] == e;
    var j, l :| 0 <= j < |chains| && 0 <= l < |chains[j]| && chains[j][l] == f;
    assert Bucket(chains[i][k].name, |chains|) == i && Bucket(chains[j][l].name, |chains|) == j;
  }

  lemma PushLinked<V>(np: Entry<V>, chain: seq<Entry<V>>)
    requires Linked(np.next, chain)
    ensures Linked(np, [np] + chain)
  {
    assert forall k :: 0 < k <= |chain| ==> ([np] + chain)[k] == chain[k - 1];
  }

  lemma RemovePlaced<V>(chains: seq<seq<Entry<V>>>, h: nat, k: nat)
    requires Placed(chains) && h < |chains| && k < |chains[h]|
    ensures var shorter := chains[h := chains[h][..k] + chains[h][k + 1..]];
            && Placed(shorter) && All(shorter) <= All(chains)
            && (forall i, j :: 0 <= i < |shorter| && 0 <= j < |shorter[i]| ==>
                  shorter[i][j] in All(chains) && shorter[i][j].name != chains[h][k].name)
  {
    var shorter := chains[h := chains[h][..k] + chains[h][k + 1..]];
    forall i, j | 0 <= i < |shorter| && 0 <= j < |shorter[i]|
      ensures shorter[i][j] in All(chains) && shorter[i][j].name != chains[h][k].name
      ensures Bucket(shorter[i][j].name, |chains|) == i
    {
      assert shorter[i][j] == chains[i][if i == h && j >= k then j + 1 else j];
      assert Bucket(chains[h][k].name, |chains|) == h;
    }
    forall j, l | 0 <= j < l < |shorter[h]|
      ensures shorter[h][j].name != shorter[h][l].name
    {
      assert shorter[h][j] == chains[h][if j >= k then j + 1 else j];
      assert shorter[h][l] == chains[h][if l >= k then l + 1 else l];
    }
  }

  lemma RemoveStands<V>(chains: seq<seq<Entry<V>>>, contents: map<Name, V>, h: nat, k: nat)
    requires Placed(chains) && Stands(chains, contents) && h < |chains| && k < |chains[h]|
    ensures Stands(chains[h := chains[h][..k] + chains[h][k + 1..]], contents - {chains[h][k].name})
  {
    hide Bucket;
    var shorter := chains[h := chains[h][..k] + chains[h][k + 1..]];
    RemovePlaced(chains, h, k);
    hide Placed;
    forall s | s in contents && s != chains[h][k].name
      ensures s in Names(shorter[Bucket(s, |chains|)])
    {
      var i := Bucket(s, |chains|);
      var j :| 0 <= j < |chains[i]| && chains[i][j].name == s;
      assert i == h && j != k ==> shorter[i][if j < k then j else j - 1] == chains[i][j];
    }
  }

  lemma NextOf<V>(head: Entry?<V>, chain: seq<Entry<V>>)
    requires Linked(head, chain)
    ensures head == At(chain, 0) && forall j :: 0 <= j < |chain| ==> chain[j].next == At(chain, j + 1)
  {}

  lemma RemoveLinked<V>(head: Entry?<V>, chain: seq<Entry<V>>, k: nat)
    requires k < |chain| && forall j :: 0 <= j < |chain| && j != k - 1 ==> chain[j].next == At(chain, j + 1)
    requires if k > 0 then head == chain[0] && chain[k - 1].next == At(chain, k + 1) else head == At(chain, 1)
    ensures Linked(head, chain[..k] + chain[k + 1..])
  {
    var rest := chain[..k] + chain[k + 1..];
    assert forall j :: 0 <= j < |rest| ==> rest[j] == chain[if j < k then j else j + 1];
  }

  lemma OthersAreDifferent<V>(chains: seq<seq<Entry<V>>>, h: nat, k: nat)
    requires Placed(chains) && h < |chains| && k < |chains[h]|
    ensures forall i :: 0 <= i < |chains| && i != h ==> chains[h][k] !in chains[i]
    ensures forall j :: 0 <= j < |chains[h]| && j != k ==> chains[h][j] != chains[h][k]
    ensures chains[h][k] in All(chains)
  {
    forall i, j | 0 <= i < |chains| && i != h && 0 <= j < |chains[i]|
      ensures chains[i][j] != chains[h][k]
    {
      assert Bucket(chains[i][j].name, |chains|) == i && Bucket(chains[h][k].name, |chains|) == h;
    }
  }

  /** The entries are those of the map, each in its bucket. */
  ghost predicate Stands<V>(chains: seq<seq<Entry<V>>>, contents: map<Name, V>)
    reads All(chains)`data
  {
    && (forall e :: e in All(chains) ==> e.name in contents && contents[e.name] == e.data)
    && (|chains| > 0 ==> forall s :: s in contents ==> s in Names(chains[Bucket(s, |chains|)]))
  }

  lemma ContentsAreNames<V>(chains: seq<seq<Entry<V>>>, contents: map<Name, V>, s: Name)
    requires Placed(chains) && Stands(chains, contents) && |chains| > 0
    ensures s in contents <==> s in Names(chains[Bucket(s, |chains|)])
  {
    var h := Bucket(s, |chains|);
    if e :| e in chains[h] && e.name == s {
      var k :| 0 <= k < |chains[h]| && chains[h][k] == e;
      assert chains[h][k] in All(chains);
    }
  }

  lemma PushStands<V>(chains: seq<seq<Entry<V>>>, contents: map<Name, V>, h: nat, np: Entry<V>)
    requires Placed(chains) && Stands(chains, contents)
    requires h < |chains| && Bucket(np.name, |chains|) == h && np.name !in Names(chains[h])
    ensures Stands(chains[h := [np] + chains[h]], contents[np.name := np.data])
  {
    PushPlaced(chains, h, np);
    NamesAre([np] + chains[h], [np], chains[h]);
    forall e | e in All(chains)
      ensures e.name != np.name
    {
      var i, k :| 0 <= i < |chains| && 0 <= k < |chains[i]| && chains[i][k] == e;
      assert i == h ==> e in chains[h];
    }
  }

  lemma Recorded<V>(before: map<Name, V>, after: map<Name, V>, name: Name, data: V)
    requires after - {name} == before - {name} && name in after && after[name] == data
    ensures after == before[name := data] && |after| <= |before| + 1
  {
    forall s | s in after && s != name
      ensures s in before && after[s] == before[s]
    {
      assert s in after - {name} && (after - {name})[s] == (before - {name})[s];
    }
    forall s | s in before && s != name
      ensures s in after
    {
      assert s in before - {name};
    }
    assert after.Keys == before.Keys + {name};
    assert |after.Keys| <= |before.Keys| + 1;
  }

  lemma OneMoreName<V>(before: map<Name, V>, after: map<Name, V>, name: Name)
    ensures name !in before && name in after && after - {name} == before ==> |after| == |before| + 1
  {
    if name !in before && name in after && after - {name} == before {
      assert after.Keys == before.Keys + {name};
      assert |after.Keys| == |before.Keys| + 1;
    }
  }

  class Dict<V(0)> {
    var hashsize: nat
    var used: nat
    var hashtab: array<Entry?<V>>
    ghost var chains: seq<seq<Entry<V>>>
    /** The finite map that the dictionary stands for. */
    ghost var contents: map<Name, V>

    ghost predicate Shaped()
      reads this, hashtab, All(chains)
    {
      && hashsize > 0 && hashtab.Length == |chains| == hashsize
      && (forall i :: 0 <= i < |chains| ==> Linked(hashtab[i], chains[i]))
      && Placed(chains)
    }

    ghost predicate Valid()
      reads this, hashtab, All(chains)
    {
      && Shaped() && Stands(chains, contents)
      && hashsize in PRIMES && 5 * used <= 4 * hashsize && |contents| <= used
    }

    /** `dict_new_with_length`. */
    constructor WithLength(n: int)
      requires n < LAST_PRIME
      ensures Valid() && contents == map[] && used == 0 && IsNextPrime(hashsize, n)
      ensures fresh(hashtab) && All(chains) == {}
    {
      var size := PrimeLarger(n);
      hashsize := size;
      hashtab := new Entry?<V>[size](_ => null);
      chains := seq(size, _ => []);
      contents := map[];
      used := 0;
      new;
      PrimeIsPositive(size);
      hide PRIMES, Bucket;
    }

    /** `hash`. */
    method Hash(s: Name) returns (h: nat)
      requires hashsize > 0
      ensures h == Bucket(s, hashsize)
    {
      var cstring := s + [0];
      var hashval: Word := 0;
      var i := 0;
      while cstring[i] != 0
        invariant i <= |s| && hashval == HashValue(s[..i])
        decreases |s| - i
      {
        assert s[..i + 1][..i] == s[..i];
        var c: nat, previous: nat := AsUnsigned(cstring[i]), hashval;
        hashval := (c + 31 * previous) % 0x1_0000_0000;
        i := i + 1;
      }
      assert s[..i] == s;
      h := hashval % hashsize;
    }

    /** `dict_get_internal`: the entry of a name, if there is one. */
    method GetInternal(s: Name) returns (np: Entry?<V>, ghost k: nat)
      requires Shaped() && Stands(chains, contents)
      ensures var chain := chains[Bucket(s, hashsize)];
              && np == At(chain, k)
              && (np != null ==> np.name == s && np in All(chains))
              && (np == null ==> s !in Names(chain))
      ensures np != null <==> s in contents
    {
      var h := Hash(s);
      k := 0;
      np := hashtab[h];
      while np != null
        invariant k <= |chains[h]| && np == At(chains[h], k)
        invariant forall j :: 0 <= j < k ==> chains[h][j].name != s
        decreases |chains[h]| - k
      {
        if s == np.name {
          return;
        }
        np := np.next;
        k := k + 1;
      }
    }

    /** `dict_get`. */
    method Get(s: Name) returns (r: Option<V>)
      requires Shaped() && Stands(chains, contents)
      ensures r == if s in contents then Some(contents[s]) else None
    {
      var np, k := GetInternal(s);
      return if np != null then Some(np.data) else None;
    }

    /** A new entry at the head of its chain. */
    method Push(h: nat, name: Name, data: V) returns (np: Entry<V>)
      requires Shaped() && Stands(chains, contents) && h == Bucket(name, hashsize) && name !in Names(chains[h])
      modifies this`chains, this`contents, hashtab
      ensures Shaped() && Stands(chains, contents) && contents == old(contents)[name := data]
      ensures fresh(np) && np.name == name && All(chains) == old(All(chains)) + {np}
    {
      hide Bucket, Placed, Stands, Linked;
      ghost var before, chain := chains, chains[h];
      np := new Entry(name, data, hashtab[h]);
      PushPlaced(before, h, np);
      PushStands(before, contents, h, np);
      PushLinked(np, chain);
      hashtab[h] := np;
      chains := before[h := [np] + chain];
      contents := contents[name := data];
    }

    /** New data for an entry that is there. */
    method Overwrite(np: Entry<V>, data: V)
      requires Shaped() && Stands(chains, contents) && np in All(chains)
      modifies this`contents, np`data
      ensures Shaped() && Stands(chains, contents) && contents == old(contents)[np.name := data]
    {
      hide Bucket, Placed, Linked;
      forall e | e in All(chains) && e.name == np.name
        ensures e == np
      {
        SameNameSameEntry(chains, e, np);
      }
      np.data := data;
      contents := contents[np.name := data];
    }

    /** The entry of a name, a new one without meaningful data if need be. */
    method Enter(name: Name) returns (np: Entry<V>)
      requires Shaped() && Stands(chains, contents)
      modifies this`chains, this`contents, hashtab
      ensures Shaped() && Stands(chains, contents) && np in All(chains) && np.name == name
      ensures if name in old(contents) then contents == old(contents)
              else name in contents && contents - {name} == old(contents)
      ensures fresh(All(chains) - old(All(chains)))
    {
      hide Bucket, Placed, Linked;
      var found, k := GetInternal(name);
      if found != null {
        return found;
      }
      var h := Hash(name);
      var garbage: V := *;
      np := Push(h, name, garbage);
      assert contents - {name} == old(contents);
    }

    /** `dict_put`; a resize follows when more than four fifths of the table are used. */
    method Put(name: Name, data: Option<V>) returns (ok: bool)
      requires Valid()
      requires data.Some? && 5 * (used + 1) > 4 * hashsize ==> hashsize < LAST_PRIME
      modifies this, hashtab, All(chains)
      ensures ok <==> data.Some?
      ensures ok ==> Valid() && contents == old(contents)[name := data.value]
      ensures ok ==> if 5 * (old(used) + 1) <= 4 * old(hashsize)
                     then used == old(used) + 1 && hashsize == old(hashsize) && hashtab == old(hashtab)
                     else used == |contents| && IsNextPrime(hashsize, old(hashsize)) && fresh(hashtab)
      ensures !ok ==> Shaped() && Stands(chains, contents)
      ensures !ok ==> used == old(used) && hashsize == old(hashsize) && hashtab == old(hashtab)
      ensures !ok ==> if name in old(contents) then Valid() && contents == old(contents)
                      else name in contents && contents - {name} == old(contents)
                           && (Valid() <==> |old(contents)| < old(used))
      ensures fresh(All(chains) - old(All(chains)))
      decreases LAST_PRIME - hashsize, 2
    {
      hide Bucket, Placed, Linked, Stands, IsNextPrime, PRIMES;
      var np := Enter(name);
      if data.None? {
        OneMoreName(old(contents), contents, name);
        return false;
      }
      Overwrite(np, data.value);
      Recorded(old(contents), contents, name, data.value);
      used := used + 1;
      if 5 * used > 4 * hashsize {
        Resize();
      }
      return true;
    }

    /** One old chain is put into the table anew, entry by entry. */
    method Reinsert(head: Entry?<V>, ghost chain: seq<Entry<V>>, ghost items: map<Name, V>)
      requires Valid() && Linked(head, chain) && (set e | e in chain) !! All(chains)
      requires items == Items(chain) && 5 * (used + |chain|) <= 4 * hashsize
      modifies this, hashtab, All(chains)
      ensures Valid() && used == old(used) + |chain| && hashsize == old(hashsize) && hashtab == old(hashtab)
      ensures contents == old(contents) + items
      ensures fresh(All(chains) - old(All(chains)))
      decreases LAST_PRIME - hashsize, 3
    {
      hide Bucket, Placed, Stands, PRIMES, Shaped, Items, Valid;
      NoItems(old(contents), chain);
      var e := head;
      ghost var k := 0;
      while e != null
        invariant k <= |chain| && e == At(chain, k)
        invariant Valid() && used == old(used) + k && hashsize == old(hashsize) && hashtab == old(hashtab)
        invariant contents == old(contents) + Items(chain[..k])
        invariant fresh(All(chains) - old(All(chains)))
        decreases |chain| - k
      {
        ItemsStep(old(contents), chain, k);
        var ok := Put(e.name, Some(e.data));
        e := e.next;
        k := k + 1;
      }
      assert chain[..k] == chain;
    }

    /** `dict_resize`: all entries move to a table of the next size, and no lookup changes. */
    method Resize()
      requires Shaped() && Stands(chains, contents) && hashsize in PRIMES && hashsize < LAST_PRIME
      requires |contents| <= used && 5 * (used - 1) <= 4 * hashsize
      modifies this
      ensures Valid() && contents == old(contents)
      ensures used == |contents| && IsNextPrime(hashsize, old(hashsize))
      ensures fresh(hashtab) && fresh(All(chains))
      decreases LAST_PRIME - hashsize, 1
    {
      hide Bucket, Placed, PRIMES, Linked, Items, Flat;
      var larger := PrimeLarger(hashsize);
      NextPrimeIsApart(larger, hashsize);
      LastIsLargest(larger);
      FlatItems(chains, contents);
      Rebuild(larger, chains);
    }

    /** A table of `size` empty buckets, and then the old entries one by one. */
    method Rebuild(size: nat, ghost before: seq<seq<Entry<V>>>)
      requires hashtab.Length == hashsize == |before| && forall i :: 0 <= i < hashsize ==> Linked(hashtab[i], before[i])
      requires size in PRIMES && 5 * |Flat(before)| <= 4 * size
      modifies this
      ensures Valid() && contents == old(Items(Flat(before))) && used == |Flat(before)| && hashsize == size
      ensures fresh(hashtab) && fresh(All(chains))
      decreases LAST_PRIME - size, 4
    {
      hide Bucket, PRIMES, Linked, Items, Flat, Valid, Placed, Stands, Shaped;
      var oldhash, n := hashtab, hashsize;
      forall i | 0 <= i < n
        ensures Items(Flat(before[..i + 1])) == Items(Flat(before[..i])) + Items(before[i])
      {
        FlatStep(before, i);
        ItemsConcat(Flat(before[..i]), before[i]);
      }
      NothingYet(before);
      Clear(size);
      for i := 0 to n
        invariant Valid() && hashsize == size
        invariant contents == old(Items(Flat(before[..i]))) && used == |Flat(before[..i])|
        invariant fresh(hashtab) && fresh(All(chains))
      {
        FlatStep(before, i);
        FlatGrows(before, i + 1);
        Reinsert(oldhash[i], before[i], old(Items(before[i])));
      }
      assert before[..n] == before;
    }

    /** A new table, with nothing in it. */
    method Clear(size: nat)
      requires size in PRIMES
      modifies this
      ensures Valid() && contents == map[] && used == 0 && hashsize == size
      ensures fresh(hashtab) && All(chains) == {}
    {
      hide Bucket;
      PrimeIsPositive(size);
      hide PRIMES;
      hashsize := size;
      hashtab := new Entry?<V>[size](_ => null);
      chains := seq(size, _ => []);
      contents := map[];
      used := 0;
    }

    /** The pointer assignments of a removal. */
    method Unlink(h: nat, last: Entry?<V>, np: Entry<V>, ghost k: nat)
      requires Shaped() && Stands(chains, contents)
      requires h < hashsize && k < |chains[h]| && np == chains[h][k] && last == At(chains[h], k - 1)
      modifies this`chains, this`contents, hashtab, All(chains)`next
      ensures Shaped() && Stands(chains, contents) && contents == old(contents) - {np.name}
      ensures All(chains) <= old(All(chains))
    {
      hide Bucket, Stands, Placed, All, Linked;
      ghost var chain, shorter := chains[h], chains[h := chains[h][..k] + chains[h][k + 1..]];
      RemovePlaced(chains, h, k);
      RemoveStands(chains, contents, h, k);
      NextOf(hashtab[h], chain);
      if last == null {
        hashtab[h] := np.next;
      } else {
        OthersAreDifferent(chains, h, k - 1);
        last.next := np.next;
      }
      RemoveLinked(hashtab[h], chain, k);
      chains := shorter;
      contents := contents - {np.name};
    }

    /** The walk of `dict_remove`: an entry and the one before it. */
    method FindWithLast(h: nat, s: Name) returns (np: Entry?<V>, last: Entry?<V>, ghost k: nat)
      requires Shaped() && Stands(chains, contents) && h == Bucket(s, hashsize)
      ensures k <= |chains[h]| && np == At(chains[h], k) && last == At(chains[h], k - 1)
      ensures np != null ==> np.name == s
      ensures np != null <==> s in contents
    {
      hide Bucket, PRIMES, Placed, Stands;
      ghost var chain := chains[h];
      ContentsAreNames(chains, contents, s);
      np, last, k := hashtab[h], null, 0;
      while np != null && np.name != s
        invariant k <= |chain| && np == At(chain, k) && last == At(chain, k - 1)
        invariant forall j :: 0 <= j < k ==> chain[j].name != s
        decreases |chain| - k
      {
        last, np, k := np, np.next, k + 1;
      }
    }

    /** `dict_remove`: it does not count down `used`. */
    method Remove(s: Name) returns (removed: bool)
      requires Valid()
      modifies this`chains, this`contents, hashtab, All(chains)`next
      ensures Valid() && contents == old(contents) - {s}
      ensures removed <==> s in old(contents)
      ensures used == old(used) && hashsize == old(hashsize) && hashtab == old(hashtab)
      ensures All(chains) <= old(All(chains))
    {
      hide Bucket, PRIMES, Placed, Stands, Linked;
      var h := Hash(s);
      var np, last, k := FindWithLast(h, s);
      if np == null {
        assert contents - {s} == contents;
        return false;
      }
      Unlink(h, last, np, k);
      assert contents.Keys == old(contents).Keys - {s};
      return true;
    }

    /** The names of one chain, written from slot `start` on. */
    method ChainKeys(head: Entry?<V>, keys: array<Option<Name>>, start: nat, ghost chain: seq<Entry<V>>)
      returns (j: nat)
      requires Linked(head, chain) && start + |chain| <= keys.Length
      modifies keys
      ensures j == start + |chain| && keys[..j] == old(keys[..start]) + Listed(chain)
    {
      NextOf(head, chain);
      hide Linked;
      j := start;
      var e := head;
      ghost var k := 0;
      while e != null
        invariant k <= |chain| && e == At(chain, k) && j == start + k
        invariant keys[..j] == old(keys[..start]) + Listed(chain[..k])
        decreases |chain| - k
      {
        keys[j] := Some(e.name);
        assert Listed(chain[..k + 1]) == Listed(chain[..k]) + [Some(e.name)];
        j := j + 1;
        e := e.next;
        k := k + 1;
      }
      assert chain[..k] == chain;
    }

    /** `dict_keys`: every key once, then the closing null, within `used + 1` slots. */
    method Keys() returns (keys: array<Option<Name>>)
      requires Valid()
      ensures fresh(keys) && keys.Length == used + 1 && |contents| <= used
      ensures forall s :: s in contents <==> Some(s) in keys[..|contents|]
      ensures forall m, l :: 0 <= m < l < |contents| ==> keys[m] != keys[l]
      ensures keys[|contents|] == None
    {
      hide Bucket, PRIMES, Linked, Stands, Placed, Flat, Items, DistinctNames, Names;
      FlatNames(chains, contents);
      keys := new Option<Name>[used + 1](_ => None);
      var j := 0;
      NothingYet(chains);
      for i := 0 to hashsize
        invariant j == |Flat(chains[..i])| <= |contents|
        invariant keys[..j] == Listed(Flat(chains[..i]))
      {
        FlatStep(chains, i);
        FlatGrows(chains, i + 1);
        ListedConcat(Flat(chains[..i]), chains[i]);
        j := ChainKeys(hashtab[i], keys, j, chains[i]);
      }
      assert chains[..hashsize] == chains;
      keys[j] := None;
      KeysListed(Flat(chains));
      ghost var listed := keys[..j];
      assert forall m :: 0 <= m < j ==> keys[m] == listed[m];
    }
  }

  lemma NothingYet<V>(chains: seq<seq<Entry<V>>>)
    ensures Flat(chains[..0]) == [] && Items(Flat(chains[..0])) == map[]
  {}

  lemma PrimeIsPositive(p: nat)
    requires p in PRIMES
    ensures p > 0
  {}

  lemma LastIsLargest(p: nat)
    requires p in PRIMES
    ensures p <= LAST_PRIME
  {}
}
