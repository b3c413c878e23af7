/** The B+ tree leaf page: sorted pairs in an array, inserted by shifting. */
module LeafPage {
  datatype Pair = Pair(key: int, value: int)

  const LEAF_HEADER_SIZE := 28
  const PAIR_SIZE := 8
  /** As many pairs as a 4096-byte page has room for. */
  const PAIRS_PER_PAGE := (4096 - LEAF_HEADER_SIZE) / PAIR_SIZE

  ghost predicate Sorted(s: seq<Pair>) {
    forall i, j :: 0 <= i < j < |s| ==> s[i].key < s[j].key
  }

  /** Pairs as a map; a later pair decides its key. */
  ghost function MapOf(s: seq<Pair>): (m: map<int, int>) {
    if s == [] then map[] else MapOf(s[..|s| - 1])[s[|s| - 1].key := s[|s| - 1].value]
  }

  ghost predicate HasKey(s: seq<Pair>, k: int) { exists i :: 0 <= i < |s| && s[i].key == k }

  /** What a leaf is for: the first value given for a key stays, as long as there is room. */
  ghost function PutIfAbsent(m: map<int, int>, maxSize: int, p: Pair): map<int, int> {
    if |m| >= maxSize || p.key in m then m else m[p.key := p.value]
  }

  ghost function PutAll(m: map<int, int>, maxSize: int, ps: seq<Pair>): map<int, int> {
    if ps == [] then m else PutIfAbsent(PutAll(m, maxSize, ps[..|ps| - 1]), maxSize, ps[|ps| - 1])
  }

  /** Position `index` splits the leaf at `key`. */
  ghost predicate Splits(s: seq<Pair>, key: int, index: nat) {
    && index <= |s|
    && (forall i :: 0 <= i < index ==> s[i].key < key)
    && (forall i :: index <= i < |s| ==> s[i].key >= key)
  }

  function With(s: seq<Pair>, index: nat, p: Pair): seq<Pair>
    requires index <= |s|
  {
    s[..index] + [p] + s[index..]
  }

  lemma {:induction false} KeysOfMap(s: seq<Pair>, k: int)
    ensures k in MapOf(s) <==> HasKey(s, k)
  {
    if s != [] {
      var n := |s| - 1;
      KeysOfMap(s[..n], k);
      if HasKey(s[..n], k) {
        var i :| 0 <= i < n && s[..n][i].key == k;
        assert s[i].key == k;
      }
      if HasKey(s, k) && s[n].key != k {
        var i :| 0 <= i < |s| && s[i].key == k;
        assert s[..n][i].key == k;
      }
    }
  }

  lemma {:induction false} SizeOfMap(s: seq<Pair>)
    requires Sorted(s)
    ensures |MapOf(s)| == |s|
  {
    if s != [] {
      var n := |s| - 1;
      SizeOfMap(s[..n]);
      KeysOfMap(s[..n], s[n].key);
    }
  }

  /** Inserting where the leaf splits keeps it sorted. */
  lemma WithSorted(s: seq<Pair>, p: Pair, index: nat)
    requires Sorted(s) && Splits(s, p.key, index) && (index < |s| ==> s[index].key != p.key)
    ensures Sorted(With(s, index, p)) && !HasKey(s, p.key)
  {
    var t := With(s, index, p);
    assert forall i :: index < i < |t| ==> t[i] == s[i - 1];
  }

  /** Inserting a pair with a new key anywhere puts exactly that pair into the map. */
  lemma {:induction false} WithMap(s: seq<Pair>, p: Pair, index: nat)
    requires index <= |s| && !HasKey(s, p.key)
    ensures MapOf(With(s, index, p)) == MapOf(s)[p.key := p.value]
  {
    var n := |s| - 1;
    if index == |s| {
      assert With(s, index, p)[..|s|] == s;
    } else {
      assert With(s, index, p)[..|s|] == With(s[..n], index, p);
      assert HasKey(s[..n], p.key) ==> HasKey(s, p.key);
      assert s[n].key != p.key;
      WithMap(s[..n], p, index);
    }
  }

  /** A map has one sorted listing, so pages that hold the same pairs are equal, in whatever order
      they were inserted. */
  lemma {:induction false} SortedIsUnique(s: seq<Pair>, t: seq<Pair>)
    requires Sorted(s) && Sorted(t) && MapOf(s) == MapOf(t)
    ensures s == t
  {
    SizeOfMap(s);
    SizeOfMap(t);
    if s != [] {
      var n := |s| - 1;
      KeysOfMap(s, t[n].key);
      KeysOfMap(t, s[n].key);
      KeysOfMap(s[..n], s[n].key);
      KeysOfMap(t[..n], t[n].key);
      KeysOfMap(t, t[n].key);
      KeysOfMap(s, s[n].key);
      assert s[n].key == t[n].key;
      assert MapOf(s[..n]) == MapOf(s) - {s[n].key};
      assert MapOf(t[..n]) == MapOf(t) - {t[n].key};
      SortedIsUnique(s[..n], t[..n]);
    }
  }

  class LeafPage {
    const maxSize: int
    const items: array<Pair>
    var size: nat

    ghost predicate Valid()
      reads this, items
    {
      size <= items.Length && maxSize <= items.Length && Sorted(items[..size])
    }

    ghost function Items(): seq<Pair>
      requires size <= items.Length
      reads this, items
    {
      items[..size]
    }

    /** Zero asks for as many pairs as fit the page. */
    constructor Init(maxSize: int)
      requires maxSize <= PAIRS_PER_PAGE
      ensures Valid() && Items() == [] && fresh(items)
      ensures this.maxSize == if maxSize == 0 then PAIRS_PER_PAGE else maxSize
    {
      this.maxSize := if maxSize == 0 then PAIRS_PER_PAGE else maxSize;
      items := new Pair[PAIRS_PER_PAGE](_ => Pair(0, 0));
      size := 0;
    }

    /** The first position whose key is not below `key`, by bisection. */
    method KeyIndex(key: int) returns (index: nat)
      requires Valid()
      ensures Splits(Items(), key, index)
    {
      var first, length := 0, size;
      while length > 0
        invariant 0 <= first && 0 <= length && first + length <= size <= items.Length
        invariant forall i :: 0 <= i < first ==> items[i].key < key
        invariant forall i :: first + length <= i < size ==> items[i].key >= key
      {
        var half := length / 2;
        Ordered();
        if items[first + half].key < key {
          first := first + half + 1;
          length := length - half - 1;
        } else {
          length := half;
        }
      }
      index := first;
    }

    lemma Ordered()
      requires Valid()
      ensures forall i, j :: 0 <= i < j < size ==> items[i].key < items[j].key
    {
      assert forall i :: 0 <= i < size ==> items[i] == items[..size][i];
    }

    /** Opens a gap at `index` by moving the pairs from there on one place up, last first. */
    method Shift(index: nat)
      requires index <= size < items.Length
      modifies items
      ensures forall i :: 0 <= i < index ==> items[i] == old(items[i])
      ensures forall i :: index < i <= size ==> items[i] == old(items[i - 1])
    {
      var i := size;
      while i > index
        invariant index <= i <= size
        invariant forall j :: 0 <= j <= i && j < size ==> items[j] == old(items[j])
        invariant forall j :: i < j <= size ==> items[j] == old(items[j - 1])
      {
        items[i] := items[i - 1];
        i := i - 1;
      }
    }

    /** The new size, or -1 when the page is full or has the key. */
    method Insert(key: int, value: int) returns (r: int)
      requires Valid()
      modifies this`size, items
      ensures Valid() && old(Sorted(Items()))
      ensures MapOf(Items()) == PutIfAbsent(old(MapOf(Items())), maxSize, Pair(key, value))
      ensures r == if old(size) >= maxSize || key in old(MapOf(Items())) then -1 else old(size) + 1
      ensures r == -1 ==> Items() == old(Items())
    {
      hide MapOf;
      SizeOfMap(Items());
      if size >= maxSize {
        return -1;
      }
      var index := KeyIndex(key);
      if index < size && items[index].key == key {
        KeysOfMap(Items(), key);
        assert HasKey(Items(), Items()[index].key);
        return -1;
      }
      ghost var before := Items();
      WithSorted(before, Pair(key, value), index);
      WithMap(before, Pair(key, value), index);
      KeysOfMap(before, key);
      Shift(index);
      items[index] := Pair(key, value);
      size := size + 1;
      assert items[..size] == With(before, index, Pair(key, value));
      r := size;
    }
  }

  ghost predicate DistinctKeys(ps: seq<Pair>) {
    forall i, j :: 0 <= i < j < |ps| ==> ps[i].key != ps[j].key
  }

  /** Distinct keys that fit are all accepted. */
  lemma {:induction false} PutAllDistinct(maxSize: int, ps: seq<Pair>)
    requires |ps| <= maxSize && DistinctKeys(ps)
    ensures PutAll(map[], maxSize, ps) == MapOf(ps)
    ensures |PutAll(map[], maxSize, ps)| == |ps|
  {
    if ps != [] {
      var n := |ps| - 1;
      PutAllDistinct(maxSize, ps[..n]);
      KeysOfMap(ps[..n], ps[n].key);
    }
  }

  lemma {:induction false} PairInMap(ps: seq<Pair>, p: Pair)
    requires DistinctKeys(ps)
    ensures p in ps <==> p.key in MapOf(ps) && MapOf(ps)[p.key] == p.value
  {
    if ps != [] {
      var n := |ps| - 1;
      PairInMap(ps[..n], p);
      assert ps == ps[..n] + [ps[n]];
    }
  }

  /** Two fresh pages given the same pairs, in any two orders, end up equal. */
  lemma {:induction false} OrderDoesNotMatter(maxSize: int, ps: seq<Pair>, qs: seq<Pair>, s: seq<Pair>, t: seq<Pair>)
    requires |ps| <= maxSize && |qs| <= maxSize && DistinctKeys(ps) && DistinctKeys(qs)
    requires forall p :: p in ps <==> p in qs
    requires Sorted(s) && MapOf(s) == PutAll(map[], maxSize, ps)
    requires Sorted(t) && MapOf(t) == PutAll(map[], maxSize, qs)
    ensures s == t
  {
    PutAllDistinct(maxSize, ps);
    PutAllDistinct(maxSize, qs);
    var m, m' := MapOf(ps), MapOf(qs);
    forall k
      ensures k in m <==> k in m'
      ensures k in m && k in m' ==> m[k] == m'[k]
    {
      if k in m {
        PairInMap(ps, Pair(k, m[k]));
        PairInMap(qs, Pair(k, m[k]));
      } else if k in m' {
        PairInMap(ps, Pair(k, m'[k]));
        PairInMap(qs, Pair(k, m'[k]));
      }
    }
    assert m == m';
    SortedIsUnique(s, t);
  }

  /** A run of insertions leaves the pairs that each in turn would have put. */
  method InsertEach(leaf: LeafPage, ps: seq<Pair>)
    requires leaf.Valid()
    modifies leaf`size, leaf.items
    ensures leaf.Valid() && MapOf(leaf.Items()) == PutAll(old(MapOf(leaf.Items())), leaf.maxSize, ps)
  {
    hide MapOf;
    for i := 0 to |ps|
      invariant leaf.Valid() && MapOf(leaf.Items()) == PutAll(old(MapOf(leaf.Items())), leaf.maxSize, ps[..i])
    {
      assert ps[..i + 1][..i] == ps[..i];
      var r := leaf.Insert(ps[i].key, ps[i].value);
    }
    assert ps[..|ps|] == ps;
  }

  /** Two fresh leaves given the same distinct pairs that fit, in any two orders, end up equal. */
  method InsertInTwoOrders(maxSize: int, ps: seq<Pair>, qs: seq<Pair>) returns (a: LeafPage, b: LeafPage)
    requires 0 < maxSize <= PAIRS_PER_PAGE && |ps| <= maxSize && |qs| <= maxSize
    requires DistinctKeys(ps) && DistinctKeys(qs) && forall p :: p in ps <==> p in qs
    ensures a.Valid() && b.Valid() && a.Items() == b.Items() && MapOf(a.Items()) == MapOf(ps)
  {
    hide MapOf, DistinctKeys, PutAll;
    a := new LeafPage.Init(maxSize);
    InsertEach(a, ps);
    b := new LeafPage.Init(maxSize);
    InsertEach(b, qs);
    EmptyMap();
    PutAllDistinct(maxSize, ps);
    OrderDoesNotMatter(maxSize, ps, qs, a.Items(), b.Items());
  }

  lemma EmptyMap()
    ensures MapOf([]) == map[]
  {
  }
}
