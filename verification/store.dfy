/** The record-array idioms every service of the console repeats, stated once
    over a sequence of records and the function that reads a record's `Id`:
    `findIndex` by id, `max(...ids) + 1` id assignment, `splice(index, 1)`,
    `filter`, and the order-preserving-subsequence relation filters satisfy. */
module Store {
  import opened Base

  predicate UniqueKeys<T>(s: seq<T>, key: T -> int) {
    forall i, j :: 0 <= i < j < |s| ==> key(s[i]) != key(s[j])
  }

  predicate HasKey<T>(s: seq<T>, key: T -> int, id: int) {
    exists i :: 0 <= i < |s| && key(s[i]) == id
  }

  /** `s.findIndex(item => item.Id === id)`, `None` standing for `-1`. */
  function IndexOf<T>(s: seq<T>, key: T -> int, id: int): (r: Option<nat>)
    ensures r.None? <==> !HasKey(s, key, id)
    ensures r.Some? ==> r.value < |s| && key(s[r.value]) == id
    ensures r.Some? ==> forall j :: 0 <= j < r.value ==> key(s[j]) != id
  {
    if |s| == 0 then None
    else if key(s[0]) == id then Some(0)
    else match IndexOf(s[1..], key, id)
      case None =>
        assert forall i :: 1 <= i < |s| ==> s[i] == s[1..][i - 1];
        None
      case Some(k) => Some(k + 1)
  }

  /** With unique ids, the index found is the only record carrying that id. */
  lemma IndexOfUnique<T>(s: seq<T>, key: T -> int, id: int, i: nat)
    requires UniqueKeys(s, key)
    requires i < |s| && key(s[i]) == id
    ensures IndexOf(s, key, id) == Some(i)
  {
  }

  /** The first record carrying the id is the one found. */
  lemma IndexOfFirst<T>(s: seq<T>, key: T -> int, id: int, k: nat)
    requires k < |s| && key(s[k]) == id
    requires forall j :: 0 <= j < k ==> key(s[j]) != id
    ensures IndexOf(s, key, id) == Some(k)
  {
    assert HasKey(s, key, id);
  }

  /** `(s.length > 0 ? Math.max(...ids) : 0) + 1`. */
  function NextKey<T>(s: seq<T>, key: T -> int): (n: int)
    ensures forall i :: 0 <= i < |s| ==> key(s[i]) < n
    ensures |s| == 0 ==> n == 1
    ensures |s| > 0 ==> HasKey(s, key, n - 1)
  {
    if |s| == 0 then 1
    else if |s| == 1 then key(s[0]) + 1
    else
      var m := NextKey(s[1..], key);
      assert forall i :: 1 <= i < |s| ==> s[i] == s[1..][i - 1];
      if key(s[0]) + 1 >= m then key(s[0]) + 1 else m
  }

  /** `s.splice(i, 1)`: the record at `i` leaves, the others keep their order. */
  function RemoveAt<T>(s: seq<T>, i: nat): (r: seq<T>)
    requires i < |s|
    ensures |r| == |s| - 1
    ensures forall j :: 0 <= j < i ==> r[j] == s[j]
    ensures forall j :: i <= j < |r| ==> r[j] == s[j + 1]
    ensures multiset(r) + multiset{s[i]} == multiset(s)
  {
    assert s == s[..i] + [s[i]] + s[i + 1..];
    s[..i] + s[i + 1..]
  }

  lemma RemoveAtKeepsUnique<T>(s: seq<T>, key: T -> int, i: nat)
    requires i < |s| && UniqueKeys(s, key)
    ensures UniqueKeys(RemoveAt(s, i), key)
    ensures !HasKey(RemoveAt(s, i), key, key(s[i]))
  {
    var r := RemoveAt(s, i);
    forall a, b | 0 <= a < b < |r| ensures key(r[a]) != key(r[b]) {
      var a' := if a < i then a else a + 1;
      var b' := if b < i then b else b + 1;
      assert r[a] == s[a'] && r[b] == s[b'];
    }
    forall j | 0 <= j < |r| ensures key(r[j]) != key(s[i]) {
      var j' := if j < i then j else j + 1;
      assert r[j] == s[j'];
    }
  }

  /** Appending records whose ids are above every stored id, and unique among
      themselves, keeps ids unique. */
  lemma AppendFreshKeepsUnique<T>(s: seq<T>, added: seq<T>, key: T -> int)
    requires UniqueKeys(s, key) && UniqueKeys(added, key)
    requires forall i, j :: 0 <= i < |s| && 0 <= j < |added| ==> key(s[i]) < key(added[j])
    ensures UniqueKeys(s + added, key)
  {
    var r := s + added;
    forall a, b | 0 <= a < b < |r| ensures key(r[a]) != key(r[b]) {
      if b < |s| {
        assert r[a] == s[a] && r[b] == s[b];
      } else if a < |s| {
        assert r[a] == s[a] && r[b] == added[b - |s|];
      } else {
        assert r[a] == added[a - |s|] && r[b] == added[b - |s|];
      }
    }
  }

  /** Replacing a record by one with the same id keeps ids unique. */
  lemma ReplaceKeepsUnique<T>(s: seq<T>, key: T -> int, i: nat, x: T)
    requires i < |s| && UniqueKeys(s, key) && key(x) == key(s[i])
    ensures UniqueKeys(s[i := x], key)
  {
    var r := s[i := x];
    forall a, b | 0 <= a < b < |r| ensures key(r[a]) != key(r[b]) {
      assert key(r[a]) == key(s[a]) && key(r[b]) == key(s[b]);
    }
  }

  /** `r` is `s` with some elements dropped and the rest in their original order. */
  predicate Subsequence<T(==)>(r: seq<T>, s: seq<T>)
    decreases |s|
  {
    if |r| == 0 then true
    else if |s| == 0 then false
    else if r[0] == s[0] then Subsequence(r[1..], s[1..])
    else Subsequence(r, s[1..])
  }

  lemma {:induction false} SubsequenceRefl<T>(s: seq<T>)
    ensures Subsequence(s, s)
  {
    if |s| > 0 {
      SubsequenceRefl(s[1..]);
    }
  }

  /** A subsequence stays one when the longer sequence gains a head. */
  lemma {:induction false} SubsequenceExtend<T>(a: seq<T>, x: T, t: seq<T>)
    requires Subsequence(a, t)
    ensures Subsequence(a, [x] + t)
    decreases |t|, 1
  {
    assert ([x] + t)[1..] == t;
    if |a| > 0 && a[0] == x {
      SubsequenceDropHead(a, t);
    }
  }

  /** Dropping the head of a subsequence keeps it one. */
  lemma {:induction false} SubsequenceDropHead<T>(a: seq<T>, t: seq<T>)
    requires |a| > 0 && Subsequence(a, t)
    ensures Subsequence(a[1..], t)
    decreases |t|, 0
  {
    assert t == [t[0]] + t[1..];
    if a[0] == t[0] {
      SubsequenceExtend(a[1..], t[0], t[1..]);
    } else {
      SubsequenceDropHead(a, t[1..]);
      SubsequenceExtend(a[1..], t[0], t[1..]);
    }
  }

  lemma {:induction false} SubsequenceTrans<T>(a: seq<T>, b: seq<T>, c: seq<T>)
    requires Subsequence(a, b) && Subsequence(b, c)
    ensures Subsequence(a, c)
    decreases |c|
  {
    if |a| > 0 {
      assert c == [c[0]] + c[1..];
      if b[0] == c[0] {
        if a[0] == b[0] {
          SubsequenceTrans(a[1..], b[1..], c[1..]);
        } else {
          SubsequenceTrans(a, b[1..], c[1..]);
          SubsequenceExtend(a, c[0], c[1..]);
        }
      } else {
        SubsequenceTrans(a, b, c[1..]);
        SubsequenceExtend(a, c[0], c[1..]);
      }
    }
  }

  /** `s.filter(p)`. Which elements it keeps is stated by `FilterMembers`. */
  function Filter<T>(s: seq<T>, p: T -> bool): (r: seq<T>)
    ensures |r| <= |s|
    ensures forall i :: 0 <= i < |r| ==> p(r[i])
    ensures Subsequence(r, s)
  {
    if |s| == 0 then []
    else
      var rest := Filter(s[1..], p);
      if p(s[0]) then
        assert ([s[0]] + rest)[1..] == rest;
        [s[0]] + rest
      else rest
  }

  /** The filter keeps exactly the elements satisfying `p`. */
  lemma {:induction false} FilterMembers<T>(s: seq<T>, p: T -> bool)
    ensures forall i :: 0 <= i < |Filter(s, p)| ==> Filter(s, p)[i] in s
    ensures forall i :: 0 <= i < |s| && p(s[i]) ==> s[i] in Filter(s, p)
  {
    if |s| > 0 {
      FilterMembers(s[1..], p);
      assert forall i :: 1 <= i < |s| ==> s[i] == s[1..][i - 1];
    }
  }

  /** Every element satisfying `p` survives the filter, all of them. */
  lemma FilterAll<T>(s: seq<T>, p: T -> bool)
    requires forall i :: 0 <= i < |s| ==> p(s[i])
    ensures Filter(s, p) == s
  {
  }

  /** A filter and the filter of the complement split the input between them. */
  lemma {:induction false} FilterPartition<T>(s: seq<T>, p: T -> bool, q: T -> bool)
    requires forall x :: q(x) == !p(x)
    ensures multiset(Filter(s, p)) + multiset(Filter(s, q)) == multiset(s)
    ensures |Filter(s, p)| + |Filter(s, q)| == |s|
  {
    if |s| > 0 {
      FilterPartition(s[1..], p, q);
      assert s == [s[0]] + s[1..];
    }
  }

  lemma {:induction false} FilterNone<T>(s: seq<T>, p: T -> bool)
    requires forall i :: 0 <= i < |s| ==> !p(s[i])
    ensures Filter(s, p) == []
  {
    if |s| > 0 {
      FilterNone(s[1..], p);
    }
  }

  /** Filtering distributes over concatenation. */
  lemma {:induction false} FilterAppend<T>(a: seq<T>, b: seq<T>, p: T -> bool)
    ensures Filter(a + b, p) == Filter(a, p) + Filter(b, p)
  {
    if |a| == 0 {
      assert a + b == b;
    } else {
      assert (a + b)[1..] == a[1..] + b;
      FilterAppend(a[1..], b, p);
    }
  }

  /** The pieces `f` makes of each element, concatenated in order. */
  function FlatMap<A, B>(xs: seq<A>, f: A -> seq<B>): seq<B>
  {
    if |xs| == 0 then [] else f(xs[0]) + FlatMap(xs[1..], f)
  }

  /** Flat-mapping distributes over concatenation. */
  lemma {:induction false} FlatMapAppend<A, B>(a: seq<A>, b: seq<A>, f: A -> seq<B>)
    ensures FlatMap(a + b, f) == FlatMap(a, f) + FlatMap(b, f)
  {
    if |a| == 0 {
      assert a + b == b;
    } else {
      assert (a + b)[0] == a[0];
      assert (a + b)[1..] == a[1..] + b;
      FlatMapAppend(a[1..], b, f);
    }
  }

  lemma FlatMapOne<A, B>(x: A, f: A -> seq<B>)
    ensures FlatMap([x], f) == f(x)
  {
    assert [x][1..] == [];
  }

  /** At most one piece per element gives at most as many pieces as elements. */
  lemma {:induction false} FlatMapAtMostOne<A, B>(xs: seq<A>, f: A -> seq<B>)
    requires forall i :: 0 <= i < |xs| ==> |f(xs[i])| <= 1
    ensures |FlatMap(xs, f)| <= |xs|
  {
    if |xs| > 0 {
      assert forall i :: 1 <= i < |xs| ==> xs[1..][i - 1] == xs[i];
      FlatMapAtMostOne(xs[1..], f);
    }
  }

  /** Exactly one piece per element gives the pieces in element order. */
  lemma {:induction false} FlatMapSingletons<A, B>(xs: seq<A>, f: A -> seq<B>)
    requires forall i :: 0 <= i < |xs| ==> |f(xs[i])| == 1
    ensures |FlatMap(xs, f)| == |xs|
    ensures forall i :: 0 <= i < |xs| ==> FlatMap(xs, f)[i] == f(xs[i])[0]
  {
    if |xs| > 0 {
      assert forall i :: 1 <= i < |xs| ==> xs[1..][i - 1] == xs[i];
      FlatMapSingletons(xs[1..], f);
    }
  }

  /** A property every piece has holds of every element of the result. */
  lemma {:induction false} FlatMapAll<A, B>(xs: seq<A>, f: A -> seq<B>, p: B -> bool)
    requires forall i, k :: 0 <= i < |xs| && 0 <= k < |f(xs[i])| ==> p(f(xs[i])[k])
    ensures forall k :: 0 <= k < |FlatMap(xs, f)| ==> p(FlatMap(xs, f)[k])
  {
    if |xs| > 0 {
      assert forall i :: 1 <= i < |xs| ==> xs[1..][i - 1] == xs[i];
      FlatMapAll(xs[1..], f, p);
      var h := f(xs[0]);
      var t := FlatMap(xs[1..], f);
      assert forall k :: 0 <= k < |h| ==> (h + t)[k] == h[k];
      assert forall k :: |h| <= k < |h + t| ==> (h + t)[k] == t[k - |h|];
    }
  }

  /** Records not carrying a given key. */
  predicate AvoidsKey<T>(t: seq<T>, key: T -> int, id: int) {
    forall i :: 0 <= i < |t| ==> key(t[i]) != id
  }

  /** Filtering out a key no element carries changes nothing, also after a
      first filter. */
  lemma FilterOutAbsentKey<T>(s: seq<T>, p: T -> bool, key: T -> int, id: int, q: T -> bool)
    requires AvoidsKey(s, key, id)
    requires forall y :: q(y) == (key(y) != id)
    ensures Filter(Filter(s, p), q) == Filter(s, p)
  {
    FilterMembers(s, p);
    FilterAll(Filter(s, p), q);
  }

  /** Below the head, keys stay unique and differ from the head's. */
  lemma UniqueTail<T>(s: seq<T>, key: T -> int)
    requires UniqueKeys(s, key) && |s| > 0
    ensures UniqueKeys(s[1..], key) && AvoidsKey(s[1..], key, key(s[0]))
  {
    assert forall i :: 0 <= i < |s[1..]| ==> s[1..][i] == s[i + 1];
  }

  /** Replacing the record at `k` by one the filter rejects is seen through
      the filter as dropping that record's key. */
  lemma {:induction false} FilterReplaceDrops<T>(s: seq<T>, k: nat, x: T, p: T -> bool, key: T -> int, q: T -> bool)
    requires UniqueKeys(s, key) && k < |s| && !p(x)
    requires forall y :: q(y) == (key(y) != key(s[k]))
    ensures Filter(s[k := x], p) == Filter(Filter(s, p), q)
  {
    var s' := s[k := x];
    var f1 := Filter(s[1..], p);
    UniqueTail(s, key);
    if k == 0 {
      assert s'[1..] == s[1..];
      FilterOutAbsentKey(s[1..], p, key, key(s[0]), q);
      if p(s[0]) {
        assert ([s[0]] + f1)[1..] == f1;
      }
    } else {
      assert s'[1..] == s[1..][k - 1 := x];
      FilterReplaceDrops(s[1..], k - 1, x, p, key, q);
      if p(s[0]) {
        assert key(s[0]) != key(s[k]);
        assert ([s[0]] + f1)[1..] == f1;
      }
    }
  }

  /** Removing the record at `k` is seen through any filter as dropping that
      record's key. */
  lemma {:induction false} FilterRemoveDrops<T>(s: seq<T>, k: nat, p: T -> bool, key: T -> int, q: T -> bool)
    requires UniqueKeys(s, key) && k < |s|
    requires forall y :: q(y) == (key(y) != key(s[k]))
    ensures Filter(s[..k] + s[k + 1..], p) == Filter(Filter(s, p), q)
  {
    var s' := s[..k] + s[k + 1..];
    var f1 := Filter(s[1..], p);
    UniqueTail(s, key);
    if k == 0 {
      assert s' == s[1..];
      FilterOutAbsentKey(s[1..], p, key, key(s[0]), q);
      if p(s[0]) {
        assert ([s[0]] + f1)[1..] == f1;
      }
    } else {
      assert s'[0] == s[0];
      assert s'[1..] == s[1..][..k - 1] + s[1..][k..];
      FilterRemoveDrops(s[1..], k - 1, p, key, q);
      if p(s[0]) {
        assert key(s[0]) != key(s[k]);
        assert ([s[0]] + f1)[1..] == f1;
      }
    }
  }
}
