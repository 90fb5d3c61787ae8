/** The column-sort state both tables keep, and a stable sort of records by a
    string key in either direction. `localeCompare` is stood in for by the
    lexicographic order on character codes, a total order on strings. */
module TableSort {

  datatype Direction = Asc | Desc

  datatype SortState = SortState(field: string, direction: Direction)

  /** `useState('name')` and `useState('asc')`. */
  const Initial: SortState := SortState("name", Asc)

  function Flip(d: Direction): (e: Direction)
    ensures e != d
  {
    if d == Asc then Desc else Asc
  }

  /** `handleSort(field)`: clicking the sorted column reverses the direction;
      clicking another column sorts by it ascending. */
  function HandleSort(s: SortState, field: string): (r: SortState)
    ensures r.field == field
    ensures s.field == field ==> r.direction != s.direction
    ensures s.field != field ==> r.direction == Asc
  {
    if s.field == field then s.(direction := Flip(s.direction)) else SortState(field, Asc)
  }

  /** Clicking the same column twice restores the state, and a freshly
      chosen column is descending after its second click. */
  lemma HandleSortTwice(s: SortState, field: string)
    ensures s.field == field ==> HandleSort(HandleSort(s, field), field) == s
    ensures s.field != field ==> HandleSort(HandleSort(s, field), field) == SortState(field, Desc)
  {
  }

  /** From the initial state, the name column is descending after one click
      and any other column ascending. */
  lemma FirstClick(field: string)
    ensures HandleSort(Initial, field).direction == (if field == "name" then Desc else Asc)
  {
  }

  /** Lexicographic order on character codes: `a` is a prefix of `b`, or the
      first differing character of `a` is smaller. */
  predicate LexLe(a: string, b: string) {
    |a| == 0 || (|b| > 0 && (a[0] < b[0] || (a[0] == b[0] && LexLe(a[1..], b[1..]))))
  }

  lemma {:induction false} LexLeTotal(a: string, b: string)
    ensures LexLe(a, b) || LexLe(b, a)
  {
    if |a| > 0 && |b| > 0 && a[0] == b[0] {
      LexLeTotal(a[1..], b[1..]);
    }
  }

  lemma {:induction false} LexLeAntisymmetric(a: string, b: string)
    requires LexLe(a, b) && LexLe(b, a)
    ensures a == b
  {
    if |a| > 0 && |b| > 0 {
      LexLeAntisymmetric(a[1..], b[1..]);
      assert a == [a[0]] + a[1..] && b == [b[0]] + b[1..];
    }
  }

  /** The comparator's "keep `a` before `b`" for a direction: `a <= b`
      ascending, `a >= b` descending. */
  predicate Before(d: Direction, a: string, b: string) {
    if d == Asc then LexLe(a, b) else LexLe(b, a)
  }

  /** Adjacent keys are in order for the direction. */
  predicate Ordered<T>(s: seq<T>, key: T -> string, d: Direction) {
    forall i :: 0 <= i < |s| - 1 ==> Before(d, key(s[i]), key(s[i + 1]))
  }

  /** Insert `x` into an ordered sequence before the first element it may
      precede. */
  function Insert<T>(x: T, s: seq<T>, key: T -> string, d: Direction): (r: seq<T>)
    requires Ordered(s, key, d)
    ensures Ordered(r, key, d)
    ensures multiset(r) == multiset(s) + multiset{x}
    ensures |r| > 0 && (r[0] == x || (|s| > 0 && r[0] == s[0]))
  {
    if |s| == 0 then [x]
    else if Before(d, key(x), key(s[0])) then [x] + s
    else
      var rest := Insert(x, s[1..], key, d);
      LexLeTotal(key(x), key(s[0]));
      assert s == [s[0]] + s[1..];
      [s[0]] + rest
  }

  /** A copy of `s` sorted by key in direction `d`, equal keys keeping their
      input order. */
  function SortBy<T>(s: seq<T>, key: T -> string, d: Direction): (r: seq<T>)
    ensures Ordered(r, key, d)
    ensures multiset(r) == multiset(s)
  {
    if |s| == 0 then []
    else
      assert s == [s[0]] + s[1..];
      Insert(s[0], SortBy(s[1..], key, d), key, d)
  }

  /** The elements of `s` whose key is `k`, in their order in `s`. */
  function WithKey<T>(s: seq<T>, key: T -> string, k: string): seq<T> {
    if |s| == 0 then [] else (if key(s[0]) == k then [s[0]] else []) + WithKey(s[1..], key, k)
  }

  lemma {:induction false} LexLeReflexive(a: string)
    ensures LexLe(a, a)
  {
    if |a| > 0 {
      LexLeReflexive(a[1..]);
    }
  }

  /** Insertion places `x` ahead of every element with the same key. */
  lemma {:induction false} InsertWithKey<T>(x: T, s: seq<T>, key: T -> string, d: Direction, k: string)
    requires Ordered(s, key, d)
    ensures WithKey(Insert(x, s, key, d), key, k) == (if key(x) == k then [x] else []) + WithKey(s, key, k)
  {
    if |s| == 0 || Before(d, key(x), key(s[0])) {
      InsertFront(x, s, key, d);
      WithKeyCons(x, s, key, k);
    } else {
      var rest := Insert(x, s[1..], key, d);
      var w := WithKey(s[1..], key, k);
      InsertBehind(x, s, key, d);
      InsertWithKey(x, s[1..], key, d, k);
      WithKeyCons(s[0], rest, key, k);
      assert s == [s[0]] + s[1..];
      WithKeyCons(s[0], s[1..], key, k);
      if key(x) == k {
        if key(s[0]) == k {
          LexLeReflexive(k);
          assert false;
        }
        assert WithKey(s, key, k) == w;
      } else {
        assert WithKey(rest, key, k) == w;
      }
    }
  }

  lemma WithKeyCons<T>(y: T, s: seq<T>, key: T -> string, k: string)
    ensures WithKey([y] + s, key, k) == (if key(y) == k then [y] else []) + WithKey(s, key, k)
  {
    assert ([y] + s)[1..] == s;
  }

  /** An element that may not precede the head is inserted into the tail. */
  lemma InsertBehind<T>(x: T, s: seq<T>, key: T -> string, d: Direction)
    requires Ordered(s, key, d) && |s| > 0 && !Before(d, key(x), key(s[0]))
    ensures Ordered(s[1..], key, d)
    ensures Insert(x, s, key, d) == [s[0]] + Insert(x, s[1..], key, d)
  {
  }

  /** The sort is stable: for every key, the elements carrying it keep
      their input order. */
  lemma {:induction false} SortByStable<T>(s: seq<T>, key: T -> string, d: Direction, k: string)
    ensures WithKey(SortBy(s, key, d), key, k) == WithKey(s, key, k)
  {
    if |s| > 0 {
      SortByStable(s[1..], key, d, k);
      InsertWithKey(s[0], SortBy(s[1..], key, d), key, d, k);
    }
  }

  /** An already ordered input comes back unchanged. */
  lemma {:induction false} SortByOrdered<T>(s: seq<T>, key: T -> string, d: Direction)
    requires Ordered(s, key, d)
    ensures SortBy(s, key, d) == s
  {
    if |s| > 0 {
      var t := s[1..];
      OrderedTail(s, key, d);
      SortByOrdered(t, key, d);
      InsertFront(s[0], t, key, d);
      assert s == [s[0]] + t;
    }
  }

  /** The head of an ordered sequence is ordered against its tail. */
  lemma OrderedTail<T>(s: seq<T>, key: T -> string, d: Direction)
    requires |s| > 0 && Ordered(s, key, d)
    ensures Ordered(s[1..], key, d)
    ensures |s| > 1 ==> Before(d, key(s[0]), key(s[1..][0]))
  {
  }

  /** An element that may precede the head is inserted in front. */
  lemma InsertFront<T>(x: T, s: seq<T>, key: T -> string, d: Direction)
    requires Ordered(s, key, d) && (|s| == 0 || Before(d, key(x), key(s[0])))
    ensures Insert(x, s, key, d) == [x] + s
  {
  }
}
