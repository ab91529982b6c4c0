/**
 * What `sort.SliceStable` promises: an ordered result in which the elements of each equivalence class
 * keep their order. One result fits the promise, so the algorithm behind it does not matter.
 */
module StableSort {

  type Less<!T> = (T, T) -> bool

  function Equivalent<T>(less: Less<T>, a: T, b: T): bool {
    !less(a, b) && !less(b, a)
  }

  /** Irreflexive, transitive, and with transitive incomparability. */
  ghost predicate StrictWeakOrder<T(!new)>(less: Less<T>) {
    && (forall a :: !less(a, a))
    && (forall a, b, c :: less(a, b) && less(b, c) ==> less(a, c))
    && (forall a, b, c :: Equivalent(less, a, b) && Equivalent(less, b, c) ==> Equivalent(less, a, c))
  }

  ghost predicate Ordered<T>(less: Less<T>, s: seq<T>) {
    forall i, j :: 0 <= i < j < |s| ==> !less(s[j], s[i])
  }

  /** The elements equivalent to `x`, in their order. */
  function ClassOf<T>(less: Less<T>, s: seq<T>, x: T): (r: seq<T>)
    ensures forall e :: e in r ==> e in s && Equivalent(less, e, x)
  {
    if s == [] then []
    else if Equivalent(less, s[0], x) then [s[0]] + ClassOf(less, s[1..], x)
    else ClassOf(less, s[1..], x)
  }

  ghost predicate SameClasses<T(!new)>(less: Less<T>, s: seq<T>, t: seq<T>) {
    forall x: T :: ClassOf(less, s, x) == ClassOf(less, t, x)
  }

  /** Puts an element in front of the first that is not less than it. */
  function Insert<T>(less: Less<T>, x: T, s: seq<T>): (r: seq<T>)
    ensures multiset(r) == multiset(s) + multiset{x}
  {
    if s == [] then [x]
    else if less(s[0], x) then
      assert s == [s[0]] + s[1..];
      [s[0]] + Insert(less, x, s[1..])
    else [x] + s
  }

  function Sort<T>(less: Less<T>, s: seq<T>): (r: seq<T>)
    ensures multiset(r) == multiset(s)
  {
    if s == [] then [] else
      assert s == [s[0]] + s[1..];
      Insert(less, s[0], Sort(less, s[1..]))
  }

  // ----- order

  lemma LessThrough<T(!new)>(less: Less<T>, a: T, b: T, c: T)
    requires StrictWeakOrder(less)
    ensures !less(b, a) && !less(c, b) ==> !less(c, a)
  {
    assert less(c, a) && less(a, b) ==> less(c, b);
    assert less(b, c) && less(c, a) ==> less(b, a);
    assert Equivalent(less, a, b) && Equivalent(less, b, c) ==> Equivalent(less, a, c);
  }

  lemma OrderedBehind<T(!new)>(less: Less<T>, x: T, s: seq<T>)
    requires Ordered(less, s) && forall e :: e in s ==> !less(e, x)
    ensures Ordered(less, [x] + s)
  {
  }

  lemma {:induction false} InsertKeepsOrder<T(!new)>(less: Less<T>, x: T, s: seq<T>)
    requires StrictWeakOrder(less) && Ordered(less, s)
    ensures Ordered(less, Insert(less, x, s))
  {
    if s == [] {
    } else {
      if less(s[0], x) {
        InsertKeepsOrder(less, x, s[1..]);
        forall e | e in Insert(less, x, s[1..]) ensures !less(e, s[0]) {
          assert e in multiset(Insert(less, x, s[1..]));
          assert e == x || e in s[1..];
          assert less(x, s[0]) && less(s[0], x) ==> less(x, x);
        }
        OrderedBehind(less, s[0], Insert(less, x, s[1..]));
      } else {
        forall e | e in s ensures !less(e, x) {
          LessThrough(less, x, s[0], e);
        }
        OrderedBehind(less, x, s);
      }
    }
  }

  lemma {:induction false} SortOrders<T(!new)>(less: Less<T>, s: seq<T>)
    requires StrictWeakOrder(less)
    ensures Ordered(less, Sort(less, s))
  {
    if s == [] {
    } else {
      SortOrders(less, s[1..]);
      InsertKeepsOrder(less, s[0], Sort(less, s[1..]));
    }
  }

  // ----- stability

  lemma {:induction false} InsertIntoClass<T(!new)>(less: Less<T>, x: T, s: seq<T>, y: T)
    requires StrictWeakOrder(less)
    ensures ClassOf(less, Insert(less, x, s), y) == ClassOf(less, [x] + s, y)
  {
    assert ([x] + s)[1..] == s;
    if s == [] || !less(s[0], x) {
    } else {
      var rest := Insert(less, x, s[1..]);
      InsertIntoClass(less, x, s[1..], y);
      assert ([s[0]] + rest)[1..] == rest;
      assert ([x] + s[1..])[1..] == s[1..];
      assert Equivalent(less, x, y) ==> Equivalent(less, y, x);
      assert Equivalent(less, s[0], y) && Equivalent(less, y, x) ==> Equivalent(less, s[0], x);
    }
  }

  lemma {:induction false} SortKeepsClass<T(!new)>(less: Less<T>, s: seq<T>, y: T)
    requires StrictWeakOrder(less)
    ensures ClassOf(less, Sort(less, s), y) == ClassOf(less, s, y)
  {
    if s == [] {
    } else {
      SortKeepsClass(less, s[1..], y);
      InsertIntoClass(less, s[0], Sort(less, s[1..]), y);
      assert ([s[0]] + Sort(less, s[1..]))[1..] == Sort(less, s[1..]);
    }
  }

  lemma SortIsStable<T(!new)>(less: Less<T>, s: seq<T>)
    requires StrictWeakOrder(less)
    ensures SameClasses(less, Sort(less, s), s)
  {
    forall y: T ensures ClassOf(less, Sort(less, s), y) == ClassOf(less, s, y) {
      SortKeepsClass(less, s, y);
    }
  }

  // ----- uniqueness

  lemma {:induction false} InClass<T(!new)>(less: Less<T>, s: seq<T>, i: nat)
    requires StrictWeakOrder(less) && i < |s|
    ensures s[i] in ClassOf(less, s, s[i])
  {
    if i == 0 {
    } else {
      InClass(less, s[1..], i - 1);
      assert s[1..][i - 1] == s[i];
    }
  }

  /** The first elements of two ordered sequences with the same classes. */
  lemma SameHead<T(!new)>(less: Less<T>, s: seq<T>, t: seq<T>)
    requires StrictWeakOrder(less) && Ordered(less, s) && Ordered(less, t) && SameClasses(less, s, t) && s != []
    ensures t != [] && s[0] == t[0]
  {
    InClass(less, s, 0);
    assert s[0] in ClassOf(less, t, s[0]);
    InClass(less, t, 0);
    assert t[0] in ClassOf(less, s, t[0]);
    NotLessThanHead(less, s, t[0]);
    NotLessThanHead(less, t, s[0]);
    assert ClassOf(less, s, s[0])[0] == s[0];
    assert ClassOf(less, t, s[0])[0] == t[0];
  }

  lemma NotLessThanHead<T(!new)>(less: Less<T>, s: seq<T>, x: T)
    requires StrictWeakOrder(less) && Ordered(less, s) && x in s
    ensures s != [] && !less(x, s[0])
  {
    var i :| 0 <= i < |s| && s[i] == x;
  }

  lemma TailClasses<T(!new)>(less: Less<T>, s: seq<T>, t: seq<T>)
    requires SameClasses(less, s, t) && s != [] && t != [] && s[0] == t[0]
    ensures SameClasses(less, s[1..], t[1..])
  {
    forall x: T ensures ClassOf(less, s[1..], x) == ClassOf(less, t[1..], x) {
      var a, b := ClassOf(less, s, x), ClassOf(less, t, x);
      assert a == b;
      if Equivalent(less, s[0], x) {
        assert a[1..] == ClassOf(less, s[1..], x);
        assert b[1..] == ClassOf(less, t[1..], x);
      }
    }
  }

  lemma {:induction false} OnlyOneResult<T(!new)>(less: Less<T>, s: seq<T>, t: seq<T>)
    requires StrictWeakOrder(less) && Ordered(less, s) && Ordered(less, t) && SameClasses(less, s, t)
    ensures s == t
  {
    if s == [] {
      if t != [] {
        SameHead(less, t, s);
      }
    } else {
      SameHead(less, s, t);
      TailClasses(less, s, t);
      OnlyOneResult(less, s[1..], t[1..]);
      assert s == [s[0]] + s[1..] && t == [t[0]] + t[1..];
    }
  }

  /** Whatever keeps the promise computes `Sort`. */
  lemma PromiseDeterminesResult<T(!new)>(less: Less<T>, s: seq<T>, r: seq<T>)
    requires StrictWeakOrder(less) && Ordered(less, r) && SameClasses(less, r, s)
    ensures r == Sort(less, s)
  {
    SortOrders(less, s);
    SortIsStable(less, s);
    OnlyOneResult(less, r, Sort(less, s));
  }
}
