/** A stable sort into descending order of a two-level key, the behaviour that
    `Array.prototype.sort` guarantees (it is stable since ECMAScript 2019) when
    the comparator orders by a first key and breaks ties by a second one. */
module StableSort {

  /** A sort key, compared lexicographically: `primary` first, then `secondary`. */
  datatype Rank = Rank(primary: int, secondary: int)

  /** `a` must come strictly before `b` in descending order. */
  predicate Outranks(a: Rank, b: Rank) {
    a.primary > b.primary || (a.primary == b.primary && a.secondary > b.secondary)
  }

  /** No element is outranked by an element that comes after it. */
  predicate Sorted<T>(s: seq<T>, key: T -> Rank) {
    forall i, j | 0 <= i < j < |s| :: !Outranks(key(s[j]), key(s[i]))
  }

  /** The elements of `s` whose key is exactly `k`, in their order in `s`: the
      block of ties that a stable sort must leave in place. */
  function Ties<T>(s: seq<T>, key: T -> Rank, k: Rank): (r: seq<T>)
    ensures forall i | 0 <= i < |r| :: key(r[i]) == k
  {
    if |s| == 0 then []
    else (if key(s[0]) == k then [s[0]] else []) + Ties(s[1..], key, k)
  }

  /** Inserts `x` after every element of `s` that outranks it and before the
      first one that does not. */
  function Insert<T>(x: T, s: seq<T>, key: T -> Rank): (r: seq<T>)
    ensures |r| == |s| + 1
  {
    if |s| == 0 then [x]
    else if Outranks(key(s[0]), key(x)) then [s[0]] + Insert(x, s[1..], key)
    else [x] + s
  }

  /** Insertion adds exactly `x`. */
  lemma {:induction false} InsertPermutes<T>(x: T, s: seq<T>, key: T -> Rank)
    ensures multiset(Insert(x, s, key)) == multiset(s) + multiset{x}
  {
    if |s| > 0 && Outranks(key(s[0]), key(x)) {
      InsertPermutes(x, s[1..], key);
      assert s == [s[0]] + s[1..];
    }
  }

  /** Ranks are totally preordered by "is not outranked by". */
  lemma AtLeastTransitive(a: Rank, b: Rank, c: Rank)
    requires !Outranks(b, a) && !Outranks(c, b)
    ensures !Outranks(c, a)
  {
  }

  /** Inserting into a sorted sequence keeps it sorted. */
  lemma {:induction false} InsertSorted<T>(x: T, s: seq<T>, key: T -> Rank)
    requires Sorted(s, key)
    ensures Sorted(Insert(x, s, key), key)
  {
    var r := Insert(x, s, key);
    if |s| == 0 {
    } else if Outranks(key(s[0]), key(x)) {
      var rest := Insert(x, s[1..], key);
      InsertSorted(x, s[1..], key);
      InsertPermutes(x, s[1..], key);
      assert r == [s[0]] + rest;
      forall i, j | 0 <= i < j < |r| ensures !Outranks(key(r[j]), key(r[i])) {
        if i == 0 {
          assert r[j] == rest[j - 1];
          assert r[j] in multiset(rest);
          if r[j] != x {
            assert r[j] in multiset(s[1..]);
            var j' :| 0 <= j' < |s[1..]| && s[1..][j'] == r[j];
            assert s[j' + 1] == r[j];
          }
        } else {
          assert r[i] == rest[i - 1] && r[j] == rest[j - 1];
        }
      }
    } else {
      assert r == [x] + s;
      forall i, j | 0 <= i < j < |r| ensures !Outranks(key(r[j]), key(r[i])) {
        if i == 0 {
          assert r[j] == s[j - 1];
          if j > 1 {
            AtLeastTransitive(key(x), key(s[0]), key(s[j - 1]));
          }
        } else {
          assert r[i] == s[i - 1] && r[j] == s[j - 1];
        }
      }
    }
  }

  /** Stable insertion sort: the last element is placed first, each earlier one
      is inserted in front of its ties. */
  function Sort<T>(s: seq<T>, key: T -> Rank): (r: seq<T>)
    ensures multiset(r) == multiset(s)
    ensures |r| == |s|
    ensures Sorted(r, key)
  {
    if |s| == 0 then []
    else
      assert s == [s[0]] + s[1..];
      var rest := Sort(s[1..], key);
      InsertSorted(s[0], rest, key);
      InsertPermutes(s[0], rest, key);
      Insert(s[0], rest, key)
  }

  lemma {:induction false} TiesOfCons<T>(x: T, s: seq<T>, key: T -> Rank, k: Rank)
    ensures Ties([x] + s, key, k) == (if key(x) == k then [x] else []) + Ties(s, key, k)
  {
    assert ([x] + s)[1..] == s;
  }

  /** Insertion puts `x` in front of its ties and leaves every tie block of `s`
      in its order. */
  lemma {:induction false} InsertTies<T>(x: T, s: seq<T>, key: T -> Rank, k: Rank)
    ensures Ties(Insert(x, s, key), key, k) == (if key(x) == k then [x] else []) + Ties(s, key, k)
  {
    if |s| == 0 {
      TiesOfCons(x, s, key, k);
    } else if Outranks(key(s[0]), key(x)) {
      InsertTies(x, s[1..], key, k);
      InsertTiesPast(x, s, key, k);
    } else {
      TiesOfCons(x, s, key, k);
    }
  }

  /** The step of `InsertTies` where `x` moves past the head of `s`. */
  lemma {:induction false} InsertTiesPast<T>(x: T, s: seq<T>, key: T -> Rank, k: Rank)
    requires |s| > 0 && Outranks(key(s[0]), key(x))
    requires Ties(Insert(x, s[1..], key), key, k) == (if key(x) == k then [x] else []) + Ties(s[1..], key, k)
    ensures Ties(Insert(x, s, key), key, k) == (if key(x) == k then [x] else []) + Ties(s, key, k)
  {
    var rest := Insert(x, s[1..], key);
    var head := if key(s[0]) == k then [s[0]] else [];
    var mine := if key(x) == k then [x] else [];
    assert Insert(x, s, key) == [s[0]] + rest;
    TiesOfCons(s[0], rest, key, k);
    assert Ties(Insert(x, s, key), key, k) == head + (mine + Ties(s[1..], key, k));
    assert Ties(s, key, k) == head + Ties(s[1..], key, k);
    assert head == [] || mine == [];
  }

  /** Stability: each block of equal keys keeps its input order. */
  lemma {:induction false} SortKeepsTies<T>(s: seq<T>, key: T -> Rank, k: Rank)
    ensures Ties(Sort(s, key), key, k) == Ties(s, key, k)
  {
    if |s| > 0 {
      SortKeepsTies(s[1..], key, k);
      InsertTies(s[0], Sort(s[1..], key), key, k);
      TiesOfCons(s[0], s[1..], key, k);
      assert s == [s[0]] + s[1..];
    }
  }
}
