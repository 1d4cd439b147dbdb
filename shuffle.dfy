/**
 * `shuffle`: decorate each item with a random key, sort by key, drop the
 * keys. The keys (the `Math.random()` draws) are a parameter; `sort` with
 * the comparator `a.r - b.r` is a stable sort by key, written here as an
 * insertion sort.
 */
module Shuffling {

  datatype Keyed = Keyed(item: nat, key: real)

  /** The slots `0, 1, ..., n - 1` of `n` animatable units, in order. */
  function Range(n: nat): (r: seq<nat>)
    ensures |r| == n && forall i :: 0 <= i < n ==> r[i] == i
  {
    seq(n, i requires 0 <= i < n => i)
  }

  predicate Distinct(s: seq<nat>) {
    forall i, j :: 0 <= i < j < |s| ==> s[i] != s[j]
  }

  predicate SortedByKey(s: seq<Keyed>) {
    forall i, j :: 0 <= i < j < |s| ==> s[i].key <= s[j].key
  }

  /** `.map((o) => o.item)`: the items, keys dropped, order kept. */
  function Undecorate(s: seq<Keyed>): (r: seq<nat>)
    ensures |r| == |s| && forall i :: 0 <= i < |r| ==> r[i] == s[i].item
  {
    seq(|s|, i requires 0 <= i < |s| => s[i].item)
  }

  /** Insert `x` after every element whose key is not larger (so equal keys keep their order). */
  function Insert(x: Keyed, s: seq<Keyed>): (r: seq<Keyed>)
    ensures |r| == |s| + 1
  {
    if s == [] then [x]
    else if x.key < s[0].key then [x] + s
    else [s[0]] + Insert(x, s[1..])
  }

  /** Every key in `s` is at least `b`. */
  predicate KeysFrom(s: seq<Keyed>, b: real) {
    forall i :: 0 <= i < |s| ==> b <= s[i].key
  }

  lemma {:induction false} InsertKeysFrom(x: Keyed, s: seq<Keyed>, b: real)
    requires KeysFrom(s, b) && b <= x.key
    ensures KeysFrom(Insert(x, s), b)
    decreases |s|
  {
    if s != [] && x.key >= s[0].key {
      InsertKeysFrom(x, s[1..], b);
    }
  }

  lemma {:induction false} InsertSorted(x: Keyed, s: seq<Keyed>)
    requires SortedByKey(s)
    ensures SortedByKey(Insert(x, s))
    decreases |s|
  {
    if s == [] {
    } else if x.key < s[0].key {
      var r := [x] + s;
      forall i, j | 0 <= i < j < |r|
        ensures r[i].key <= r[j].key
      {
        if i == 0 {
          assert r[j] == s[j - 1];
        } else {
          assert r[i] == s[i - 1] && r[j] == s[j - 1];
        }
      }
    } else {
      var rest := Insert(x, s[1..]);
      InsertSorted(x, s[1..]);
      InsertKeysFrom(x, s[1..], s[0].key);
      var r := [s[0]] + rest;
      forall i, j | 0 <= i < j < |r|
        ensures r[i].key <= r[j].key
      {
        if i > 0 {
          assert r[i] == rest[i - 1] && r[j] == rest[j - 1];
        } else {
          assert r[j] == rest[j - 1];
        }
      }
    }
  }

  lemma UndecorateAppend(a: seq<Keyed>, b: seq<Keyed>)
    ensures Undecorate(a + b) == Undecorate(a) + Undecorate(b)
  {
  }

  lemma {:induction false} InsertItems(x: Keyed, s: seq<Keyed>)
    ensures multiset(Undecorate(Insert(x, s))) == multiset(Undecorate(s)) + multiset{x.item}
    decreases |s|
  {
    if s == [] {
      assert Undecorate([x]) == [x.item];
    } else if x.key < s[0].key {
      UndecorateAppend([x], s);
      assert Undecorate([x]) == [x.item];
    } else {
      var rest := Insert(x, s[1..]);
      InsertItems(x, s[1..]);
      UndecorateAppend([s[0]], rest);
      UndecorateAppend([s[0]], s[1..]);
      assert [s[0]] + s[1..] == s;
      assert Undecorate([s[0]]) == [s[0].item];
      assert multiset(Undecorate([s[0]] + rest)) == multiset([s[0].item]) + multiset(Undecorate(rest));
      assert multiset(Undecorate(s)) == multiset([s[0].item]) + multiset(Undecorate(s[1..]));
    }
  }

  /** `array.sort((a, b) => a.r - b.r)`. */
  function SortByKey(s: seq<Keyed>): (r: seq<Keyed>)
    ensures |r| == |s|
  {
    if s == [] then []
    else Insert(s[|s| - 1], SortByKey(s[..|s| - 1]))
  }

  /** The sort orders by key. */
  lemma {:induction false} SortByKeySorted(s: seq<Keyed>)
    ensures SortedByKey(SortByKey(s))
    decreases |s|
  {
    if s != [] {
      SortByKeySorted(s[..|s| - 1]);
      InsertSorted(s[|s| - 1], SortByKey(s[..|s| - 1]));
    }
  }

  /** The sort keeps the multiset of items. */
  lemma {:induction false} SortByKeyItems(s: seq<Keyed>)
    ensures multiset(Undecorate(SortByKey(s))) == multiset(Undecorate(s))
    decreases |s|
  {
    if s != [] {
      var init, last := s[..|s| - 1], s[|s| - 1];
      SortByKeyItems(init);
      InsertItems(last, SortByKey(init));
      assert Undecorate(s) == Undecorate(init) + [last.item] by {
        assert s == init + [last];
        UndecorateAppend(init, [last]);
      }
    }
  }

  /** `array.map((item) => ({ item, r: Math.random() }))`, with the `i`-th draw given as `keys[i]`. */
  function Decorate(items: seq<nat>, keys: seq<real>): (r: seq<Keyed>)
    requires |keys| == |items|
    ensures |r| == |items| && forall i :: 0 <= i < |r| ==> r[i].item == items[i] && r[i].key == keys[i]
    ensures Undecorate(r) == items
  {
    seq(|items|, i requires 0 <= i < |items| => Keyed(items[i], keys[i]))
  }

  /** `shuffle(items)` with the given random draws: a permutation of `items`. */
  function Shuffle(items: seq<nat>, keys: seq<real>): (r: seq<nat>)
    requires |keys| == |items|
    ensures |r| == |items|
    ensures multiset(r) == multiset(items)
  {
    var sorted := SortByKey(Decorate(items, keys));
    SortByKeyItems(Decorate(items, keys));
    assert Undecorate(Decorate(items, keys)) == items;
    Undecorate(sorted)
  }

  /** A sequence with the same multiset as a sequence without repetitions has none either. */
  lemma PermutationKeepsDistinct(s: seq<nat>, t: seq<nat>)
    requires multiset(s) == multiset(t) && Distinct(t)
    ensures Distinct(s)
  {
    forall i, j | 0 <= i < j < |s|
      ensures s[i] != s[j]
    {
      if s[i] == s[j] {
        var x := s[i];
        assert s == s[..j] + [x] + s[j + 1..];
        assert x in s[..j];
        assert multiset(s)[x] >= 2;
        DistinctCountsOnce(t, x);
        assert false;
      }
    }
  }

  lemma {:induction false} DistinctCountsOnce(t: seq<nat>, x: nat)
    requires Distinct(t)
    ensures multiset(t)[x] <= 1
    decreases |t|
  {
    if t != [] {
      assert t == [t[0]] + t[1..];
      assert Distinct(t[1..]);
      DistinctCountsOnce(t[1..], x);
      if t[0] == x {
        assert x !in t[1..];
      }
    }
  }

  /** Shuffling the slots of `n` units yields each slot exactly once. */
  lemma ShuffledSlots(n: nat, keys: seq<real>)
    requires |keys| == n
    ensures Distinct(Shuffle(Range(n), keys))
    ensures forall k: nat :: k in Shuffle(Range(n), keys) <==> k < n
  {
    var order := Shuffle(Range(n), keys);
    PermutationKeepsDistinct(order, Range(n));
    forall k: nat
      ensures k in order <==> k < n
    {
      assert k in order <==> k in multiset(order);
      assert k in Range(n) <==> k in multiset(Range(n));
      if k < n {
        assert Range(n)[k] == k;
      }
    }
  }
}
