/** Sequence facts and the one sort shared by the leaderboard, the profile
    history and the clue list. */
module Seqs {

  /** The set of elements of a sequence. */
  function Elems<T>(s: seq<T>): set<T>
  {
    set x | x in s
  }

  /** No element occurs twice. */
  predicate Distinct<T(==)>(s: seq<T>) {
    forall i, j :: 0 <= i < j < |s| ==> s[i] != s[j]
  }

  /** Two positions of a repetition-free sequence hold different values. */
  lemma {:induction false} DistinctAt<T>(s: seq<T>, i: int, j: int)
    requires Distinct(s) && 0 <= i < |s| && 0 <= j < |s| && i != j
    ensures s[i] != s[j]
  {
    if j < i {
      assert s[j] != s[i];
    }
  }

  /** A sequence has as many distinct elements as its length exactly when it
      has no repetition. */
  lemma {:induction false} DistinctIffFullCard<T>(s: seq<T>)
    ensures Distinct(s) <==> |Elems(s)| == |s|
  {
    if |s| == 0 {
      assert Elems(s) == {};
    } else {
      var t := s[1..];
      DistinctIffFullCard(t);
      ElemsCons(s);
      DistinctCons(s);
      if s[0] in t {
        assert Elems(s) == Elems(t);
        CardBound(t);
      } else {
        assert |Elems(s)| == |Elems(t)| + 1;
      }
    }
  }

  /** The elements of a non-empty sequence: its head and those of its tail. */
  lemma {:induction false} ElemsCons<T>(s: seq<T>)
    requires |s| > 0
    ensures Elems(s) == {s[0]} + Elems(s[1..])
  {
    assert s == [s[0]] + s[1..];
  }

  /** A non-empty sequence has no repetition exactly when its head is not in
      its tail and its tail has none. */
  lemma {:induction false} DistinctCons<T>(s: seq<T>)
    requires |s| > 0
    ensures Distinct(s) <==> s[0] !in s[1..] && Distinct(s[1..])
  {
    var t := s[1..];
    if Distinct(s) {
      forall i, j | 0 <= i < j < |t| ensures t[i] != t[j] {
        assert t[i] == s[i + 1] && t[j] == s[j + 1];
      }
      forall k | 0 <= k < |t| ensures t[k] != s[0] {
        assert t[k] == s[k + 1];
      }
    }
    if s[0] !in t && Distinct(t) {
      forall i, j | 0 <= i < j < |s| ensures s[i] != s[j] {
        assert s[j] == t[j - 1];
        if i > 0 {
          assert s[i] == t[i - 1];
        }
      }
    }
  }

  /** Removing position k takes one copy of `s[k]` out of the multiset. */
  lemma {:induction false} MultisetRemove<T>(s: seq<T>, k: int)
    requires 0 <= k < |s|
    ensures multiset(s) == multiset(s[..k] + s[k + 1..]) + multiset{s[k]}
  {
    assert s == s[..k] + [s[k]] + s[k + 1..];
  }

  /** Taking the head of `s` off both sides of a permutation, where it sits
      at position k of `t`, leaves a permutation. */
  lemma {:induction false} PermutationTail<T>(s: seq<T>, t: seq<T>, k: int)
    requires multiset(s) == multiset(t) && |s| > 0 && 0 <= k < |t| && t[k] == s[0]
    ensures multiset(s[1..]) == multiset(t[..k] + t[k + 1..])
  {
    MultisetRemove(t, k);
    assert s == [s[0]] + s[1..];
    var a, b := multiset(s[1..]), multiset(t[..k] + t[k + 1..]);
    assert a + multiset{s[0]} == b + multiset{s[0]};
    forall y ensures a[y] == b[y] {
      assert (a + multiset{s[0]})[y] == (b + multiset{s[0]})[y];
    }
  }

  /** A split of `rest` into `h` and `v` stays a split of `[x] + rest`
      when `x` joins either side. */
  lemma ConsOnEitherSide<T>(x: T, h: seq<T>, v: seq<T>, rest: seq<T>)
    requires multiset(h) + multiset(v) == multiset(rest)
    ensures multiset([x] + h) + multiset(v) == multiset([x] + rest)
    ensures multiset(h) + multiset([x] + v) == multiset([x] + rest)
  {
    assert multiset([x] + h) == multiset{x} + multiset(h);
    assert multiset([x] + v) == multiset{x} + multiset(v);
    assert multiset([x] + rest) == multiset{x} + multiset(rest);
  }

  /** A sequence never has more distinct elements than its length. */
  lemma {:induction false} CardBound<T>(s: seq<T>)
    ensures |Elems(s)| <= |s|
  {
    if |s| > 0 {
      CardBound(s[1..]);
      assert s == [s[0]] + s[1..];
      assert Elems(s) == {s[0]} + Elems(s[1..]);
    }
  }

  /** A subset as large as its superset is the superset. */
  lemma {:induction false} SubsetOfEqualCard<T>(a: set<T>, b: set<T>)
    requires a <= b && |a| == |b|
    ensures a == b
  {
    assert |b - a| == |b| - |a|;
  }

  /** A sort key: ordered by `major` first and `minor` second. */
  datatype Key = Key(major: int, minor: int)

  predicate KeyLe(a: Key, b: Key) {
    a.major < b.major || (a.major == b.major && a.minor <= b.minor)
  }

  /** Every element's key is at most every later element's key. */
  ghost predicate SortedBy<T>(s: seq<T>, key: T -> Key) {
    forall i, j :: 0 <= i < j < |s| ==> KeyLe(key(s[i]), key(s[j]))
  }

  /** Places `x` before the first element whose key is not smaller. */
  function Insert<T>(x: T, s: seq<T>, key: T -> Key): (r: seq<T>)
    requires SortedBy(s, key)
    ensures SortedBy(r, key)
    ensures multiset(r) == multiset(s) + multiset{x}
    ensures |r| == |s| + 1
  {
    if |s| == 0 then [x]
    else if KeyLe(key(x), key(s[0])) then
      [x] + s
    else
      var rest := Insert(x, s[1..], key);
      assert s == [s[0]] + s[1..];
      assert forall i :: 0 <= i < |rest| ==> KeyLe(key(s[0]), key(rest[i])) by {
        forall i | 0 <= i < |rest| ensures KeyLe(key(s[0]), key(rest[i])) {
          assert rest[i] in multiset(rest);
          if rest[i] != x {
            assert rest[i] in multiset(s[1..]);
            var k :| 0 <= k < |s[1..]| && s[1..][k] == rest[i];
            assert s[k + 1] == rest[i];
          }
        }
      }
      [s[0]] + rest
  }

  /** Insertion sort: an ordered rearrangement of `s`. */
  function SortBy<T>(s: seq<T>, key: T -> Key): (r: seq<T>)
    ensures SortedBy(r, key)
    ensures multiset(r) == multiset(s)
    ensures |r| == |s|
  {
    if |s| == 0 then []
    else
      assert s == [s[0]] + s[1..];
      Insert(s[0], SortBy(s[1..], key), key)
  }

  /** The first `n` elements, or all of them when there are fewer. */
  function Take<T>(s: seq<T>, n: int): (r: seq<T>)
    ensures |r| == if n < 0 then 0 else if n < |s| then n else |s|
    ensures forall i :: 0 <= i < |r| ==> r[i] == s[i]
  {
    if n <= 0 then [] else if n < |s| then s[..n] else s
  }
}
