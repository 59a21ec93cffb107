/** Sequence operations behind the pandas calls the scripts use: boolean
    masks, `unique()`, `drop_duplicates(keep='first'|'last')`, `concat` and
    `sort_values`. */
module Seqs {
  import opened Values

  /** No element occurs twice. */
  predicate NoDup<T(==)>(s: seq<T>)
  {
    forall i, j :: 0 <= i < j < |s| ==> s[i] != s[j]
  }

  /** `a` is `b` with some elements left out, order kept. */
  predicate IsSubseq<T(==)>(a: seq<T>, b: seq<T>)
  {
    |a| == 0 || (|b| > 0 && ((a[0] == b[0] && IsSubseq(a[1..], b[1..])) || IsSubseq(a, b[1..])))
  }

  lemma SubseqMembers<T>(a: seq<T>, b: seq<T>)
    requires IsSubseq(a, b)
    ensures forall x :: x in a ==> x in b
  {
    if |a| > 0 {
      HeadTail(b);
      if a[0] == b[0] && IsSubseq(a[1..], b[1..]) {
        SubseqMembers(a[1..], b[1..]);
        HeadTail(a);
      } else {
        SubseqMembers(a, b[1..]);
      }
    }
  }

  lemma SubseqReflexive<T>(a: seq<T>)
    ensures IsSubseq(a, a)
  {
    if |a| > 0 {
      SubseqReflexive(a[1..]);
    }
  }

  /** `b` with a prefix in front still contains every subsequence of `b`. */
  lemma SubseqSkipPrefix<T>(a: seq<T>, p: seq<T>, b: seq<T>)
    requires IsSubseq(a, b)
    ensures IsSubseq(a, p + b)
  {
    if |p| > 0 {
      SubseqSkipPrefix(a, p[1..], b);
      TailOfConcat(p, b);
      assert IsSubseq(a, (p + b)[1..]);
    } else {
      assert p + b == b;
    }
  }

  /** Keeps the elements satisfying `keep`, in order (a boolean mask). */
  function Filter<T>(s: seq<T>, keep: T -> bool): (r: seq<T>)
    ensures |r| <= |s|
    ensures forall x :: x in r ==> x in s && keep(x)
    ensures forall x :: x in s && keep(x) ==> x in r
    ensures IsSubseq(r, s)
  {
    if |s| == 0 then []
    else if keep(s[0]) then [s[0]] + Filter(s[1..], keep)
    else Filter(s[1..], keep)
  }

  /** A filter keeps every copy of a kept element and no copy of the
      others. */
  lemma {:induction false} FilterMultiplicity<T>(s: seq<T>, keep: T -> bool)
    ensures forall x :: multiset(Filter(s, keep))[x] == if keep(x) then multiset(s)[x] else 0
    decreases |s|
  {
    if |s| > 0 {
      FilterMultiplicity(s[1..], keep);
      HeadTail(s);
      assert multiset(s) == multiset([s[0]]) + multiset(s[1..]);
      if keep(s[0]) {
        assert multiset([s[0]] + Filter(s[1..], keep)) == multiset([s[0]]) + multiset(Filter(s[1..], keep));
      }
    }
  }

  lemma FilterConcat<T>(a: seq<T>, b: seq<T>, keep: T -> bool)
    ensures Filter(a + b, keep) == Filter(a, keep) + Filter(b, keep)
  {
    if |a| > 0 {
      TailOfConcat(a, b);
      FilterConcat(a[1..], b, keep);
    } else {
      assert a + b == b;
    }
  }

  /** Concatenation of a sequence of sequences. */
  function Flatten<T>(ss: seq<seq<T>>): (r: seq<T>)
    ensures |ss| > 0 ==> r == ss[0] + Flatten(ss[1..])
  {
    if |ss| == 0 then [] else ss[0] + Flatten(ss[1..])
  }

  lemma FlattenConcat<T>(a: seq<seq<T>>, b: seq<seq<T>>)
    ensures Flatten(a + b) == Flatten(a) + Flatten(b)
  {
    if |a| > 0 {
      TailOfConcat(a, b);
      FlattenConcat(a[1..], b);
    } else {
      assert a + b == b;
    }
  }

  /** Some element satisfies `p` exactly when the first one or one of the
      rest does. */
  lemma ExistsShift<T>(s: seq<T>, p: T -> bool)
    requires |s| > 0
    ensures (exists i :: 0 <= i < |s| && p(s[i])) <==> (p(s[0]) || exists i :: 0 <= i < |s[1..]| && p(s[1..][i]))
  {
    if exists i :: 0 <= i < |s[1..]| && p(s[1..][i]) {
      var i :| 0 <= i < |s[1..]| && p(s[1..][i]);
      assert s[1..][i] == s[i + 1];
    }
    if exists i :: 0 <= i < |s| && p(s[i]) {
      var i :| 0 <= i < |s| && p(s[i]);
      if i > 0 {
        assert s[i] == s[1..][i - 1];
      }
    }
  }

  /** The set of keys of the elements of `s`. */
  function Keys<T, K(==)>(s: seq<T>, key: T -> K): (r: set<K>)
    ensures forall x :: x in s ==> key(x) in r
    ensures forall k :: k in r ==> exists x :: x in s && key(x) == k
  {
    if |s| == 0 then {} else {key(s[0])} + Keys(s[1..], key)
  }

  lemma KeysConcat<T, K>(a: seq<T>, b: seq<T>, key: T -> K)
    ensures Keys(a + b, key) == Keys(a, key) + Keys(b, key)
  {
    if |a| > 0 {
      TailOfConcat(a, b);
      KeysConcat(a[1..], b, key);
    } else {
      assert a + b == b;
    }
  }

  /** No two elements share a key. */
  predicate KeysUnique<T, K(==)>(s: seq<T>, key: T -> K)
  {
    forall i, j :: 0 <= i < j < |s| ==> key(s[i]) != key(s[j])
  }

  /** Two members of a sequence with unique keys that share a key are the
      same element. */
  lemma UniqueKeyMember<T, K>(s: seq<T>, key: T -> K, x: T, y: T)
    requires KeysUnique(s, key) && x in s && y in s && key(x) == key(y)
    ensures x == y
  {
    var a :| 0 <= a < |s| && s[a] == x;
    var b :| 0 <= b < |s| && s[b] == y;
    assert a == b;
  }

  /** A key no element carries is not among the keys. */
  lemma KeyNotInKeys<T, K>(q: seq<T>, key: T -> K, k: K)
    requires forall i :: 0 <= i < |q| ==> key(q[i]) != k
    ensures k !in Keys(q, key)
  {
    forall x | x in q
      ensures key(x) != k
    {
      var i :| 0 <= i < |q| && q[i] == x;
    }
  }

  /** A sequence is its prefix, one element and its suffix. */
  lemma SplitAround<T>(s: seq<T>, n: int)
    requires 0 <= n < |s|
    ensures s == s[..n] + [s[n]] + s[n + 1..]
  {
  }

  /** The first element of `s` with key `k`. */
  function FirstWith<T, K(==)>(s: seq<T>, key: T -> K, k: K): (r: T)
    requires k in Keys(s, key)
    ensures r in s && key(r) == k
  {
    if key(s[0]) == k then s[0] else FirstWith(s[1..], key, k)
  }

  /** `FirstWith` is the element at the first position holding key `k`. */
  lemma {:induction false} FirstWithPosition<T, K>(s: seq<T>, key: T -> K, k: K) returns (i: int)
    requires k in Keys(s, key)
    ensures 0 <= i < |s| && s[i] == FirstWith(s, key, k)
    ensures forall j :: 0 <= j < i ==> key(s[j]) != k
  {
    if key(s[0]) == k {
      i := 0;
    } else {
      HeadTail(s);
      KeysConcat([s[0]], s[1..], key);
      var i' := FirstWithPosition(s[1..], key, k);
      i := i' + 1;
      forall j | 0 <= j < i
        ensures key(s[j]) != k
      {
        if j > 0 {
          assert s[j] == s[1..][j - 1];
        }
      }
    }
  }

  /** In a sorted sequence, the first element with a given key sorts at or
      before every element with that key. */
  lemma FirstWithIsLeast<T, K>(s: seq<T>, sortKey: T -> seq<Val>, key: T -> K, x: T)
    requires Sorted(s, sortKey) && x in s
    ensures key(x) in Keys(s, key)
    ensures KeyLe(sortKey(FirstWith(s, key, key(x))), sortKey(x))
  {
    var i := FirstWithPosition(s, key, key(x));
    var j :| 0 <= j < |s| && s[j] == x;
    if i == j {
      KeyLeReflexive(sortKey(x));
    } else {
      assert i < j;
    }
  }

  /** A non-empty sequence is its head followed by its tail. */
  lemma HeadTail<T>(s: seq<T>)
    requires |s| > 0
    ensures s == [s[0]] + s[1..]
  {
  }

  /** The tail of a concatenation with a non-empty front. */
  lemma TailOfConcat<T>(a: seq<T>, b: seq<T>)
    requires |a| > 0
    ensures (a + b)[1..] == a[1..] + b
  {
  }

  /** The last element of `s` with key `k`. */
  function LastWith<T, K(==)>(s: seq<T>, key: T -> K, k: K): (r: T)
    requires k in Keys(s, key)
    ensures r in s && key(r) == k
  {
    if k in Keys(s[1..], key) then LastWith(s[1..], key, k) else s[0]
  }

  /** The last element with a key present in `b` lies in `b`. */
  lemma {:induction false} LastWithConcat<T, K>(a: seq<T>, b: seq<T>, key: T -> K, k: K)
    requires k in Keys(b, key)
    ensures k in Keys(a + b, key)
    ensures LastWith(a + b, key, k) == LastWith(b, key, k)
  {
    KeysConcat(a, b, key);
    if |a| == 0 {
      assert a + b == b;
    } else {
      var ab := a + b;
      TailOfConcat(a, b);
      LastWithConcat(a[1..], b, key, k);
      assert k in Keys(ab[1..], key);
      assert LastWith(ab, key, k) == LastWith(ab[1..], key, k);
    }
  }

  /** The first element with a key present in `a` lies in `a`. */
  lemma {:induction false} FirstWithConcat<T, K>(a: seq<T>, b: seq<T>, key: T -> K, k: K)
    requires k in Keys(a, key)
    ensures k in Keys(a + b, key)
    ensures FirstWith(a + b, key, k) == FirstWith(a, key, k)
  {
    var ab := a + b;
    assert ab[0] == a[0];
    if key(a[0]) == k {
      assert k in Keys(ab, key);
    } else {
      assert k in Keys(a[1..], key);
      TailOfConcat(a, b);
      FirstWithConcat(a[1..], b, key, k);
      assert k in Keys(ab, key);
    }
  }

  /** `drop_duplicates(subset=key, keep='first')`, with the keys already seen
      in `seen`. */
  function KeepFirstFrom<T, K(==)>(s: seq<T>, key: T -> K, seen: set<K>): (r: seq<T>)
    ensures Keys(r, key) == Keys(s, key) - seen
    ensures KeysUnique(r, key)
    ensures IsSubseq(r, s)
    ensures forall x :: x in r ==> key(x) !in seen && key(x) in Keys(s, key) && x == FirstWith(s, key, key(x))
  {
    if |s| == 0 then []
    else if key(s[0]) in seen then
      var rest := KeepFirstFrom(s[1..], key, seen);
      KeepFirstSkip(s, key, seen, rest);
      rest
    else
      var rest := KeepFirstFrom(s[1..], key, seen + {key(s[0])});
      KeepFirstKeep(s, key, seen, rest);
      [s[0]] + rest
  }

  /** A head whose key was already seen is dropped. */
  lemma KeepFirstSkip<T, K>(s: seq<T>, key: T -> K, seen: set<K>, rest: seq<T>)
    requires |s| > 0 && key(s[0]) in seen
    requires Keys(rest, key) == Keys(s[1..], key) - seen
    requires IsSubseq(rest, s[1..])
    requires forall x :: x in rest ==> key(x) !in seen && key(x) in Keys(s[1..], key) && x == FirstWith(s[1..], key, key(x))
    ensures Keys(rest, key) == Keys(s, key) - seen
    ensures IsSubseq(rest, s)
    ensures forall x :: x in rest ==> key(x) !in seen && key(x) in Keys(s, key) && x == FirstWith(s, key, key(x))
  {
    assert Keys(s, key) == {key(s[0])} + Keys(s[1..], key);
    HeadTail(s);
    SubseqSkipPrefix(rest, [s[0]], s[1..]);
  }

  /** A head with an unseen key is kept, and its key counts as seen. */
  lemma KeepFirstKeep<T, K>(s: seq<T>, key: T -> K, seen: set<K>, rest: seq<T>)
    requires |s| > 0 && key(s[0]) !in seen
    requires Keys(rest, key) == Keys(s[1..], key) - (seen + {key(s[0])})
    requires KeysUnique(rest, key)
    requires IsSubseq(rest, s[1..])
    requires forall x :: x in rest ==> key(x) !in seen + {key(s[0])} && key(x) in Keys(s[1..], key) && x == FirstWith(s[1..], key, key(x))
    ensures Keys([s[0]] + rest, key) == Keys(s, key) - seen
    ensures KeysUnique([s[0]] + rest, key)
    ensures IsSubseq([s[0]] + rest, s)
    ensures forall x :: x in [s[0]] + rest ==> key(x) !in seen && key(x) in Keys(s, key) && x == FirstWith(s, key, key(x))
  {
    KeepFirstKeys(s, key, seen, rest);
    assert key(s[0]) !in Keys(rest, key);
    ConsUnique(s[0], rest, key);
    ConsSubseq(rest, s);
    KeepFirstKeepFirsts(s, key, seen, rest);
  }

  /** The keys kept once the head is put in front. */
  lemma KeepFirstKeys<T, K>(s: seq<T>, key: T -> K, seen: set<K>, rest: seq<T>)
    requires |s| > 0 && key(s[0]) !in seen
    requires Keys(rest, key) == Keys(s[1..], key) - (seen + {key(s[0])})
    ensures Keys([s[0]] + rest, key) == Keys(s, key) - seen
  {
    var r := [s[0]] + rest;
    assert r[0] == s[0] && r[1..] == rest;
    assert Keys(s, key) == {key(s[0])} + Keys(s[1..], key);
    assert Keys(r, key) == {key(s[0])} + Keys(rest, key);
  }

  /** Putting the head in front of a subsequence of the tail gives a
      subsequence. */
  lemma ConsSubseq<T>(rest: seq<T>, s: seq<T>)
    requires |s| > 0 && IsSubseq(rest, s[1..])
    ensures IsSubseq([s[0]] + rest, s)
  {
    var r := [s[0]] + rest;
    assert r[0] == s[0] && r[1..] == rest;
  }

  /** Each kept element is still the first with its key once the head is
      put in front. */
  lemma KeepFirstKeepFirsts<T, K>(s: seq<T>, key: T -> K, seen: set<K>, rest: seq<T>)
    requires |s| > 0 && key(s[0]) !in seen
    requires forall x :: x in rest ==> key(x) !in seen + {key(s[0])} && key(x) in Keys(s[1..], key) && x == FirstWith(s[1..], key, key(x))
    ensures forall x :: x in [s[0]] + rest ==> key(x) !in seen && key(x) in Keys(s, key) && x == FirstWith(s, key, key(x))
  {
    forall x | x in [s[0]] + rest
      ensures key(x) !in seen && key(x) in Keys(s, key) && x == FirstWith(s, key, key(x))
    {
      if x != s[0] {
        assert x in rest;
        assert key(x) != key(s[0]);
      }
    }
  }

  /** A head whose key is not among the tail's keeps the keys unique. */
  lemma ConsUnique<T, K>(h: T, rest: seq<T>, key: T -> K)
    requires KeysUnique(rest, key) && key(h) !in Keys(rest, key)
    ensures KeysUnique([h] + rest, key)
  {
    var r := [h] + rest;
    forall i, j | 0 <= i < j < |r|
      ensures key(r[i]) != key(r[j])
    {
      if i == 0 {
        assert r[j] in rest;
      } else {
        assert r[i] == rest[i - 1] && r[j] == rest[j - 1];
      }
    }
  }

  /** `drop_duplicates(subset=key, keep='first')`: one element per key, the
      first one, in input order. */
  function KeepFirst<T, K(==)>(s: seq<T>, key: T -> K): (r: seq<T>)
    ensures Keys(r, key) == Keys(s, key)
    ensures KeysUnique(r, key)
    ensures IsSubseq(r, s)
    ensures forall x :: x in r ==> x == FirstWith(s, key, key(x))
  {
    KeepFirstFrom(s, key, {})
  }

  /** The elements of `s` whose key has not occurred before them, in order:
      what a walk over `s` that appends each element with a new key
      collects. */
  ghost function FirstsOf<T, K>(s: seq<T>, key: T -> K): seq<T>
    decreases |s|
  {
    if |s| == 0 then []
    else
      var p := s[..|s| - 1];
      if key(s[|s| - 1]) in Keys(p, key) then FirstsOf(p, key) else FirstsOf(p, key) + [s[|s| - 1]]
  }

  /** Keeping the first per key over a sequence with one more element at
      the end adds that element exactly when its key is new. */
  lemma {:induction false} KeepFirstFromSnoc<T, K>(a: seq<T>, x: T, key: T -> K, seen: set<K>)
    ensures KeepFirstFrom(a + [x], key, seen) ==
      KeepFirstFrom(a, key, seen) + (if key(x) in seen || key(x) in Keys(a, key) then [] else [x])
    decreases |a|
  {
    var ax := a + [x];
    if |a| == 0 {
      assert ax == [x];
      KeepFirstFromStep(ax, key, seen);
      assert ax[1..] == [];
    } else {
      KeepFirstFromStep(ax, key, seen);
      KeepFirstFromStep(a, key, seen);
      TailOfConcat(a, [x]);
      assert ax[0] == a[0];
      assert Keys(a, key) == {key(a[0])} + Keys(a[1..], key);
      if key(a[0]) in seen {
        KeepFirstFromSnoc(a[1..], x, key, seen);
      } else {
        var seen' := seen + {key(a[0])};
        KeepFirstFromSnoc(a[1..], x, key, seen');
        var t := if key(x) in seen' || key(x) in Keys(a[1..], key) then [] else [x];
        var rest := KeepFirstFrom(a[1..], key, seen');
        AppendAssoc([a[0]], rest, t);
      }
    }
  }

  /** Concatenation is associative. */
  lemma AppendAssoc<T>(a: seq<T>, b: seq<T>, c: seq<T>)
    ensures a + (b + c) == (a + b) + c
  {
  }

  /** One step of `KeepFirstFrom`. */
  lemma KeepFirstFromStep<T, K>(s: seq<T>, key: T -> K, seen: set<K>)
    requires |s| > 0
    ensures KeepFirstFrom(s, key, seen) ==
      if key(s[0]) in seen then KeepFirstFrom(s[1..], key, seen)
      else [s[0]] + KeepFirstFrom(s[1..], key, seen + {key(s[0])})
  {
  }

  /** `KeepFirst` collects exactly the elements whose key is new when they
      are reached, in input order. */
  lemma {:induction false} KeepFirstIsFirstsOf<T, K>(s: seq<T>, key: T -> K)
    ensures KeepFirstFrom(s, key, {}) == FirstsOf(s, key)
    decreases |s|
  {
    if |s| > 0 {
      var p := s[..|s| - 1];
      assert s == p + [s[|s| - 1]];
      KeepFirstFromSnoc(p, s[|s| - 1], key, {});
      KeepFirstIsFirstsOf(p, key);
    }
  }

  /** `drop_duplicates(subset=key, keep='last')`: one element per key, the
      last one, in input order. */
  function KeepLast<T, K(==)>(s: seq<T>, key: T -> K): (r: seq<T>)
    ensures Keys(r, key) == Keys(s, key)
    ensures KeysUnique(r, key)
    ensures IsSubseq(r, s)
    ensures forall x :: x in r ==> x == LastWith(s, key, key(x))
  {
    if |s| == 0 then []
    else
      var rest := KeepLast(s[1..], key);
      KeepLastTail(s, rest, key);
      if key(s[0]) in Keys(s[1..], key) then
        KeepLastDrop(s, rest, key);
        rest
      else
        KeepLastHead(s, rest, key);
        [s[0]] + rest
  }

  /** A head whose key recurs later is dropped. */
  lemma KeepLastDrop<T, K>(s: seq<T>, rest: seq<T>, key: T -> K)
    requires |s| > 0 && key(s[0]) in Keys(s[1..], key)
    requires Keys(rest, key) == Keys(s[1..], key)
    requires IsSubseq(rest, s[1..])
    ensures Keys(rest, key) == Keys(s, key)
    ensures IsSubseq(rest, s)
  {
    assert Keys(s, key) == {key(s[0])} + Keys(s[1..], key);
    HeadTail(s);
    SubseqSkipPrefix(rest, [s[0]], s[1..]);
  }

  /** The last element of `s[1..]` with a key is also the last of `s`. */
  lemma KeepLastTail<T, K>(s: seq<T>, rest: seq<T>, key: T -> K)
    requires |s| > 0
    requires Keys(rest, key) == Keys(s[1..], key)
    requires forall x :: x in rest ==> x == LastWith(s[1..], key, key(x))
    ensures forall x :: x in rest ==> key(x) in Keys(s, key) && x == LastWith(s, key, key(x))
  {
    forall x | x in rest
      ensures key(x) in Keys(s, key) && x == LastWith(s, key, key(x))
    {
      assert key(x) in Keys(s[1..], key);
    }
  }

  /** A head whose key does not recur is kept in front of the rest. */
  lemma KeepLastHead<T, K>(s: seq<T>, rest: seq<T>, key: T -> K)
    requires |s| > 0 && key(s[0]) !in Keys(s[1..], key)
    requires Keys(rest, key) == Keys(s[1..], key)
    requires KeysUnique(rest, key)
    requires IsSubseq(rest, s[1..])
    requires forall x :: x in rest ==> key(x) in Keys(s, key) && x == LastWith(s, key, key(x))
    ensures Keys([s[0]] + rest, key) == Keys(s, key)
    ensures KeysUnique([s[0]] + rest, key)
    ensures IsSubseq([s[0]] + rest, s)
    ensures forall x :: x in [s[0]] + rest ==> x == LastWith(s, key, key(x))
  {
    var r := [s[0]] + rest;
    assert r[0] == s[0] && r[1..] == rest;
    assert Keys(r, key) == {key(s[0])} + Keys(rest, key);
    ConsUnique(s[0], rest, key);
  }

  /** The identity, the key of a whole-row `drop_duplicates()`. */
  function Self<T>(x: T): T
  {
    x
  }

  /** Python's `s[:k]`: a negative `k` counts from the end. */
  function SliceTo<T>(s: seq<T>, k: int): seq<T>
  {
    if 0 <= k then s[..if k <= |s| then k else |s|]
    else s[..if |s| + k >= 0 then |s| + k else 0]
  }

  /** A sequence and the set of its elements have the same size exactly when
      it has no duplicates. */
  lemma {:induction false} NoDupCardinality<T>(s: seq<T>)
    requires NoDup(s)
    ensures |set x | x in s| == |s|
  {
    if |s| > 0 {
      assert NoDup(s[1..]);
      NoDupCardinality(s[1..]);
      var rest := set x | x in s[1..];
      assert (set x | x in s) == rest + {s[0]};
      assert s[0] !in rest;
    }
  }

  /** Equal multisets preserve the absence of duplicates. */
  lemma {:induction false} NoDupPermutation<T>(a: seq<T>, b: seq<T>)
    requires multiset(a) == multiset(b) && NoDup(b)
    ensures NoDup(a)
  {
    forall i, j | 0 <= i < j < |a|
      ensures a[i] != a[j]
    {
      if a[i] == a[j] {
        var x := a[i];
        assert a == a[..j] + [a[j]] + a[j + 1..];
        assert x in multiset(a[..j]);
        assert multiset(a)[x] >= 2;
        BoundedMultiplicity(b, x);
      }
    }
  }

  /** In a sequence without duplicates every element occurs once. */
  lemma {:induction false} BoundedMultiplicity<T>(s: seq<T>, x: T)
    requires NoDup(s)
    ensures multiset(s)[x] <= 1
  {
    if |s| > 0 {
      assert NoDup(s[1..]);
      BoundedMultiplicity(s[1..], x);
      HeadTail(s);
      if s[0] == x {
        assert x !in s[1..];
      }
    }
  }

  /** Keeps elements of `s` that do not occur earlier, in order (pandas
      `unique()`). */
  function Distinct<T(==)>(s: seq<T>): (r: seq<T>)
    ensures NoDup(r)
    ensures forall x :: x in r ==> x in s
    ensures forall x :: x in s ==> x in r
    ensures IsSubseq(r, s)
  {
    var r := KeepFirst(s, Self);
    SubseqMembers(r, s);
    assert forall x :: x in s ==> x in r by {
      forall x | x in s ensures x in r {
        assert Self(x) in Keys(s, Self);
      }
    }
    r
  }

  /** `Sorted(s, key)`: the keys of `s` never decrease. */
  predicate Sorted<T>(s: seq<T>, key: T -> seq<Val>)
  {
    forall i, j :: 0 <= i < j < |s| ==> KeyLe(key(s[i]), key(s[j]))
  }

  /** Inserts `x` before the first element whose key is not below it. */
  function Insert<T>(x: T, s: seq<T>, key: T -> seq<Val>): (r: seq<T>)
    ensures multiset(r) == multiset(s) + multiset{x}
    ensures Sorted(s, key) ==> Sorted(r, key)
  {
    if |s| == 0 then [x]
    else if KeyLe(key(x), key(s[0])) then
      InsertFrontSorted(x, s, key);
      [x] + s
    else
      var rest := Insert(x, s[1..], key);
      KeyLeTotal(key(x), key(s[0]));
      HeadTail(s);
      InsertBehindSorted(s[0], rest, s[1..], x, key);
      [s[0]] + rest
  }

  lemma InsertFrontSorted<T>(x: T, s: seq<T>, key: T -> seq<Val>)
    requires |s| > 0 && KeyLe(key(x), key(s[0]))
    ensures Sorted(s, key) ==> Sorted([x] + s, key)
  {
    if Sorted(s, key) {
      forall j | 0 < j < |s|
        ensures KeyLe(key(x), key(s[j]))
      {
        KeyLeTransitive(key(x), key(s[0]), key(s[j]));
      }
    }
  }

  lemma InsertBehindSorted<T>(y: T, rest: seq<T>, tail: seq<T>, x: T, key: T -> seq<Val>)
    requires multiset(rest) == multiset(tail) + multiset{x}
    requires KeyLe(key(y), key(x))
    requires Sorted([y] + tail, key) ==> Sorted(rest, key)
    ensures Sorted([y] + tail, key) ==> Sorted([y] + rest, key)
  {
    if Sorted([y] + tail, key) {
      assert Sorted(tail, key) by {
        forall i, j | 0 <= i < j < |tail|
          ensures KeyLe(key(tail[i]), key(tail[j]))
        {
          assert ([y] + tail)[i + 1] == tail[i];
          assert ([y] + tail)[j + 1] == tail[j];
        }
      }
      forall j | 0 <= j < |rest|
        ensures KeyLe(key(y), key(rest[j]))
      {
        assert rest[j] in multiset(rest);
        if rest[j] != x {
          assert rest[j] in multiset(tail);
          var k :| 0 <= k < |tail| && tail[k] == rest[j];
          assert ([y] + tail)[0] == y;
          assert ([y] + tail)[k + 1] == tail[k];
        }
      }
    }
  }

  /** Equal multisets preserve unique keys: sorting a deduplicated table
      keeps it deduplicated. */
  lemma {:induction false} KeysUniquePermutation<T, K>(a: seq<T>, b: seq<T>, key: T -> K)
    requires multiset(a) == multiset(b) && KeysUnique(b, key)
    ensures KeysUnique(a, key)
  {
    assert NoDup(b) by {
      forall i, j | 0 <= i < j < |b|
        ensures b[i] != b[j]
      {
        assert key(b[i]) != key(b[j]);
      }
    }
    NoDupPermutation(a, b);
    forall i, j | 0 <= i < j < |a|
      ensures key(a[i]) != key(a[j])
    {
      assert a[i] in multiset(b) && a[j] in multiset(b);
      var p :| 0 <= p < |b| && b[p] == a[i];
      var q :| 0 <= q < |b| && b[q] == a[j];
      assert p != q;
    }
  }

  /** The last element with key `k` of `p + [x] + q` is `x` when `x` has key
      `k` and nothing in `q` does. */
  lemma LastWithSplit<T, K>(p: seq<T>, x: T, q: seq<T>, key: T -> K)
    requires key(x) !in Keys(q, key)
    ensures key(x) in Keys(p + [x] + q, key)
    ensures LastWith(p + [x] + q, key, key(x)) == x
  {
    var xq := [x] + q;
    assert xq[1..] == q;
    assert key(x) in Keys(xq, key);
    assert p + [x] + q == p + xq;
    LastWithConcat(p, xq, key, key(x));
  }

  /** Appending elements without key `k` does not change the last element
      with key `k`. */
  lemma {:induction false} LastWithPrefix<T, K>(a: seq<T>, b: seq<T>, key: T -> K, k: K)
    requires k in Keys(a, key) && k !in Keys(b, key)
    ensures k in Keys(a + b, key)
    ensures LastWith(a + b, key, k) == LastWith(a, key, k)
  {
    var ab := a + b;
    assert ab[0] == a[0];
    TailOfConcat(a, b);
    if k in Keys(a[1..], key) {
      LastWithPrefix(a[1..], b, key, k);
    } else {
      KeysConcat(a[1..], b, key);
      assert k !in Keys(ab[1..], key);
    }
    assert k in Keys(ab, key);
  }

  /** `sort_values(by=key)`: a permutation of `s` whose keys never
      decrease. */
  function SortBy<T>(s: seq<T>, key: T -> seq<Val>): (r: seq<T>)
    ensures multiset(r) == multiset(s)
    ensures |r| == |s|
    ensures Sorted(r, key)
  {
    if |s| == 0 then []
    else
      HeadTail(s);
      Insert(s[0], SortBy(s[1..], key), key)
  }
}
