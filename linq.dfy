/** The observable behaviour of the LINQ operators the benchmarks use:
    `Enumerable.Range`, `Select`, `SelectMany`, `Where`, `Single(predicate)`,
    `Join` and `GroupJoin`, over finite sequences.

    `Join` and `GroupJoin` are written the way the equi-join works: the inner
    sequence is indexed once by key (a lookup from key to the inner records
    with that key, in inner order), then every outer record probes the index.
    The lemmas at the end prove that this agrees with the nested-loop
    reading of the operators: outer order first, then inner order within each
    outer record, and only records whose keys are equal are paired. */
module Linq {

  datatype Option<T> = None | Some(value: T)

  /** Why `Single(predicate)` throws `InvalidOperationException`. */
  datatype SingleError = NoMatch | MoreThanOneMatch

  /** The two ways a call of `Single(predicate)` can end. */
  datatype SingleResult<T> = Found(value: T) | Throws(error: SingleError)

  /** `Enumerable.Range(start, count)`: the integers start, start + 1, ... */
  function Range(start: int, count: nat): (r: seq<int>)
    ensures |r| == count
    ensures forall i :: 0 <= i < count ==> r[i] == start + i
    decreases count
  {
    if count == 0 then [] else [start] + Range(start + 1, count - 1)
  }

  /** `Select(f)`: the image of every element, in order. */
  function Select<T, U>(s: seq<T>, f: T -> U): (r: seq<U>)
    ensures |r| == |s|
    ensures forall i :: 0 <= i < |s| ==> r[i] == f(s[i])
  {
    if s == [] then [] else [f(s[0])] + Select(s[1..], f)
  }

  /** `SelectMany(f)`: the sequences f(x) for every element x, concatenated in order. */
  function SelectMany<T, U>(s: seq<T>, f: T -> seq<U>): seq<U>
  {
    if s == [] then [] else f(s[0]) + SelectMany(s[1..], f)
  }

  /** When every block f(x) has length n, the flattened sequence has |s| * n elements. */
  lemma {:induction false} SelectManyLength<T, U>(s: seq<T>, f: T -> seq<U>, n: nat)
    requires forall i :: 0 <= i < |s| ==> |f(s[i])| == n
    ensures |SelectMany(s, f)| == |s| * n
  {
    if s != [] {
      assert forall i :: 0 <= i < |s| - 1 ==> s[1..][i] == s[i + 1];
      SelectManyLength(s[1..], f, n);
      assert |s| * n == n + (|s| - 1) * n;
    }
  }

  /** When every block f(x) has length n, element j of block i sits at
      position i * n + j of the flattened sequence. */
  lemma {:induction false} SelectManyAt<T, U>(s: seq<T>, f: T -> seq<U>, n: nat, i: nat, j: nat)
    requires forall k :: 0 <= k < |s| ==> |f(s[k])| == n
    requires i < |s| && j < n
    ensures |SelectMany(s, f)| == |s| * n
    ensures i * n + j < |s| * n
    ensures SelectMany(s, f)[i * n + j] == f(s[i])[j]
  {
    SelectManyLength(s, f, n);
    assert |s| * n == n + (|s| - 1) * n;
    if i > 0 {
      assert forall k :: 0 <= k < |s| - 1 ==> s[1..][k] == s[k + 1];
      SelectManyAt(s[1..], f, n, i - 1, j);
      assert i * n + j == n + ((i - 1) * n + j);
    }
  }

  /** `Where(p)`: the elements that satisfy p, in their original order. */
  function Where<T>(s: seq<T>, p: T -> bool): (r: seq<T>)
    ensures |r| <= |s|
    ensures forall i :: 0 <= i < |r| ==> p(r[i])
    ensures forall i :: 0 <= i < |r| ==> r[i] in s
    ensures forall i :: 0 <= i < |s| && p(s[i]) ==> s[i] in r
  {
    if s == [] then []
    else if p(s[0]) then [s[0]] + Where(s[1..], p)
    else Where(s[1..], p)
  }

  /** `Where` keeps order: filtering a concatenation filters each part. */
  lemma {:induction false} WhereConcat<T>(s: seq<T>, t: seq<T>, p: T -> bool)
    ensures Where(s + t, p) == Where(s, p) + Where(t, p)
  {
    if s == [] {
      assert s + t == t;
    } else {
      assert (s + t)[0] == s[0];
      assert (s + t)[1..] == s[1..] + t;
      WhereConcat(s[1..], t, p);
      if p(s[0]) {
        assert Where(s + t, p) == [s[0]] + Where(s[1..] + t, p);
      } else {
        assert Where(s + t, p) == Where(s[1..] + t, p);
      }
    }
  }

  /** Filtering depends only on what the predicate says about the elements
      present, so two predicates that agree there select the same list. */
  lemma {:induction false} WhereExtensional<T>(s: seq<T>, p: T -> bool, q: T -> bool)
    requires forall i :: 0 <= i < |s| ==> p(s[i]) == q(s[i])
    ensures Where(s, p) == Where(s, q)
  {
    if s != [] {
      WhereExtensional(s[1..], p, q);
    }
  }

  /** No element satisfies p, so the filter is empty. */
  lemma WhereNone<T>(s: seq<T>, p: T -> bool)
    requires forall i :: 0 <= i < |s| ==> !p(s[i])
    ensures Where(s, p) == []
  {
  }

  /** What `Single` does with the list of matches: the one match, or the exception. */
  function SingleOfMatches<T>(matches: seq<T>): SingleResult<T>
  {
    if |matches| == 0 then Throws(NoMatch)
    else if |matches| == 1 then Found(matches[0])
    else Throws(MoreThanOneMatch)
  }

  /** `Single(predicate)` as the enumerable scan does it: find the first
      match, then keep scanning; a second match throws, reaching the end with
      no match throws. Its result is decided by the order-preserving filter:
      no match and two or more matches both fail, one match is returned. */
  function Single<T>(s: seq<T>, p: T -> bool): (r: SingleResult<T>)
    ensures r == SingleOfMatches(Where(s, p))
  {
    if s == [] then Throws(NoMatch)
    else if p(s[0]) then
      if exists i | 0 <= i < |s| - 1 :: p(s[1..][i]) then Throws(MoreThanOneMatch)
      else WhereNone(s[1..], p); Found(s[0])
    else Single(s[1..], p)
  }

  /** The predicate "the key of x is k". */
  function KeyIs<T, K(==)>(key: T -> K, k: K): T -> bool
  {
    x => key(x) == k
  }

  /** The records of a lookup under one key; a key with no group yields the empty list. */
  function Find<K, V>(lookup: map<K, seq<V>>, k: K): seq<V>
  {
    if k in lookup then lookup[k] else []
  }

  /** The index `Join` and `GroupJoin` build over the inner sequence: every
      key that occurs is mapped to its records, in inner order. */
  function ToLookup<T, K(==)>(s: seq<T>, key: T -> K): (lookup: map<K, seq<T>>)
    ensures forall k :: k in lookup ==> lookup[k] != []
  {
    if s == [] then map[]
    else
      var rest := ToLookup(s[1..], key);
      rest[key(s[0]) := [s[0]] + Find(rest, key(s[0]))]
  }

  /** Probing the index with a key gives exactly the records with that key, in order. */
  lemma {:induction false} LookupIsFilter<T, K>(s: seq<T>, key: T -> K, k: K)
    ensures Find(ToLookup(s, key), k) == Where(s, KeyIs(key, k))
  {
    if s != [] {
      LookupIsFilter(s[1..], key, k);
    }
  }

  /** The results of one outer record paired with each of its matches, in order. */
  function Combine<O, I, R>(o: O, matches: seq<I>, result: (O, I) -> R): seq<R>
  {
    if matches == [] then [] else [result(o, matches[0])] + Combine(o, matches[1..], result)
  }

  /** Probe the index with each outer record in turn. */
  function Probe<O, I, K(==), R>(lookup: map<K, seq<I>>, outer: seq<O>, outerKey: O -> K, result: (O, I) -> R): seq<R>
  {
    if outer == [] then []
    else Combine(outer[0], Find(lookup, outerKey(outer[0])), result) + Probe(lookup, outer[1..], outerKey, result)
  }

  /** `Join`: the inner equi-join of outer and inner on equal keys. */
  function Join<O, I, K(==), R>(outer: seq<O>, inner: seq<I>, outerKey: O -> K, innerKey: I -> K, result: (O, I) -> R): seq<R>
  {
    Probe(ToLookup(inner, innerKey), outer, outerKey, result)
  }

  /** `GroupJoin`: every outer record with the list, possibly empty, of its matches. */
  function GroupJoin<O, I, K(==), R>(outer: seq<O>, inner: seq<I>, outerKey: O -> K, innerKey: I -> K, result: (O, seq<I>) -> R): (r: seq<R>)
    ensures |r| == |outer|
  {
    var lookup := ToLookup(inner, innerKey);
    Select(outer, o => result(o, Find(lookup, outerKey(o))))
  }

  /** A result selector that keeps both records. */
  function Pair<A, B>(a: A, b: B): (A, B)
  {
    (a, b)
  }

  /** Reference semantics of the join: one outer record scanned against every inner record. */
  function NestedLoopRow<O, I, K(==), R>(o: O, inner: seq<I>, outerKey: O -> K, innerKey: I -> K, result: (O, I) -> R): seq<R>
  {
    if inner == [] then []
    else (if innerKey(inner[0]) == outerKey(o) then [result(o, inner[0])] else [])
         + NestedLoopRow(o, inner[1..], outerKey, innerKey, result)
  }

  /** Reference semantics of the join: the nested loop, outer loop outside. */
  function NestedLoopJoin<O, I, K(==), R>(outer: seq<O>, inner: seq<I>, outerKey: O -> K, innerKey: I -> K, result: (O, I) -> R): seq<R>
  {
    if outer == [] then []
    else NestedLoopRow(outer[0], inner, outerKey, innerKey, result)
         + NestedLoopJoin(outer[1..], inner, outerKey, innerKey, result)
  }

  lemma {:induction false} CombineMatchesIsRow<O, I, K, R>(o: O, inner: seq<I>, outerKey: O -> K, innerKey: I -> K, result: (O, I) -> R)
    ensures Combine(o, Where(inner, KeyIs(innerKey, outerKey(o))), result) == NestedLoopRow(o, inner, outerKey, innerKey, result)
  {
    if inner != [] {
      CombineMatchesIsRow(o, inner[1..], outerKey, innerKey, result);
    }
  }

  /** The indexed join produces exactly what the nested loop produces, in the same order. */
  lemma {:induction false} JoinIsNestedLoop<O, I, K, R>(outer: seq<O>, inner: seq<I>, outerKey: O -> K, innerKey: I -> K, result: (O, I) -> R)
    ensures Join(outer, inner, outerKey, innerKey, result) == NestedLoopJoin(outer, inner, outerKey, innerKey, result)
  {
    if outer != [] {
      LookupIsFilter(inner, innerKey, outerKey(outer[0]));
      CombineMatchesIsRow(outer[0], inner, outerKey, innerKey, result);
      JoinIsNestedLoop(outer[1..], inner, outerKey, innerKey, result);
    }
  }

  lemma {:induction false} RowMembers<O, I, K>(o: O, inner: seq<I>, outerKey: O -> K, innerKey: I -> K)
    ensures forall p :: p in NestedLoopRow(o, inner, outerKey, innerKey, Pair) ==>
      p.0 == o && p.1 in inner && innerKey(p.1) == outerKey(o)
  {
    if inner != [] {
      RowMembers(o, inner[1..], outerKey, innerKey);
    }
  }

  /** Inner-join semantics: every result pairs an outer record with an inner
      record of the same key. */
  lemma {:induction false} JoinPairsMatch<O, I, K>(outer: seq<O>, inner: seq<I>, outerKey: O -> K, innerKey: I -> K)
    ensures forall p :: p in Join(outer, inner, outerKey, innerKey, Pair) ==>
      p.0 in outer && p.1 in inner && innerKey(p.1) == outerKey(p.0)
  {
    JoinIsNestedLoop(outer, inner, outerKey, innerKey, Pair);
    NestedLoopPairsMatch(outer, inner, outerKey, innerKey);
  }

  lemma {:induction false} NestedLoopPairsMatch<O, I, K>(outer: seq<O>, inner: seq<I>, outerKey: O -> K, innerKey: I -> K)
    ensures forall p :: p in NestedLoopJoin(outer, inner, outerKey, innerKey, Pair) ==>
      p.0 in outer && p.1 in inner && innerKey(p.1) == outerKey(p.0)
  {
    if outer != [] {
      RowMembers(outer[0], inner, outerKey, innerKey);
      NestedLoopPairsMatch(outer[1..], inner, outerKey, innerKey);
    }
  }

  /** When `Single` succeeds for every outer record, the join keeps the outer
      records one for one, in order, each paired with that single match. */
  lemma {:induction false} JoinOneToOne<O, I, K, R>(outer: seq<O>, inner: seq<I>, outerKey: O -> K, innerKey: I -> K, result: (O, I) -> R)
    requires forall j :: 0 <= j < |outer| ==> Single(inner, KeyIs(innerKey, outerKey(outer[j]))).Found?
    ensures |Join(outer, inner, outerKey, innerKey, result)| == |outer|
    ensures forall j :: 0 <= j < |outer| ==>
      Join(outer, inner, outerKey, innerKey, result)[j] == result(outer[j], Single(inner, KeyIs(innerKey, outerKey(outer[j]))).value)
  {
    if outer != [] {
      var o := outer[0];
      LookupIsFilter(inner, innerKey, outerKey(o));
      var matches := Where(inner, KeyIs(innerKey, outerKey(o)));
      assert |matches| == 1;
      assert Combine(o, matches, result) == [result(o, matches[0])];
      assert forall j :: 0 <= j < |outer| - 1 ==> outer[1..][j] == outer[j + 1];
      JoinOneToOne(outer[1..], inner, outerKey, innerKey, result);
    }
  }

  /** Every outer record, in order, with the list of inner records of its key,
      in inner order: the same list `Where` gives. */
  lemma GroupJoinIsFilter<O, I, K, R>(outer: seq<O>, inner: seq<I>, outerKey: O -> K, innerKey: I -> K, result: (O, seq<I>) -> R)
    ensures |GroupJoin(outer, inner, outerKey, innerKey, result)| == |outer|
    ensures forall j :: 0 <= j < |outer| ==>
      GroupJoin(outer, inner, outerKey, innerKey, result)[j] == result(outer[j], Where(inner, KeyIs(innerKey, outerKey(outer[j]))))
  {
    forall j | 0 <= j < |outer|
      ensures GroupJoin(outer, inner, outerKey, innerKey, result)[j] == result(outer[j], Where(inner, KeyIs(innerKey, outerKey(outer[j]))))
    {
      LookupIsFilter(inner, innerKey, outerKey(outer[j]));
    }
  }

  /** No two records of s share a key. */
  predicate DistinctKeys<T, K(==)>(s: seq<T>, key: T -> K)
  {
    forall i, j :: 0 <= i < j < |s| ==> key(s[i]) != key(s[j])
  }

  /** With distinct keys, the key of the record at j selects that record alone. */
  lemma {:induction false} WhereDistinctKey<T, K>(s: seq<T>, key: T -> K, j: nat)
    requires DistinctKeys(s, key)
    requires j < |s|
    ensures Where(s, KeyIs(key, key(s[j]))) == [s[j]]
    ensures Single(s, KeyIs(key, key(s[j]))) == Found(s[j])
  {
    var k := key(s[j]);
    if j == 0 {
      assert forall i :: 0 <= i < |s[1..]| ==> key(s[1..][i]) != k by {
        forall i | 0 <= i < |s[1..]| ensures key(s[1..][i]) != k {
          assert s[1..][i] == s[i + 1];
        }
      }
      WhereNone(s[1..], KeyIs(key, k));
    } else {
      assert DistinctKeys(s[1..], key) by {
        forall a, b | 0 <= a < b < |s[1..]| ensures key(s[1..][a]) != key(s[1..][b]) {
          assert s[1..][a] == s[a + 1] && s[1..][b] == s[b + 1];
        }
      }
      assert s[1..][j - 1] == s[j];
      WhereDistinctKey(s[1..], key, j - 1);
    }
  }

  /** How many records of s carry key k. */
  function KeyCount<T, K(==)>(s: seq<T>, key: T -> K, k: K): nat
  {
    if s == [] then 0 else (if key(s[0]) == k then 1 else 0) + KeyCount(s[1..], key, k)
  }

  /** A key that occurs among distinct keys occurs exactly once. */
  lemma {:induction false} KeyCountDistinct<T, K>(s: seq<T>, key: T -> K, j: nat)
    requires DistinctKeys(s, key)
    requires j < |s|
    ensures KeyCount(s, key, key(s[j])) == 1
  {
    if j == 0 {
      KeyCountAbsent(s[1..], key, key(s[0]));
    } else {
      assert s[1..][j - 1] == s[j];
      assert key(s[0]) != key(s[j]);
      KeyCountDistinct(s[1..], key, j - 1);
    }
  }

  lemma {:induction false} KeyCountAbsent<T, K>(s: seq<T>, key: T -> K, k: K)
    requires forall i :: 0 <= i < |s| ==> key(s[i]) != k
    ensures KeyCount(s, key, k) == 0
  {
    if s != [] {
      assert forall i :: 0 <= i < |s| - 1 ==> s[1..][i] == s[i + 1];
      KeyCountAbsent(s[1..], key, k);
    }
  }

  /** The summed sizes of the groups that a group join hands to the outer records. */
  function GroupTotal<O, I, K(==)>(outer: seq<O>, inner: seq<I>, outerKey: O -> K, innerKey: I -> K): nat
  {
    if outer == [] then 0
    else |Where(inner, KeyIs(innerKey, outerKey(outer[0])))| + GroupTotal(outer[1..], inner, outerKey, innerKey)
  }

  /** One more inner record joins the groups of every outer record of its key. */
  lemma {:induction false} GroupTotalCons<O, I, K>(outer: seq<O>, x: I, inner: seq<I>, outerKey: O -> K, innerKey: I -> K)
    ensures GroupTotal(outer, [x] + inner, outerKey, innerKey)
         == KeyCount(outer, outerKey, innerKey(x)) + GroupTotal(outer, inner, outerKey, innerKey)
  {
    if outer != [] {
      assert ([x] + inner)[1..] == inner;
      GroupTotalCons(outer[1..], x, inner, outerKey, innerKey);
    }
  }

  /** When the outer keys are distinct and every inner key is some outer
      record's key, the groups partition the inner sequence: every inner record
      lands in exactly one group, so the group sizes add up to its length. */
  lemma {:induction false} GroupsPartitionInner<O, I, K>(outer: seq<O>, inner: seq<I>, outerKey: O -> K, innerKey: I -> K)
    requires DistinctKeys(outer, outerKey)
    requires forall i :: 0 <= i < |inner| ==> exists j :: 0 <= j < |outer| && outerKey(outer[j]) == innerKey(inner[i])
    ensures forall i :: 0 <= i < |inner| ==> KeyCount(outer, outerKey, innerKey(inner[i])) == 1
    ensures GroupTotal(outer, inner, outerKey, innerKey) == |inner|
  {
    forall i | 0 <= i < |inner| ensures KeyCount(outer, outerKey, innerKey(inner[i])) == 1 {
      var j :| 0 <= j < |outer| && outerKey(outer[j]) == innerKey(inner[i]);
      KeyCountDistinct(outer, outerKey, j);
    }
    if inner == [] {
      GroupTotalEmpty(outer, inner, outerKey, innerKey);
    } else {
      assert inner == [inner[0]] + inner[1..];
      GroupTotalCons(outer, inner[0], inner[1..], outerKey, innerKey);
      assert forall i :: 0 <= i < |inner| - 1 ==> inner[1..][i] == inner[i + 1];
      GroupsPartitionInner(outer, inner[1..], outerKey, innerKey);
    }
  }

  lemma {:induction false} GroupTotalEmpty<O, I, K>(outer: seq<O>, inner: seq<I>, outerKey: O -> K, innerKey: I -> K)
    requires inner == []
    ensures GroupTotal(outer, inner, outerKey, innerKey) == 0
  {
    if outer != [] {
      GroupTotalEmpty(outer[1..], inner, outerKey, innerKey);
    }
  }
}
