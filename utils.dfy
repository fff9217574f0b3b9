/**
 * The statistics helpers the server uses at shutdown: mergeClients pools the
 * latency samples of all clients, and printPercentiles sorts a pool and reports the
 * sample at the index size*p/100 - 1 for p = 1..100. The printing is replaced by
 * returning the (p, value) pairs.
 */
module Utils {
  import opened Wrappers
  import opened Collections
  import opened JavaText

  // ------------------------------------------------------------ mergeClients

  /** Every client in `order` has a list. */
  ghost predicate Covers(lists: map<int, seq<real>>, order: seq<int>) {
    forall i :: 0 <= i < |order| ==> order[i] in lists
  }

  /** The lists of the clients in `order`, one after another. */
  function Merge(lists: map<int, seq<real>>, order: seq<int>): seq<real>
    requires Covers(lists, order)
    decreases |order|
  {
    if order == [] then [] else Merge(lists, order[..|order| - 1]) + lists[order[|order| - 1]]
  }

  /**
   * mergeClients: appends the list of every client to the output, in the order
   * `keySet` in which the map's key set happens to be iterated.
   */
  method MergeClients(hashMap: map<int, seq<real>>, keySet: seq<int>) returns (output: seq<real>)
    requires IsEnumeration(keySet, hashMap.Keys)
    ensures Covers(hashMap, keySet) && output == Merge(hashMap, keySet)
  {
    output := [];
    for n := 0 to |keySet|
      invariant Covers(hashMap, keySet[..n])
      invariant output == Merge(hashMap, keySet[..n])
    {
      var i := keySet[n];
      assert keySet[..n + 1][..n] == keySet[..n];
      output := output + hashMap[i];
    }
    assert keySet[..|keySet|] == keySet;
  }

  lemma {:induction false} MergeAppend(lists: map<int, seq<real>>, a: seq<int>, b: seq<int>)
    requires Covers(lists, a)
    requires Covers(lists, b)
    ensures Covers(lists, a + b)
    ensures Merge(lists, a + b) == Merge(lists, a) + Merge(lists, b)
    decreases |b|
  {
    if b == [] {
      assert a + b == a;
    } else {
      var b', x := b[..|b| - 1], b[|b| - 1];
      assert b == b' + [x];
      assert a + b == (a + b') + [x];
      MergeAppend(lists, a, b');
      MergeSnoc(lists, a + b', x);
      MergeSnoc(lists, b', x);
      AppendAssoc(Merge(lists, a), Merge(lists, b'), lists[x]);
    }
  }

  lemma MergeSnoc(lists: map<int, seq<real>>, order: seq<int>, x: int)
    requires Covers(lists, order) && x in lists
    ensures Covers(lists, order + [x])
    ensures Merge(lists, order + [x]) == Merge(lists, order) + lists[x]
  {
    assert (order + [x])[..|order|] == order;
  }

  /** Each client's list appears whole and in its own order, between those of the clients visited before and after it. */
  lemma MergeBlocks(lists: map<int, seq<real>>, order: seq<int>, j: nat)
    requires Covers(lists, order)
    requires j < |order|
    ensures Merge(lists, order) == Merge(lists, order[..j]) + lists[order[j]] + Merge(lists, order[j + 1..])
  {
    assert order == order[..j + 1] + order[j + 1..];
    MergeAppend(lists, order[..j + 1], order[j + 1..]);
    assert order[..j + 1][..j] == order[..j];
  }

  /** The sum of the lengths of the lists of the clients in `order`. */
  function TotalLength(lists: map<int, seq<real>>, order: seq<int>): nat
    requires Covers(lists, order)
    decreases |order|
  {
    if order == [] then 0 else |lists[order[0]]| + TotalLength(lists, order[1..])
  }

  /** The merged list is as long as all the clients' lists together. */
  lemma {:induction false} MergeLength(lists: map<int, seq<real>>, order: seq<int>)
    requires Covers(lists, order)
    ensures |Merge(lists, order)| == TotalLength(lists, order)
    decreases |order|
  {
    if order != [] {
      MergeBlocks(lists, order, 0);
      MergeLength(lists, order[1..]);
      assert order[..0] == [];
    }
  }

  /**
   * The order the map visits its keys in changes only the order of the merged
   * samples: any two enumerations of the keys merge to the same multiset.
   */
  lemma MergeOrderIrrelevant(lists: map<int, seq<real>>, keys: set<int>, o1: seq<int>, o2: seq<int>)
    requires keys <= lists.Keys
    requires IsEnumeration(o1, keys) && IsEnumeration(o2, keys)
    ensures multiset(Merge(lists, o1)) == multiset(Merge(lists, o2))
  {
    EnumerationMultiset(o1, keys);
    EnumerationMultiset(o2, keys);
    MergePermutation(lists, o1, o2);
  }

  /** Merging a permutation of the clients gives a permutation of the samples. */
  lemma {:induction false} MergePermutation(lists: map<int, seq<real>>, o1: seq<int>, o2: seq<int>)
    requires Covers(lists, o1) && Covers(lists, o2) && multiset(o1) == multiset(o2)
    ensures multiset(Merge(lists, o1)) == multiset(Merge(lists, o2))
    decreases |o1|
  {
    if o1 == [] {
      assert |o2| == |multiset(o2)| == 0;
    } else {
      var n := |o1| - 1;
      var k := o1[n];
      var j := FindIn(o2, k, multiset(o1));
      RemoveLast(o1);
      RemoveAt(o2, j);
      MergeRemove(lists, o2, j);
      MergePermutation(lists, o1[..n], o2[..j] + o2[j + 1..]);
    }
  }

  /** An element of a sequence's multiset occurs at some position of it. */
  lemma FindIn(s: seq<int>, k: int, m: multiset<int>) returns (j: nat)
    requires k in m && multiset(s) == m
    ensures j < |s| && s[j] == k
  {
    assert k in s;
    j :| 0 <= j < |s| && s[j] == k;
  }

  lemma RemoveLast(s: seq<int>)
    requires s != []
    ensures multiset(s[..|s| - 1]) == multiset(s) - multiset{s[|s| - 1]}
  {
    assert s == s[..|s| - 1] + [s[|s| - 1]];
  }

  lemma RemoveAt(s: seq<int>, j: nat)
    requires j < |s|
    ensures multiset(s[..j] + s[j + 1..]) == multiset(s) - multiset{s[j]}
  {
    assert s == s[..j] + [s[j]] + s[j + 1..];
  }

  /** Taking a client out of the order takes exactly its samples out of the merged multiset. */
  lemma MergeRemove(lists: map<int, seq<real>>, order: seq<int>, j: nat)
    requires Covers(lists, order)
    requires j < |order|
    ensures Covers(lists, order[..j] + order[j + 1..])
    ensures multiset(Merge(lists, order)) == multiset(Merge(lists, order[..j] + order[j + 1..])) + multiset(lists[order[j]])
  {
    MergeBlocks(lists, order, j);
    MergeAppend(lists, order[..j], order[j + 1..]);
  }

  // -------------------------------------------------------- printPercentiles

  ghost predicate Sorted(s: seq<real>) {
    forall i, j :: 0 <= i < j < |s| ==> s[i] <= s[j]
  }

  /** Collections.sort on the samples, in place; an insertion sort of the same result. */
  method Sort(a: array<real>)
    modifies a
    ensures Sorted(a[..])
    ensures multiset(a[..]) == multiset(old(a[..]))
  {
    for i := 0 to a.Length
      invariant Sorted(a[..i])
      invariant multiset(a[..]) == multiset(old(a[..]))
    {
      InsertLast(a, i);
    }
    assert a[..a.Length] == a[..];
  }

  /** Moves a[i] left past the larger elements of the sorted prefix a[..i]. */
  method InsertLast(a: array<real>, i: nat)
    requires i < a.Length && Sorted(a[..i])
    modifies a
    ensures Sorted(a[..i + 1])
    ensures multiset(a[..]) == multiset(old(a[..]))
  {
    var j := i;
    while j > 0 && a[j - 1] > a[j]
      invariant 0 <= j <= i
      invariant forall p, q :: 0 <= p < q <= i && p != j && q != j ==> a[p] <= a[q]
      invariant forall q :: j < q <= i ==> a[j] <= a[q]
      invariant multiset(a[..]) == multiset(old(a[..]))
    {
      SwapDown(a, j);
      j := j - 1;
    }
  }

  /** Exchanges a[j - 1] and a[j]. */
  method SwapDown(a: array<real>, j: nat)
    requires 0 < j < a.Length
    modifies a
    ensures a[j - 1] == old(a[j]) && a[j] == old(a[j - 1])
    ensures forall k :: 0 <= k < a.Length && k != j - 1 && k != j ==> a[k] == old(a[k])
    ensures multiset(a[..]) == multiset(old(a[..]))
  {
    ghost var s := a[..];
    a[j - 1], a[j] := a[j], a[j - 1];
    assert a[..] == s[j - 1 := s[j]][j := s[j - 1]];
    SwapKeepsMultiset(s, j);
  }

  lemma SwapKeepsMultiset(s: seq<real>, j: nat)
    requires 0 < j < |s|
    ensures multiset(s[j - 1 := s[j]][j := s[j - 1]]) == multiset(s)
  {
    var t := s[j - 1 := s[j]][j := s[j - 1]];
    assert s == s[..j - 1] + [s[j - 1], s[j]] + s[j + 1..];
    assert t == s[..j - 1] + [s[j], s[j - 1]] + s[j + 1..];
  }

  /** The largest pool for which size*p cannot overflow an int for any p up to 100. */
  const MAX_EXACT_SIZE: int := INT_MAX / 100

  /** The index printPercentiles reads for percentile `p`: size*p/100 - 1 in Java int arithmetic. */
  function PercentileIndex(size: int, p: nat): int
    requires 0 <= size <= INT_MAX
  {
    JavaDiv(Product32(size, p), 100) - 1
  }

  /** size * p in Java int arithmetic, accumulated one int addition at a time. */
  function Product32(size: int, p: nat): (r: int)
    requires 0 <= size <= INT_MAX
    ensures INT_MIN <= r <= INT_MAX
    decreases p
  {
    if p == 0 then 0 else AddInt(Product32(size, p - 1), size)
  }

  /** Accumulating with int additions gives the wrapped product, as Java's int `*` does. */
  lemma {:induction false} Product32IsWrappedProduct(size: int, p: nat)
    requires 0 <= size <= INT_MAX
    ensures Product32(size, p) == Wrap32(size * p)
    decreases p
  {
    if p == 0 {
      WrapUnique(0, 0);
    } else {
      Product32IsWrappedProduct(size, p - 1);
      AddIntIsWrapped(Product32(size, p - 1), size);
      WrapAdd(size * (p - 1), size);
      assert size * (p - 1) + size == size * p;
    }
  }

  /** One printed line: the percentile and the sample reported for it. */
  datatype Percentile = Percentile(p: int, value: real)

  /** times.get throws for the index computed at percentile `p`. */
  datatype PercentileError = IndexOutOfBounds(p: int, index: int)

  /** What printPercentiles prints for p = from..100 of the sorted samples `s`, or where it throws. */
  function PercentilesFrom(s: seq<real>, from: int): Result<seq<Percentile>, PercentileError>
    requires 1 <= from <= 101 && |s| <= INT_MAX
    decreases 101 - from
  {
    if from == 101 then Success([])
    else
      var i := PercentileIndex(|s|, from);
      if i < 0 || i >= |s| then Failure(IndexOutOfBounds(from, i))
      else
        match PercentilesFrom(s, from + 1)
        case Success(rest) => Success([Percentile(from, s[i])] + rest)
        case Failure(e) => Failure(e)
  }

  function Percentiles(s: seq<real>): Result<seq<Percentile>, PercentileError>
    requires |s| <= INT_MAX
  {
    PercentilesFrom(s, 1)
  }

  /** printPercentiles: sorts the samples in place, then reads the sample for each p from 1 to 100. */
  method PrintPercentiles(times: array<real>) returns (r: Result<seq<Percentile>, PercentileError>)
    requires times.Length <= INT_MAX
    modifies times
    ensures Sorted(times[..])
    ensures multiset(times[..]) == multiset(old(times[..]))
    ensures r == Percentiles(times[..])
  {
    Sort(times);
    r := ReadPercentiles(times[..]);
  }

  /** The loop of printPercentiles over p = 1..100, reading the samples already sorted. */
  method ReadPercentiles(times: seq<real>) returns (r: Result<seq<Percentile>, PercentileError>)
    requires |times| <= INT_MAX
    ensures r == Percentiles(times)
  {
    var out: seq<Percentile> := [];
    for p := 1 to 101
      invariant |out| == p - 1
      invariant LinesFrom(times, 1, out)
    {
      var idx := PercentileIndex(|times|, p);
      if idx < 0 || idx >= |times| {
        FailsAt(times, 1, out);
        return Failure(IndexOutOfBounds(p, idx));
      }
      LinesSnoc(times, 1, out, Percentile(p, times[idx]));
      out := out + [Percentile(p, times[idx])];
    }
    AllLines(times, 1, out);
    r := Success(out);
  }

  /** Lines that are right for every p from `from` to 100 are the whole output from `from` on. */
  lemma {:induction false} AllLines(s: seq<real>, from: int, out: seq<Percentile>)
    requires 1 <= from <= 101 && |s| <= INT_MAX && |out| == 101 - from
    requires LinesFrom(s, from, out)
    ensures PercentilesFrom(s, from) == Success(out)
    decreases 101 - from
  {
    if from < 101 {
      LinesTail(s, from, out);
      AllLines(s, from + 1, out[1..]);
      assert out == [out[0]] + out[1..];
    }
  }

  /** After lines that are right from `from` on, a percentile whose index is out of range ends the output with its exception. */
  lemma {:induction false} FailsAt(s: seq<real>, from: int, out: seq<Percentile>)
    requires 1 <= from && from + |out| <= 100 && |s| <= INT_MAX
    requires LinesFrom(s, from, out)
    requires var i := PercentileIndex(|s|, from + |out|); i < 0 || i >= |s|
    ensures PercentilesFrom(s, from) == Failure(IndexOutOfBounds(from + |out|, PercentileIndex(|s|, from + |out|)))
    decreases |out|
  {
    if out != [] {
      LinesTail(s, from, out);
      FailsAt(s, from + 1, out[1..]);
    }
  }

  /** Without overflow the index is the exact quotient minus one. */
  lemma IndexWithoutOverflow(size: int, p: int)
    requires 0 <= size <= MAX_EXACT_SIZE && 0 <= p <= 100
    ensures PercentileIndex(size, p) == size * p / 100 - 1
  {
    MulBound(size, p);
    IndexExact(size, p);
  }

  /** Whenever size*p fits in an int, the index is the exact quotient minus one. */
  lemma IndexExact(size: int, p: nat)
    requires 0 <= size <= INT_MAX && size * p <= INT_MAX
    ensures PercentileIndex(size, p) == size * p / 100 - 1
  {
    Product32IsWrappedProduct(size, p);
    assert 0 <= size * p;
  }

  lemma MulBound(size: int, p: int)
    requires 0 <= size <= MAX_EXACT_SIZE && 0 <= p <= 100
    ensures 0 <= size * p <= INT_MAX
  {
    assert size * p <= size * 100 by {
      MulMonotone(size, p, 100);
    }
  }

  lemma MulMonotone(n: int, p: int, q: int)
    requires n >= 0 && p <= q
    ensures n * p <= n * q
  {
    assert n * q - n * p == n * (q - p);
  }

  /**
   * Every index lies in [0, size) for p = 1..100 exactly when there are at least
   * 100 samples and size*100 does not overflow; with fewer, p = 1 reads index -1.
   */
  lemma IndicesInRange(size: int)
    requires 0 <= size <= INT_MAX
    ensures (forall p :: 1 <= p <= 100 ==> 0 <= PercentileIndex(size, p) < size) <==> 100 <= size <= MAX_EXACT_SIZE
    ensures size < 100 ==> PercentileIndex(size, 1) == -1
  {
    if size > MAX_EXACT_SIZE {
      var p := OverflowIndex(size);
    } else {
      IndexWithoutOverflow(size, 1);
      if size >= 100 {
        forall p | 1 <= p <= 100 ensures 0 <= PercentileIndex(size, p) < size {
          IndexWithoutOverflow(size, p);
          DivBounds(size, p);
        }
      }
    }
  }

  /**
   * Above MAX_EXACT_SIZE some p up to 100 overflows: the first p with size*p > INT_MAX
   * wraps to a negative product, and so to a negative index.
   */
  lemma OverflowIndex(size: int) returns (p: int)
    requires MAX_EXACT_SIZE < size <= INT_MAX
    ensures 1 <= p <= 100 && PercentileIndex(size, p) < 0
  {
    var q := INT_MAX / size;
    p := q + 1;
    assert size * q <= INT_MAX < size * p by {
      assert INT_MAX == size * q + INT_MAX % size;
      assert size * p == size * q + size;
    }
    assert size * 100 > INT_MAX by {
      MulMonotone(100, MAX_EXACT_SIZE + 1, size);
    }
    assert q < 100 by {
      if q >= 100 {
        MulMonotone(size, 100, q);
      }
    }
    var x := size * p - TWO_TO_32;
    assert size * p == size * q + size <= INT_MAX + INT_MAX;
    Product32IsWrappedProduct(size, p);
    WrapUnique(size * p, x);
    assert Product32(size, p) == x < 0;
  }

  lemma DivBounds(size: int, p: int)
    requires 100 <= size && 1 <= p <= 100
    ensures 100 <= size * p && size * p / 100 <= size
  {
    MulMonotone(size, 1, p);
    MulMonotone(size, p, 100);
  }

  /** The index never decreases as p grows. */
  lemma IndexMonotone(size: int, p: int, q: int)
    requires 0 <= size <= MAX_EXACT_SIZE && 0 <= p <= q <= 100
    ensures PercentileIndex(size, p) <= PercentileIndex(size, q)
  {
    IndexWithoutOverflow(size, p);
    IndexWithoutOverflow(size, q);
    MulMonotone(size, p, q);
  }

  /**
   * One sample more than MAX_EXACT_SIZE and size*100 overflows: p = 100 reads the
   * negative index -21474836, so printPercentiles throws there, after 99 good lines.
   */
  lemma OverflowAtHundred(s: seq<real>)
    requires |s| == MAX_EXACT_SIZE + 1
    ensures PercentileIndex(|s|, 100) == -21474836
    ensures Percentiles(s) == Failure(IndexOutOfBounds(100, -21474836))
  {
    var size := |s|;
    assert size == 21474837;
    assert size * 100 == 2147483700;
    Product32IsWrappedProduct(size, 100);
    WrapUnique(2147483700, -2147483596);
    assert Product32(size, 100) == -2147483596;
    assert JavaDiv(-2147483596, 100) == -21474835;
    FailsAtHundred(s, 1);
  }

  /** Every p from `from` to 99 reads an index in range, so the output from `from` on ends with the exception at p = 100. */
  lemma {:induction false} FailsAtHundred(s: seq<real>, from: int)
    requires |s| == MAX_EXACT_SIZE + 1 && 1 <= from <= 100
    requires PercentileIndex(|s|, 100) == -21474836
    ensures PercentilesFrom(s, from) == Failure(IndexOutOfBounds(100, -21474836))
    decreases 100 - from
  {
    if from < 100 {
      var size := |s|;
      MulMonotone(size, from, 99);
      IndexExact(size, from);
      DivBounds(size, from);
      FailsAtHundred(s, from + 1);
    }
  }

  /** p = 100 reads the last sample. */
  lemma LastPercentileIndex(size: int)
    requires 0 <= size <= MAX_EXACT_SIZE
    ensures PercentileIndex(size, 100) == size - 1
  {
    IndexWithoutOverflow(size, 100);
  }

  /** `line` is what printPercentiles prints for percentile `p` of the sorted samples `s`. */
  ghost predicate LineAt(s: seq<real>, p: int, line: Percentile) {
    && 1 <= p
    && |s| <= INT_MAX
    && 0 <= PercentileIndex(|s|, p) < |s|
    && line == Percentile(p, s[PercentileIndex(|s|, p)])
  }

  /** The output from `from` on, when it succeeds: one line per p, each with the sample at its index. */
  lemma {:induction false} PercentilesFromShape(s: seq<real>, from: int)
    requires 1 <= from <= 101 && |s| <= INT_MAX && PercentilesFrom(s, from).Success?
    ensures |PercentilesFrom(s, from).value| == 101 - from
    ensures LinesFrom(s, from, PercentilesFrom(s, from).value)
    decreases 101 - from
  {
    if from < 101 {
      FirstLine(s, from);
      PercentilesFromShape(s, from + 1);
      LinesCons(s, from, PercentilesFrom(s, from).value[0], PercentilesFrom(s, from + 1).value);
    }
  }

  /** A successful output from `from` on starts with the line for `from`, followed by the output from `from + 1` on. */
  lemma FirstLine(s: seq<real>, from: int)
    requires 1 <= from <= 100 && |s| <= INT_MAX && PercentilesFrom(s, from).Success?
    ensures PercentilesFrom(s, from + 1).Success?
    ensures PercentilesFrom(s, from).value == [PercentilesFrom(s, from).value[0]] + PercentilesFrom(s, from + 1).value
    ensures LineAt(s, from, PercentilesFrom(s, from).value[0])
  {
  }

  /** Every line of `out` is right, the first for `from` and the others for the p after it. */
  ghost predicate LinesFrom(s: seq<real>, from: int, out: seq<Percentile>) {
    forall k :: 0 <= k < |out| ==> LineAt(s, from + k, out[k])
  }

  lemma LinesCons(s: seq<real>, from: int, line: Percentile, rest: seq<Percentile>)
    requires LineAt(s, from, line) && LinesFrom(s, from + 1, rest)
    ensures LinesFrom(s, from, [line] + rest)
  {
    forall k | 0 <= k < |[line] + rest| ensures LineAt(s, from + k, ([line] + rest)[k]) {
      if k > 0 {
        assert LineAt(s, from + 1 + (k - 1), rest[k - 1]);
      }
    }
  }

  lemma LinesTail(s: seq<real>, from: int, out: seq<Percentile>)
    requires LinesFrom(s, from, out) && out != []
    ensures LineAt(s, from, out[0]) && LinesFrom(s, from + 1, out[1..])
  {
    assert LineAt(s, from + 0, out[0]);
    forall k | 0 <= k < |out| - 1 ensures LineAt(s, from + 1 + k, out[1..][k]) {
      assert LineAt(s, from + (k + 1), out[k + 1]);
    }
  }

  lemma LinesSnoc(s: seq<real>, from: int, out: seq<Percentile>, line: Percentile)
    requires LinesFrom(s, from, out) && LineAt(s, from + |out|, line)
    ensures LinesFrom(s, from, out + [line])
  {
    forall k | 0 <= k < |out + [line]| ensures LineAt(s, from + k, (out + [line])[k]) {
      if k < |out| {
        assert (out + [line])[k] == out[k];
      }
    }
  }

  /**
   * printPercentiles completes exactly when there are at least 100 samples and
   * size*100 does not overflow an int, and then prints 100 lines.
   */
  lemma PercentilesComplete(s: seq<real>)
    requires |s| <= INT_MAX
    ensures Percentiles(s).Success? <==> 100 <= |s| <= MAX_EXACT_SIZE
    ensures Percentiles(s).Success? ==> |Percentiles(s).value| == 100
  {
    IndicesInRange(|s|);
    if |s| > MAX_EXACT_SIZE {
      var p := OverflowIndex(|s|);
      OutOfRangeFails(s, 1, p);
    } else if |s| >= 100 {
      AllInRangeSucceeds(s, 1);
      PercentilesFromShape(s, 1);
    } else {
      FirstFailure(s, 1, 1);
    }
  }

  /** An index out of range at any p from `from` on makes the output from `from` fail. */
  lemma {:induction false} OutOfRangeFails(s: seq<real>, from: int, p: int)
    requires 1 <= from <= p <= 100 && |s| <= INT_MAX
    requires PercentileIndex(|s|, p) < 0 || PercentileIndex(|s|, p) >= |s|
    ensures PercentilesFrom(s, from).Failure?
    decreases p - from
  {
    if from < p {
      OutOfRangeFails(s, from + 1, p);
    }
  }

  /** Line k + 1 of a complete output reports percentile k + 1 with the sample at index size*(k+1)/100 - 1. */
  lemma ReportedSample(s: seq<real>, k: int)
    requires 100 <= |s| <= MAX_EXACT_SIZE && 0 <= k < 100
    ensures Percentiles(s).Success? && |Percentiles(s).value| == 100
    ensures 0 <= |s| * (k + 1) / 100 - 1 < |s|
    ensures Percentiles(s).value[k] == Percentile(k + 1, s[|s| * (k + 1) / 100 - 1])
  {
    SampleAt(s, k);
    IndexWithoutOverflow(|s|, k + 1);
  }

  lemma {:induction false} AllInRangeSucceeds(s: seq<real>, from: int)
    requires 1 <= from <= 101 && |s| <= INT_MAX
    requires forall p :: from <= p <= 100 ==> 0 <= PercentileIndex(|s|, p) < |s|
    ensures PercentilesFrom(s, from).Success?
    decreases 101 - from
  {
    if from < 101 {
      AllInRangeSucceeds(s, from + 1);
    }
  }

  /** When every p from `from` up to `p` - 1 reads an index in range, an out-of-range index at `p` ends the output with its exception. */
  lemma {:induction false} FirstFailure(s: seq<real>, from: int, p: int)
    requires 1 <= from <= p <= 100 && |s| <= INT_MAX
    requires forall q :: from <= q < p ==> 0 <= PercentileIndex(|s|, q) < |s|
    requires PercentileIndex(|s|, p) < 0 || PercentileIndex(|s|, p) >= |s|
    ensures PercentilesFrom(s, from) == Failure(IndexOutOfBounds(p, PercentileIndex(|s|, p)))
    decreases p - from
  {
    if from < p {
      FirstFailure(s, from + 1, p);
    }
  }

  /** On sorted samples the reported values never decrease as p grows. */
  lemma ReportedNonDecreasing(s: seq<real>)
    requires Sorted(s) && 100 <= |s| <= MAX_EXACT_SIZE
    ensures Percentiles(s).Success? && |Percentiles(s).value| == 100
    ensures forall k, l :: 0 <= k < l < 100 ==> Percentiles(s).value[k].value <= Percentiles(s).value[l].value
  {
    PercentilesComplete(s);
    PercentilesFromShape(s, 1);
    var r := Percentiles(s).value;
    forall k, l | 0 <= k < l < 100 ensures r[k].value <= r[l].value {
      SampleOrder(s, r, k, l);
    }
  }

  /** On sorted samples p = 100 reports the largest sample. */
  lemma HundredthIsMaximum(s: seq<real>)
    requires Sorted(s) && 100 <= |s| <= MAX_EXACT_SIZE
    ensures Percentiles(s).Success? && |Percentiles(s).value| == 100
    ensures forall x :: x in s ==> x <= Percentiles(s).value[99].value
  {
    SampleAt(s, 99);
    LastPercentileIndex(|s|);
    var top := PercentileIndex(|s|, 100);
    assert Percentiles(s).value[99].value == s[top];
    LastIsMaximum(s, Percentiles(s).value[99].value);
  }

  /** Line k + 1 of a complete output holds the sample at the index computed for percentile k + 1. */
  lemma SampleAt(s: seq<real>, k: int)
    requires 100 <= |s| <= MAX_EXACT_SIZE && 0 <= k < 100
    ensures Percentiles(s).Success? && |Percentiles(s).value| == 100
    ensures 0 <= PercentileIndex(|s|, k + 1) < |s|
    ensures Percentiles(s).value[k] == Percentile(k + 1, s[PercentileIndex(|s|, k + 1)])
  {
    PercentilesComplete(s);
    PercentilesFromShape(s, 1);
    assert LinesFrom(s, 1, Percentiles(s).value);
    assert LineAt(s, 1 + k, Percentiles(s).value[k]);
  }

  lemma SampleOrder(s: seq<real>, r: seq<Percentile>, k: int, l: int)
    requires Sorted(s) && 100 <= |s| <= MAX_EXACT_SIZE && |r| == 100 && 0 <= k < l < 100
    requires LinesFrom(s, 1, r)
    ensures r[k].value <= r[l].value
  {
    assert LineAt(s, 1 + k, r[k]) && LineAt(s, 1 + l, r[l]);
    IndexMonotone(|s|, k + 1, l + 1);
    SortedPair(s, PercentileIndex(|s|, k + 1), PercentileIndex(|s|, l + 1));
  }

  lemma SortedPair(s: seq<real>, i: int, j: int)
    requires Sorted(s) && 0 <= i <= j < |s|
    ensures s[i] <= s[j]
  {
  }

  lemma LastIsMaximum(s: seq<real>, m: real)
    requires Sorted(s) && |s| > 0 && m == s[|s| - 1]
    ensures forall x :: x in s ==> x <= m
  {
    forall x | x in s ensures x <= m {
      var i :| 0 <= i < |s| && s[i] == x;
      assert i <= |s| - 1;
    }
  }

  /** For the samples 1, 2, ..., 100 the value reported for p is p. */
  lemma OneToHundred(s: seq<real>)
    requires |s| == 100 && forall i :: 0 <= i < 100 ==> s[i] == (i + 1) as real
    ensures Percentiles(s).Success? && |Percentiles(s).value| == 100
    ensures forall k :: 0 <= k < 100 ==> Percentiles(s).value[k] == Percentile(k + 1, (k + 1) as real)
  {
    PercentilesComplete(s);
    var out := Percentiles(s).value;
    forall k | 0 <= k < 100 ensures out[k] == Percentile(k + 1, (k + 1) as real) {
      ReportedSample(s, k);
      assert 100 * (k + 1) / 100 - 1 == k;
    }
  }
}
