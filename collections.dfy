/**
 * The collection primitives the ranking code takes from the JavaScript runtime:
 * `Array.prototype.sort` with a comparator (a stable sort since ES2019), an
 * order on strings standing for `sort()` without a comparator and, approximately,
 * for `localeCompare`, `reverse()`, `map()`, and `Array.from(new Set(xs))`,
 * which drops repeated values and keeps first occurrences in order.
 */
module Collections {

  /** `le` is a total preorder: every pair is comparable and it is transitive. */
  ghost predicate TotalPreorder<T(!new)>(le: (T, T) -> bool) {
    && (forall a, b :: le(a, b) || le(b, a))
    && (forall a, b, c :: le(a, b) && le(b, c) ==> le(a, c))
  }

  /** Every element is `le`-before every later element. */
  ghost predicate SortedBy<T>(s: seq<T>, le: (T, T) -> bool) {
    forall i, j :: 0 <= i < j < |s| ==> le(s[i], s[j])
  }

  /** No value occurs twice. */
  predicate Distinct<T(==)>(s: seq<T>) {
    forall i, j :: 0 <= i < j < |s| ==> s[i] != s[j]
  }

  /** Puts `x` in front of the first element it is `le`-before. */
  function Insert<T>(x: T, s: seq<T>, le: (T, T) -> bool): (r: seq<T>)
    ensures |r| == |s| + 1
    ensures multiset(r) == multiset(s) + multiset{x}
  {
    if s == [] then [x]
    else if le(x, s[0]) then [x] + s
    else
      assert s == [s[0]] + s[1..];
      [s[0]] + Insert(x, s[1..], le)
  }

  /** Insertion sort; keeps equal elements in their input order, as a stable sort does. */
  function SortBy<T>(s: seq<T>, le: (T, T) -> bool): (r: seq<T>)
    ensures |r| == |s|
    ensures multiset(r) == multiset(s)
  {
    if s == [] then []
    else
      assert s == [s[0]] + s[1..];
      Insert(s[0], SortBy(s[1..], le), le)
  }

  /** Every element `le`-after `x` is also after anything `le`-before `x`. */
  lemma PrependSorted<T(!new)>(x: T, s: seq<T>, le: (T, T) -> bool)
    requires TotalPreorder(le)
    requires SortedBy(s, le)
    requires s != [] && le(x, s[0])
    ensures SortedBy([x] + s, le)
  {
    var r := [x] + s;
    forall j | 1 <= j < |r| ensures le(x, r[j]) {
      if j > 1 {
        assert le(s[0], s[j - 1]);
      }
    }
  }

  lemma ConsSorted<T>(y: T, t: seq<T>, le: (T, T) -> bool)
    requires SortedBy(t, le)
    requires forall k :: 0 <= k < |t| ==> le(y, t[k])
    ensures SortedBy([y] + t, le)
  {
    var r := [y] + t;
    forall i, j | 0 <= i < j < |r| ensures le(r[i], r[j]) {
      if i > 0 {
        assert r[i] == t[i - 1] && r[j] == t[j - 1];
      }
    }
  }

  lemma {:induction false} InsertSorted<T(!new)>(x: T, s: seq<T>, le: (T, T) -> bool)
    requires TotalPreorder(le)
    requires SortedBy(s, le)
    ensures SortedBy(Insert(x, s, le), le)
  {
    if s == [] {
    } else if le(x, s[0]) {
      PrependSorted(x, s, le);
    } else {
      var tail := Insert(x, s[1..], le);
      InsertSorted(x, s[1..], le);
      assert le(s[0], x);
      forall k | 0 <= k < |tail| ensures le(s[0], tail[k]) {
        var y := tail[k];
        assert y in multiset(tail);
        if y != x {
          assert y in multiset(s[1..]);
          var m :| 0 <= m < |s[1..]| && s[1..][m] == y;
          assert le(s[0], s[m + 1]);
        }
      }
      ConsSorted(s[0], tail, le);
    }
  }

  /** The sort orders its result by `le` whenever `le` is a total preorder. */
  lemma {:induction false} SortBySorted<T(!new)>(s: seq<T>, le: (T, T) -> bool)
    requires TotalPreorder(le)
    ensures SortedBy(SortBy(s, le), le)
  {
    if s != [] {
      SortBySorted(s[1..], le);
      InsertSorted(s[0], SortBy(s[1..], le), le);
    }
  }

  /** The elements of `s` that `le` ties with `e`, in the order of `s`. */
  function TiedWith<T>(s: seq<T>, le: (T, T) -> bool, e: T): (r: seq<T>)
    ensures |r| <= |s|
  {
    if s == [] then []
    else (if le(s[0], e) && le(e, s[0]) then [s[0]] else []) + TiedWith(s[1..], le, e)
  }

  /** Filtering a sequence with a first element filters that element, then the rest. */
  lemma TiedWithCons<T>(y: T, r: seq<T>, le: (T, T) -> bool, e: T)
    ensures TiedWith([y] + r, le, e)
         == (if le(y, e) && le(e, y) then [y] else []) + TiedWith(r, le, e)
  {
    assert ([y] + r)[1..] == r;
  }

  /** Two filtered prefixes, at least one empty, commute. */
  lemma SwapEmpty<T>(a: seq<T>, b: seq<T>, rest: seq<T>)
    requires a == [] || b == []
    ensures b + (a + rest) == a + (b + rest)
  {
  }

  /** An element `x` stops short of is tied with nothing `x` is tied with. */
  lemma SkippedNotTied<T(!new)>(x: T, y: T, le: (T, T) -> bool, e: T)
    requires TotalPreorder(le)
    requires !le(x, y)
    ensures !(le(x, e) && le(e, x)) || !(le(y, e) && le(e, y))
  {
  }

  /** Inserting `x` puts it ahead of every element tied with it and behind no tied element. */
  lemma {:induction false} InsertTied<T(!new)>(x: T, t: seq<T>, le: (T, T) -> bool, e: T)
    requires TotalPreorder(le)
    ensures TiedWith(Insert(x, t, le), le, e)
         == (if le(x, e) && le(e, x) then [x] else []) + TiedWith(t, le, e)
  {
    var cx := if le(x, e) && le(e, x) then [x] else [];
    if t != [] && !le(x, t[0]) {
      var y, r := t[0], Insert(x, t[1..], le);
      var c0 := if le(y, e) && le(e, y) then [y] else [];
      assert t == [y] + t[1..];
      SkippedNotTied(x, y, le, e);
      calc {
        TiedWith(Insert(x, t, le), le, e);
        { assert Insert(x, t, le) == [y] + r; }
        TiedWith([y] + r, le, e);
        { TiedWithCons(y, r, le, e); }
        c0 + TiedWith(r, le, e);
        { InsertTied(x, t[1..], le, e); }
        c0 + (cx + TiedWith(t[1..], le, e));
        { SwapEmpty(cx, c0, TiedWith(t[1..], le, e)); }
        cx + (c0 + TiedWith(t[1..], le, e));
        { TiedWithCons(y, t[1..], le, e); }
        cx + TiedWith(t, le, e);
      }
    } else if t != [] {
      TiedWithCons(x, t, le, e);
    }
  }

  /**
   * The sort is stable: elements tied under `le` leave it in the order they
   * came in, as `Array.prototype.sort` has guaranteed since ES2019.
   */
  lemma {:induction false} SortByStable<T(!new)>(s: seq<T>, le: (T, T) -> bool, e: T)
    requires TotalPreorder(le)
    ensures TiedWith(SortBy(s, le), le, e) == TiedWith(s, le, e)
  {
    if s != [] {
      SortByStable(s[1..], le, e);
      InsertTied(s[0], SortBy(s[1..], le), le, e);
    }
  }

  /** Concatenation is associative. */
  lemma AppendAssoc<T>(a: seq<T>, b: seq<T>, c: seq<T>)
    ensures a + (b + c) == (a + b) + c
  {
  }

  /** A sequence is its part before `k`, entry `k`, and its part after `k`. */
  lemma SplitAt<T>(b: seq<T>, k: nat)
    requires k < |b|
    ensures b == b[..k] + [b[k]] + b[k + 1..]
  {
  }

  /** Taking one element out of the middle of a sequence takes one of it out of its multiset. */
  lemma MultisetMiddle<T>(l: seq<T>, y: T, r: seq<T>)
    ensures multiset(l + [y] + r) == multiset(l + r) + multiset{y}
  {
  }

  /** Taking the same element out of two arrangements of the same elements leaves two arrangements. */
  lemma RemoveFirst<T>(a: seq<T>, b: seq<T>, k: nat)
    requires a != [] && k < |b| && b[k] == a[0]
    requires multiset(a) == multiset(b)
    ensures multiset(a[1..]) == multiset(b[..k] + b[k + 1..])
  {
    var b' := b[..k] + b[k + 1..];
    assert a == [a[0]] + a[1..];
    SplitAt(b, k);
    assert forall y :: multiset(a[1..])[y] == multiset(b')[y] by {
      assert forall y :: multiset(a)[y] == multiset{a[0]}[y] + multiset(a[1..])[y];
      assert forall y :: multiset(b)[y] == multiset{a[0]}[y] + multiset(b')[y];
    }
  }

  /** `s.map(f)`: `f` applied to each element, in order. */
  function MapSeq<T, U>(f: T --> U, s: seq<T>): (r: seq<U>)
    requires forall x :: x in s ==> f.requires(x)
    ensures |r| == |s|
  {
    if s == [] then []
    else
      assert forall x :: x in s[1..] ==> x in s;
      [f(s[0])] + MapSeq(f, s[1..])
  }

  /** Entry `i` of the mapped sequence is `f` of entry `i`. */
  lemma {:induction false} MapSeqEntry<T, U>(f: T --> U, s: seq<T>, i: nat)
    requires forall x :: x in s ==> f.requires(x)
    requires i < |s|
    ensures MapSeq(f, s)[i] == f(s[i])
  {
    if i > 0 {
      assert forall x :: x in s[1..] ==> x in s;
      MapSeqEntry(f, s[1..], i - 1);
    }
  }

  /** Mapping a concatenation maps each part. */
  lemma {:induction false} MapSeqAppend<T, U>(f: T --> U, u: seq<T>, v: seq<T>)
    requires forall x :: x in u ==> f.requires(x)
    requires forall x :: x in v ==> f.requires(x)
    ensures MapSeq(f, u + v) == MapSeq(f, u) + MapSeq(f, v)
  {
    if u == [] {
      assert u + v == v;
    } else {
      assert (u + v)[1..] == u[1..] + v;
      assert forall x :: x in u[1..] ==> x in u;
      MapSeqAppend(f, u[1..], v);
    }
  }

  /** Mapping counts one more of `f(b[k])` with entry `k` than without it. */
  lemma MapSeqRemove<T, U>(f: T --> U, b: seq<T>, k: nat)
    requires forall x :: x in b ==> f.requires(x)
    requires k < |b|
    ensures multiset(MapSeq(f, b)) == multiset(MapSeq(f, b[..k] + b[k + 1..])) + multiset{f(b[k])}
  {
    var p, x, q := b[..k], b[k], b[k + 1..];
    SplitAt(b, k);
    assert forall y :: y in p ==> y in b;
    assert forall y :: y in q ==> y in b;
    MapSeqAppend(f, p, q);
    MapSeqAppend(f, p, [x]);
    MapSeqAppend(f, p + [x], q);
    assert MapSeq(f, [x]) == [f(x)];
    calc {
      multiset(MapSeq(f, b));
      multiset(MapSeq(f, p + [x] + q));
      multiset(MapSeq(f, p) + [f(x)] + MapSeq(f, q));
      { MultisetMiddle(MapSeq(f, p), f(x), MapSeq(f, q)); }
      multiset(MapSeq(f, p) + MapSeq(f, q)) + multiset{f(x)};
      multiset(MapSeq(f, p + q)) + multiset{f(x)};
    }
  }

  /** Mapping two arrangements of the same elements gives two arrangements of the same results. */
  lemma {:induction false} MapSeqPermutes<T, U>(f: T --> U, a: seq<T>, b: seq<T>)
    requires forall x :: x in a ==> f.requires(x)
    requires multiset(a) == multiset(b)
    ensures forall x :: x in b ==> f.requires(x)
    ensures multiset(MapSeq(f, a)) == multiset(MapSeq(f, b))
  {
    assert forall x :: x in b ==> x in multiset(a);
    if a != [] {
      assert a[0] in multiset(b);
      var k :| 0 <= k < |b| && b[k] == a[0];
      var b' := b[..k] + b[k + 1..];
      assert forall x :: x in a[1..] ==> x in a;
      calc {
        multiset(MapSeq(f, a));
        multiset([f(a[0])] + MapSeq(f, a[1..]));
        multiset{f(a[0])} + multiset(MapSeq(f, a[1..]));
        { RemoveFirst(a, b, k); MapSeqPermutes(f, a[1..], b'); }
        multiset{f(a[0])} + multiset(MapSeq(f, b'));
        { MapSeqRemove(f, b, k); }
        multiset(MapSeq(f, b));
      }
    }
  }

  /** The sequence read back to front, as `Array.prototype.reverse` leaves it. */
  function Reverse<T>(s: seq<T>): (r: seq<T>)
    ensures |r| == |s|
    ensures forall i :: 0 <= i < |s| ==> r[i] == s[|s| - 1 - i]
  {
    if s == [] then [] else Reverse(s[1..]) + [s[0]]
  }

  /** Reversal keeps the elements. */
  lemma ReverseMembers<T>(s: seq<T>)
    ensures forall x :: x in Reverse(s) <==> x in s
  {
    var r := Reverse(s);
    var n := |s|;
    forall x ensures x in r <==> x in s {
      if x in r {
        var k :| 0 <= k < n && r[k] == x;
        assert s[n - 1 - k] == x;
      }
      if x in s {
        var k :| 0 <= k < n && s[k] == x;
        assert r[n - 1 - k] == x;
      }
    }
  }

  /** A sorted sequence without repeats, reversed, has each later element strictly before the earlier. */
  lemma ReverseSortedStrict<T>(sorted: seq<T>, le: (T, T) -> bool)
    requires SortedBy(sorted, le) && Distinct(sorted)
    ensures var r := Reverse(sorted);
      forall i, j :: 0 <= i < j < |r| ==> le(r[j], r[i]) && r[i] != r[j]
  {
    var r := Reverse(sorted);
    var n := |sorted|;
    forall i, j | 0 <= i < j < n ensures le(r[j], r[i]) && r[i] != r[j] {
      assert r[i] == sorted[n - 1 - i] && r[j] == sorted[n - 1 - j];
    }
  }

  /** Sorting keeps the elements. */
  lemma SortByMembers<T>(s: seq<T>, le: (T, T) -> bool)
    ensures forall x :: x in SortBy(s, le) <==> x in s
  {
    var sorted := SortBy(s, le);
    forall x ensures x in sorted <==> x in s {
      assert x in sorted <==> x in multiset(sorted);
      assert x in s <==> x in multiset(s);
    }
  }

  /**
   * Sorting distinct elements ascending and reversing the result lists the same
   * elements, each later one strictly before the earlier one.
   */
  lemma SortedDescending<T(!new)>(s: seq<T>, le: (T, T) -> bool)
    requires TotalPreorder(le) && Distinct(s)
    ensures var r := Reverse(SortBy(s, le));
      && (forall i, j :: 0 <= i < j < |r| ==> le(r[j], r[i]) && r[i] != r[j])
      && (forall x :: x in r <==> x in s)
  {
    var sorted := SortBy(s, le);
    SortBySorted(s, le);
    DistinctPermutation(s, sorted);
    ReverseSortedStrict(sorted, le);
    ReverseMembers(sorted);
    SortByMembers(s, le);
  }

  /**
   * Lexicographic order on strings by code point; a proper prefix comes first.
   * `sort()` compares UTF-16 code units instead, which differs only for
   * characters above U+FFFF against characters in U+E000 to U+FFFF.
   */
  predicate LexLe(a: string, b: string)
    decreases |a|
  {
    if a == [] then true
    else if b == [] then false
    else if a[0] < b[0] then true
    else if b[0] < a[0] then false
    else LexLe(a[1..], b[1..])
  }

  lemma {:induction false} LexLeTotal(a: string, b: string)
    ensures LexLe(a, b) || LexLe(b, a)
    decreases |a|
  {
    if a != [] && b != [] && a[0] == b[0] {
      LexLeTotal(a[1..], b[1..]);
    }
  }

  lemma {:induction false} LexLeTransitive(a: string, b: string, c: string)
    requires LexLe(a, b) && LexLe(b, c)
    ensures LexLe(a, c)
    decreases |a|
  {
    if a != [] && b != [] && c != [] && a[0] == b[0] && b[0] == c[0] {
      LexLeTransitive(a[1..], b[1..], c[1..]);
    }
  }

  lemma {:induction false} LexLeAntisymmetric(a: string, b: string)
    requires LexLe(a, b) && LexLe(b, a)
    ensures a == b
    decreases |a|
  {
    if a != [] {
      LexLeAntisymmetric(a[1..], b[1..]);
      assert a == [a[0]] + a[1..] && b == [b[0]] + b[1..];
    }
  }

  /** The string order is a total preorder, so sorting by it orders its result. */
  lemma LexLeTotalPreorder()
    ensures TotalPreorder(LexLe)
  {
    forall a, b ensures LexLe(a, b) || LexLe(b, a) {
      LexLeTotal(a, b);
    }
    forall a, b, c | LexLe(a, b) && LexLe(b, c) ensures LexLe(a, c) {
      LexLeTransitive(a, b, c);
    }
  }

  /** No value occurs twice exactly when every value is counted at most once. */
  lemma DistinctCounts<T>(s: seq<T>)
    ensures Distinct(s) <==> forall x :: multiset(s)[x] <= 1
  {
    if Distinct(s) {
      DistinctCountedOnce(s);
    } else {
      RepeatCountedTwice(s);
    }
  }

  /** In a sequence without repeats every value is counted at most once. */
  lemma {:induction false} DistinctCountedOnce<T>(s: seq<T>)
    requires Distinct(s)
    ensures forall x :: multiset(s)[x] <= 1
  {
    if s != [] {
      var rest := s[1..];
      assert s == [s[0]] + rest;
      assert Distinct(rest) by {
        forall i, j | 0 <= i < j < |rest| ensures rest[i] != rest[j] {
          assert rest[i] == s[i + 1] && rest[j] == s[j + 1];
        }
      }
      DistinctCountedOnce(rest);
      assert s[0] !in rest by {
        forall k | 0 <= k < |rest| ensures rest[k] != s[0] {
          assert rest[k] == s[k + 1];
        }
      }
    }
  }

  /** A value that occurs twice is counted twice. */
  lemma RepeatCountedTwice<T>(s: seq<T>)
    requires !Distinct(s)
    ensures exists x :: multiset(s)[x] > 1
  {
    var i, j :| 0 <= i < j < |s| && s[i] == s[j];
    var front, back := s[..j], s[j..];
    assert s == front + back;
    assert front[i] == s[i] && back[0] == s[j];
    assert multiset(s)[s[i]] == multiset(front)[s[i]] + multiset(back)[s[i]];
  }

  /** A rearrangement of a sequence without repeats has none either. */
  lemma DistinctPermutation<T>(s: seq<T>, t: seq<T>)
    requires multiset(s) == multiset(t) && Distinct(s)
    ensures Distinct(t)
  {
    DistinctCounts(s);
    DistinctCounts(t);
  }

  /** `Array.from(new Set(s))`: each value once, in order of first occurrence. */
  function Dedup<T(==, !new)>(s: seq<T>): (r: seq<T>)
    ensures |r| <= |s|
    ensures Distinct(r)
    ensures forall x :: x in r <==> x in s
    ensures |s| > 0 ==> |r| > 0 && r[0] == s[0]
  {
    if s == [] then []
    else
      var d := Dedup(s[..|s| - 1]);
      assert forall x :: x in s <==> x in s[..|s| - 1] || x == s[|s| - 1] by {
        assert s == s[..|s| - 1] + [s[|s| - 1]];
      }
      if s[|s| - 1] in d then d else d + [s[|s| - 1]]
  }

  /** Adding a value to a `Set` appends it when it is new and changes nothing otherwise. */
  lemma DedupSnoc<T(!new)>(s: seq<T>, x: T)
    ensures Dedup(s + [x]) == if x in Dedup(s) then Dedup(s) else Dedup(s) + [x]
  {
    assert (s + [x])[..|s|] == s;
  }

  /** What a proper prefix holds, the whole sequence holds. */
  lemma InPrefix<T>(s: seq<T>, n: nat)
    requires n <= |s|
    ensures forall y :: y in s[..n] ==> y in s
  {
    forall y | y in s[..n] ensures y in s {
      var k :| 0 <= k < n && s[..n][k] == y;
      assert s[k] == y;
    }
  }

  /** The index of the first occurrence of `x` in `s`. */
  function FirstIndex<T(==)>(s: seq<T>, x: T): (r: nat)
    requires x in s
    ensures r < |s| && s[r] == x
    ensures forall k :: 0 <= k < r ==> s[k] != x
  {
    if s[0] == x then 0 else FirstIndex(s[1..], x) + 1
  }

  /** A value met in a prefix is first met at the same index in the whole sequence. */
  lemma FirstIndexInPrefix<T>(s: seq<T>, n: nat, x: T)
    requires n <= |s| && x in s[..n]
    ensures x in s && FirstIndex(s, x) == FirstIndex(s[..n], x)
  {
    InPrefix(s, n);
    var a, b := FirstIndex(s, x), FirstIndex(s[..n], x);
    assert s[b] == x;
    assert forall k :: 0 <= k < n ==> s[..n][k] == s[k];
  }

  /**
   * `Array.from(new Set(s))` lists the values in the order of their first
   * occurrence in `s`.
   */
  lemma {:induction false} DedupFirstOccurrence<T(!new)>(s: seq<T>)
    ensures forall i, j :: 0 <= i < j < |Dedup(s)| ==> FirstIndex(s, Dedup(s)[i]) < FirstIndex(s, Dedup(s)[j])
  {
    if s != [] {
      var n := |s| - 1;
      var init, last := s[..n], s[n];
      var d := Dedup(init);
      DedupFirstOccurrence(init);
      assert forall y :: y in d ==> FirstIndex(s, y) == FirstIndex(init, y) by {
        forall y | y in d ensures FirstIndex(s, y) == FirstIndex(init, y) {
          FirstIndexInPrefix(s, n, y);
        }
      }
      if last !in d {
        assert Dedup(s) == d + [last];
        assert forall k :: 0 <= k < n ==> s[k] != last by {
          forall k | 0 <= k < n ensures s[k] != last {
            assert s[k] == init[k];
          }
        }
        assert FirstIndex(s, last) == n;
      }
    }
  }

  /** A non-empty sequence holding one value only collapses to that value. */
  lemma {:induction false} DedupOfOne<T(!new)>(s: seq<T>, c: T)
    requires |s| > 0
    requires forall y :: y in s ==> y == c
    ensures Dedup(s) == [c]
  {
    assert s[|s| - 1] in s;
    if |s| > 1 {
      InPrefix(s, |s| - 1);
      DedupOfOne(s[..|s| - 1], c);
    }
  }

  /** A sequence that starts with `c` and otherwise holds only `x` (at least once) collapses to `[c, x]`. */
  lemma {:induction false} DedupOfTwo<T(!new)>(s: seq<T>, c: T, x: T)
    requires |s| > 0 && s[0] == c && c != x && x in s
    requires forall y :: y in s ==> y == c || y == x
    ensures Dedup(s) == [c, x]
  {
    var init := s[..|s| - 1];
    InPrefix(s, |s| - 1);
    assert s[|s| - 1] in s;
    if x in init {
      assert init[0] == c;
      DedupOfTwo(init, c, x);
    } else {
      assert s == init + [s[|s| - 1]];
      DedupOfOne(init, c);
    }
  }
}
