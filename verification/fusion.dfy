/**
  Reciprocal Rank Fusion, stated once as a specification that both fusion
  implementations of the pipeline are proved against: the rank position base
  (1 or 0), the damping constant `k` and the identity key stay parameters, so
  each implementation keeps its own conventions.
*/
module Fusion {
  import opened Text

  predicate Distinct<T(==)>(s: seq<T>) {
    forall i, j :: 0 <= i < j < |s| ==> s[i] != s[j]
  }

  /** The distinct ids of `ids` in order of first occurrence: the key order of a Python dict filled from `ids`. */
  function FirstSeen(ids: seq<String>): (r: seq<String>)
    ensures Distinct(r)
    ensures forall x :: x in r <==> x in ids
    ensures |r| <= |ids|
  {
    if ids == [] then []
    else
      var p := FirstSeen(ids[..|ids| - 1]);
      var x := ids[|ids| - 1];
      assert ids == ids[..|ids| - 1] + [x];
      if x in p then p else p + [x]
  }

  lemma FirstSeenAppend(ids: seq<String>, x: String)
    ensures FirstSeen(ids + [x]) == if x in FirstSeen(ids) then FirstSeen(ids) else FirstSeen(ids) + [x]
  {
    assert (ids + [x])[..|ids|] == ids;
  }

  // ---------------------------------------------------------------- contributions

  /** No position `0 <= i < n` makes the denominator `k + base + i` zero. */
  predicate NonZeroRanks(n: nat, k: int, base: int) {
    k + base > 0 || k + base + n <= 0
  }

  /** What the hit at position `i` (counted from 0) adds: `1 / (k + base + i)`. */
  function Contribution(k: int, base: int, i: nat): real
    requires k + base + i != 0
  {
    1.0 / ((k + base + i) as real)
  }

  /** The sum of the contributions of every position of `ids` holding `x`. */
  function RankSum(ids: seq<String>, x: String, k: int, base: int): real
    requires NonZeroRanks(|ids|, k, base)
  {
    if ids == [] then 0.0
    else
      RankSum(ids[..|ids| - 1], x, k, base)
      + (if ids[|ids| - 1] == x then Contribution(k, base, |ids| - 1) else 0.0)
  }

  lemma RankSumAppend(ids: seq<String>, y: String, x: String, k: int, base: int)
    requires NonZeroRanks(|ids| + 1, k, base)
    ensures NonZeroRanks(|ids|, k, base)
    ensures RankSum(ids + [y], x, k, base)
            == RankSum(ids, x, k, base) + (if y == x then Contribution(k, base, |ids|) else 0.0)
  {
    assert (ids + [y])[..|ids|] == ids;
  }

  /** An id that never occurs gets nothing. */
  lemma {:induction false} RankSumAbsent(ids: seq<String>, x: String, k: int, base: int)
    requires NonZeroRanks(|ids|, k, base)
    requires x !in ids
    ensures RankSum(ids, x, k, base) == 0.0
  {
    if ids != [] {
      assert x !in ids[..|ids| - 1];
      RankSumAbsent(ids[..|ids| - 1], x, k, base);
    }
  }

  /** An id occurring exactly once, at position `i`, gets exactly `1 / (k + base + i)`. */
  lemma {:induction false} RankSumOnce(ids: seq<String>, i: nat, k: int, base: int)
    requires NonZeroRanks(|ids|, k, base)
    requires i < |ids|
    requires forall j :: 0 <= j < |ids| && j != i ==> ids[j] != ids[i]
    ensures k + base + i != 0
    ensures RankSum(ids, ids[i], k, base) == Contribution(k, base, i)
  {
    var n := |ids| - 1;
    if i == n {
      RankSumAbsent(ids[..n], ids[i], k, base);
    } else {
      var init := ids[..n];
      assert init[i] == ids[i];
      RankSumOnce(init, i, k, base);
    }
  }

  /** With a positive denominator base, an id scores above zero exactly when it occurs. */
  lemma {:induction false} RankSumPositive(ids: seq<String>, x: String, k: int, base: int)
    requires k + base > 0
    ensures RankSum(ids, x, k, base) >= 0.0
    ensures RankSum(ids, x, k, base) > 0.0 <==> x in ids
  {
    if ids != [] {
      var init := ids[..|ids| - 1];
      RankSumPositive(init, x, k, base);
      assert ids == init + [ids[|ids| - 1]];
    }
  }

  // ---------------------------------------------------------------- fused scores

  datatype Scored = Scored(id: String, score: real)

  function ScoreOf(e: Scored): real { e.score }

  function IdOf(e: Scored): String { e.id }

  /** The fused score of `x`: its contributions from both lists, added. */
  function RrfScore(a: seq<String>, b: seq<String>, x: String, k: int, base: int): real
    requires NonZeroRanks(|a|, k, base) && NonZeroRanks(|b|, k, base)
  {
    RankSum(a, x, k, base) + RankSum(b, x, k, base)
  }

  /** One entry per distinct id of `a + b`, in first-seen order, carrying its fused score. */
  function RrfScores(a: seq<String>, b: seq<String>, k: int, base: int): (r: seq<Scored>)
    requires NonZeroRanks(|a|, k, base) && NonZeroRanks(|b|, k, base)
    ensures |r| == |FirstSeen(a + b)|
    ensures forall i :: 0 <= i < |r| ==> r[i].id == FirstSeen(a + b)[i]
    ensures forall i :: 0 <= i < |r| ==> r[i].score == RrfScore(a, b, r[i].id, k, base)
  {
    var ids := FirstSeen(a + b);
    seq(|ids|, i requires 0 <= i < |ids| => Scored(ids[i], RrfScore(a, b, ids[i], k, base)))
  }

  // ---------------------------------------------------------------- accumulating a dict of scores

  /**
    A Python dict of fused scores: its values by key, and its keys in insertion order.
  */
  datatype Tallied = Tallied(scores: map<String, real>, order: seq<String>)

  /** `scores[doc_id] = scores.get(doc_id, 0) + contribution`. */
  function AddScore(t: Tallied, docId: String, contribution: real): Tallied {
    Tallied(t.scores[docId := (if docId in t.scores then t.scores[docId] else 0.0) + contribution],
            if docId in t.scores then t.order else t.order + [docId])
  }

  /** One accumulation loop over the ranked ids `ids`, starting from the dict `init`. */
  function AddAll(init: Tallied, ids: seq<String>, k: int, base: int): Tallied
    requires NonZeroRanks(|ids|, k, base)
  {
    if ids == [] then init
    else AddScore(AddAll(init, ids[..|ids| - 1], k, base), ids[|ids| - 1], Contribution(k, base, |ids| - 1))
  }

  /** The dict after reading the ranked ids `a` and then `b` holds each id's summed contributions, keyed in first-seen order. */
  ghost predicate Tally(t: Tallied, a: seq<String>, b: seq<String>, k: int, base: int)
    requires NonZeroRanks(|a|, k, base) && NonZeroRanks(|b|, k, base)
  {
    && t.order == FirstSeen(a + b)
    && (forall x :: x in t.scores <==> x in t.order)
    && (forall x :: x in t.scores ==> t.scores[x] == RankSum(a, x, k, base) + RankSum(b, x, k, base))
  }

  /** Adding the contribution of one more id of the second list keeps the tally. */
  lemma TallyStep(t: Tallied, a: seq<String>, b: seq<String>, y: String, k: int, base: int)
    requires NonZeroRanks(|a|, k, base) && NonZeroRanks(|b| + 1, k, base)
    requires NonZeroRanks(|b|, k, base) && Tally(t, a, b, k, base)
    ensures NonZeroRanks(|b + [y]|, k, base)
    ensures Tally(AddScore(t, y, Contribution(k, base, |b|)), a, b + [y], k, base)
  {
    assert a + (b + [y]) == (a + b) + [y];
    FirstSeenAppend(a + b, y);
    var t' := AddScore(t, y, Contribution(k, base, |b|));
    forall x | x in t'.scores
      ensures t'.scores[x] == RankSum(a, x, k, base) + RankSum(b + [y], x, k, base)
    {
      TallyStepAt(t, a, b, y, x, k, base);
    }
  }

  /** The score of one key after the step. */
  lemma TallyStepAt(t: Tallied, a: seq<String>, b: seq<String>, y: String, x: String, k: int, base: int)
    requires NonZeroRanks(|a|, k, base) && NonZeroRanks(|b| + 1, k, base)
    requires NonZeroRanks(|b|, k, base) && Tally(t, a, b, k, base)
    requires x in t.scores || x == y
    ensures NonZeroRanks(|b + [y]|, k, base)
    ensures RankSum(a, x, k, base) + RankSum(b + [y], x, k, base)
            == (if x in t.scores then t.scores[x] else 0.0) + (if y == x then Contribution(k, base, |b|) else 0.0)
  {
    RankSumAppend(b, y, x, k, base);
    if x !in t.scores {
      assert x !in a + b;
      RankSumAbsent(a, x, k, base);
      RankSumAbsent(b, x, k, base);
    }
  }

  /** One more id read by an accumulation loop adds its contribution to the dict. */
  lemma AddAllSnoc(init: Tallied, ids: seq<String>, i: nat, k: int, base: int)
    requires i < |ids| && NonZeroRanks(i + 1, k, base)
    ensures NonZeroRanks(i, k, base) && k + base + i != 0
    ensures AddAll(init, ids[..i + 1], k, base) == AddScore(AddAll(init, ids[..i], k, base), ids[i], Contribution(k, base, i))
  {
    assert ids[..i + 1][..i] == ids[..i];
  }

  lemma {:induction false} AddAllTally(init: Tallied, a: seq<String>, b: seq<String>, k: int, base: int)
    requires NonZeroRanks(|a|, k, base) && NonZeroRanks(|b|, k, base)
    requires Tally(init, a, [], k, base)
    ensures Tally(AddAll(init, b, k, base), a, b, k, base)
  {
    if b != [] {
      var c, y := b[..|b| - 1], b[|b| - 1];
      assert b == c + [y];
      AddAllTally(init, a, c, k, base);
      TallyStep(AddAll(init, c, k, base), a, c, y, k, base);
      assert AddAll(init, b, k, base) == AddScore(AddAll(init, c, k, base), y, Contribution(k, base, |c|));
    }
  }

  /** Two accumulation loops leave one key per distinct id, in first-seen order, holding its fused score. */
  lemma AddAllBoth(a: seq<String>, b: seq<String>, k: int, base: int)
    requires NonZeroRanks(|a|, k, base) && NonZeroRanks(|b|, k, base)
    ensures Tally(AddAll(AddAll(Tallied(map[], []), a, k, base), b, k, base), a, b, k, base)
  {
    var t0 := Tallied(map[], []);
    assert Tally(t0, [], [], k, base);
    AddAllTally(t0, [], a, k, base);
    TallySwap(AddAll(t0, a, k, base), a, k, base);
    AddAllTally(AddAll(t0, a, k, base), a, b, k, base);
  }

  /** After the first loop the ids read so far count as the first list. */
  lemma TallySwap(t: Tallied, a: seq<String>, k: int, base: int)
    requires NonZeroRanks(|a|, k, base) && Tally(t, [], a, k, base)
    ensures Tally(t, a, [], k, base)
  {
    assert [] + a == a + [];
  }

  /** `scores.items()`: the dict's entries in insertion order. */
  function Items(t: Tallied): seq<Scored>
    requires forall x :: x in t.order ==> x in t.scores
  {
    seq(|t.order|, i requires 0 <= i < |t.order| => Scored(t.order[i], t.scores[t.order[i]]))
  }

  /** A dict that tallies `a` then `b` lists the fused scores of `RrfScores`. */
  lemma TallyItems(t: Tallied, a: seq<String>, b: seq<String>, k: int, base: int)
    requires NonZeroRanks(|a|, k, base) && NonZeroRanks(|b|, k, base)
    requires Tally(t, a, b, k, base)
    ensures (forall x :: x in t.order ==> x in t.scores) && Items(t) == RrfScores(a, b, k, base)
  {
    var e, f := Items(t), RrfScores(a, b, k, base);
    assert |e| == |f|;
    forall i | 0 <= i < |e| ensures e[i] == f[i] {
    }
  }

  // ---------------------------------------------------------------- stable descending sort

  predicate SortedDesc<T>(s: seq<T>, key: T -> real) {
    forall i, j :: 0 <= i < j < |s| ==> key(s[i]) >= key(s[j])
  }

  /** Places `x` after every element whose key is at least its own. */
  function InsertDesc<T>(s: seq<T>, x: T, key: T -> real): seq<T> {
    if s == [] then [x]
    else if key(s[0]) < key(x) then [x] + s
    else [s[0]] + InsertDesc(s[1..], x, key)
  }

  /** Python's `sorted(s, key=key, reverse=True)`, which is stable. */
  function SortDesc<T>(s: seq<T>, key: T -> real): seq<T> {
    if s == [] then [] else InsertDesc(SortDesc(s[..|s| - 1], key), s[|s| - 1], key)
  }

  /** The elements of `s` whose key is `v`, in order. */
  function WithKey<T>(s: seq<T>, key: T -> real, v: real): seq<T> {
    if s == [] then [] else (if key(s[0]) == v then [s[0]] else []) + WithKey(s[1..], key, v)
  }

  lemma {:induction false} WithKeyConcat<T>(a: seq<T>, b: seq<T>, key: T -> real, v: real)
    ensures WithKey(a + b, key, v) == WithKey(a, key, v) + WithKey(b, key, v)
  {
    if a == [] {
      assert a + b == b;
    } else {
      var ab := a + b;
      assert ab[0] == a[0];
      assert ab[1..] == a[1..] + b;
      WithKeyConcat(a[1..], b, key, v);
      assert WithKey(ab, key, v) == (if key(a[0]) == v then [a[0]] else []) + WithKey(ab[1..], key, v);
    }
  }

  lemma {:induction false} WithKeyNone<T>(s: seq<T>, key: T -> real, v: real)
    requires forall i :: 0 <= i < |s| ==> key(s[i]) < v
    ensures WithKey(s, key, v) == []
  {
    if s != [] {
      WithKeyNone(s[1..], key, v);
    }
  }

  lemma {:induction false} InsertDescPerm<T>(s: seq<T>, x: T, key: T -> real)
    ensures multiset(InsertDesc(s, x, key)) == multiset(s) + multiset{x}
  {
    if s != [] && key(s[0]) >= key(x) {
      InsertDescPerm(s[1..], x, key);
      assert s == [s[0]] + s[1..];
    }
  }

  lemma {:induction false} InsertDescSorted<T>(s: seq<T>, x: T, key: T -> real)
    requires SortedDesc(s, key)
    ensures SortedDesc(InsertDesc(s, x, key), key)
  {
    var r := InsertDesc(s, x, key);
    if s != [] && key(s[0]) >= key(x) {
      var t := InsertDesc(s[1..], x, key);
      InsertDescSorted(s[1..], x, key);
      InsertDescPerm(s[1..], x, key);
      assert r == [s[0]] + t;
      forall j | 0 < j < |r| ensures key(r[0]) >= key(r[j]) {
        assert r[j] == t[j - 1];
        assert r[j] in multiset(t);
        if r[j] != x {
          assert r[j] in multiset(s[1..]);
          assert r[j] in s[1..];
        }
      }
    }
  }

  lemma {:induction false} InsertDescWithKey<T>(s: seq<T>, x: T, key: T -> real, v: real)
    requires SortedDesc(s, key)
    ensures WithKey(InsertDesc(s, x, key), key, v) == WithKey(s, key, v) + (if key(x) == v then [x] else [])
  {
    var r := InsertDesc(s, x, key);
    if s == [] {
      assert r == [x];
      assert r[1..] == [];
    } else if key(s[0]) < key(x) {
      assert r == [x] + s;
      assert r[1..] == s;
      if key(x) == v {
        WithKeyNone(s, key, v);
      }
    } else {
      var t := InsertDesc(s[1..], x, key);
      InsertDescWithKey(s[1..], x, key, v);
      assert r == [s[0]] + t;
      assert r[1..] == t;
      assert WithKey(r, key, v) == (if key(s[0]) == v then [s[0]] else []) + WithKey(t, key, v);
    }
  }

  /** The sort returns a non-increasing permutation of its input. */
  lemma {:induction false} SortDescProps<T>(s: seq<T>, key: T -> real)
    ensures SortedDesc(SortDesc(s, key), key)
    ensures multiset(SortDesc(s, key)) == multiset(s)
    ensures |SortDesc(s, key)| == |s|
  {
    if s != [] {
      var init := s[..|s| - 1];
      SortDescProps(init, key);
      InsertDescSorted(SortDesc(init, key), s[|s| - 1], key);
      InsertDescPerm(SortDesc(init, key), s[|s| - 1], key);
      assert s == init + [s[|s| - 1]];
      assert multiset(s) == multiset(init) + multiset{s[|s| - 1]};
      assert |multiset(SortDesc(s, key))| == |multiset(s)|;
    }
  }

  /** Stability: the elements sharing any one key value keep their input order. */
  lemma {:induction false} SortDescStable<T>(s: seq<T>, key: T -> real, v: real)
    ensures WithKey(SortDesc(s, key), key, v) == WithKey(s, key, v)
  {
    if s != [] {
      var init := s[..|s| - 1];
      var x := s[|s| - 1];
      SortDescStable(init, key, v);
      SortDescProps(init, key);
      InsertDescWithKey(SortDesc(init, key), x, key, v);
      assert s == init + [x];
      WithKeyConcat(init, [x], key, v);
      assert WithKey([x], key, v) == (if key(x) == v then [x] else []) + WithKey([x][1..], key, v);
    }
  }

  /** Distinct names survive the sort. */
  lemma SortDescDistinct<T>(s: seq<T>, key: T -> real, name: T -> String)
    requires forall i, j :: 0 <= i < j < |s| ==> name(s[i]) != name(s[j])
    ensures var r := SortDesc(s, key); forall i, j :: 0 <= i < j < |r| ==> name(r[i]) != name(r[j])
  {
    var r := SortDesc(s, key);
    SortDescProps(s, key);
    forall i, j | 0 <= i < j < |r| ensures name(r[i]) != name(r[j]) {
      if name(r[i]) == name(r[j]) {
        assert r[i] in multiset(s) && r[j] in multiset(s);
        var p :| 0 <= p < |s| && s[p] == r[i];
        var q :| 0 <= q < |s| && s[q] == r[j];
        assert p == q;
        assert r[i] == r[j];
        TwiceInMultiset(r, i, j);
        OnceInMultiset(s, p, name);
        assert false;
      }
    }
  }

  lemma TwiceInMultiset<T>(s: seq<T>, i: nat, j: nat)
    requires i < j < |s| && s[i] == s[j]
    ensures multiset(s)[s[i]] >= 2
  {
    assert s == s[..i] + [s[i]] + s[i + 1..j] + [s[j]] + s[j + 1..];
  }

  lemma OnceInMultiset<T>(s: seq<T>, p: nat, name: T -> String)
    requires p < |s|
    requires forall i, j :: 0 <= i < j < |s| ==> name(s[i]) != name(s[j])
    ensures multiset(s)[s[p]] == 1
  {
    var x := s[p];
    var a, b := s[..p], s[p + 1..];
    assert s == a + [x] + b;
    assert forall i :: 0 <= i < |a| ==> a[i] == s[i] && a[i] != x;
    assert forall i :: 0 <= i < |b| ==> b[i] == s[p + 1 + i] && b[i] != x;
    assert x !in a && x !in b;
    assert multiset(a)[x] == 0 && multiset(b)[x] == 0;
  }

  /** A prefix of a non-increasing sequence is non-increasing. */
  lemma TakeSorted<T>(s: seq<T>, n: nat, key: T -> real)
    requires SortedDesc(s, key)
    ensures SortedDesc(Take(s, n), key)
  {
  }
}
