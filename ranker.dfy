/** Scoring and selection of app.py:139-155 (repeated at app.py:198-214):
    the cosine guard, one score per index entry, Python's stable descending
    sort of the entry positions, the first k of them, and the links. */
module Ranker {
  import opened Wrappers
  import opened Embedder

  /** `np.linalg.norm(v) == 0`: every entry is zero (the empty vector too). */
  predicate ZeroNorm(v: Vector) {
    forall k :: 0 <= k < |v| ==> v[k] == 0.0
  }

  /** The nested `cosine` (app.py:139-143). `ratio` stands for the floating
      point value of dot(a, b) / (|a| |b|); None is the ValueError `np.dot`
      raises on vectors of different lengths. */
  function Cosine(a: Vector, b: Vector, ratio: (Vector, Vector) -> real): (c: Option<real>)
    ensures ZeroNorm(a) || ZeroNorm(b) ==> c == Some(0.0)
    ensures c.None? <==> !ZeroNorm(a) && !ZeroNorm(b) && |a| != |b|
    ensures c.Some? && !ZeroNorm(a) && !ZeroNorm(b) ==> c.value == ratio(a, b)
  {
    if ZeroNorm(a) || ZeroNorm(b) then Some(0.0)
    else if |a| != |b| then None
    else Some(ratio(a, b))
  }

  /** The score of one index entry (app.py:147-151): an empty entry is
      skipped with 0.0. */
  function Score(q: Vector, entry: Vector, ratio: (Vector, Vector) -> real): (s: Option<real>)
    ensures entry == [] ==> s == Some(0.0)
    ensures s.None? ==> entry != [] && |entry| != |q|
  {
    if entry == [] then Some(0.0) else Cosine(q, entry, ratio)
  }

  /** The `sims` list, or None when scoring some entry raises. */
  function Similarities(q: Vector, index: seq<Vector>, ratio: (Vector, Vector) -> real): (sims: Option<seq<real>>) {
    if forall i :: 0 <= i < |index| ==> Score(q, index[i], ratio).Some? then
      Some(seq(|index|, i requires 0 <= i < |index| && Score(q, index[i], ratio).Some? =>
        Score(q, index[i], ratio).value))
    else None
  }

  /** The loop of app.py:145-151 that appends one score per index entry. */
  method ComputeSimilarities(q: Vector, index: seq<Vector>, ratio: (Vector, Vector) -> real)
    returns (sims: Option<seq<real>>)
    ensures sims == Similarities(q, index, ratio)
  {
    var acc: seq<real> := [];
    for i := 0 to |index|
      invariant |acc| == i
      invariant forall k :: 0 <= k < i ==> Score(q, index[k], ratio) == Some(acc[k])
    {
      var entry := index[i];
      if entry != [] {
        var sim := Cosine(q, entry, ratio);
        if sim.None? {
          return None;
        }
        acc := acc + [sim.value];
      } else {
        acc := acc + [0.0];
      }
    }
    SimilaritiesOf(q, index, ratio, acc);
    return Some(acc);
  }

  lemma SimilaritiesOf(q: Vector, index: seq<Vector>, ratio: (Vector, Vector) -> real, sims: seq<real>)
    requires |sims| == |index|
    requires forall k :: 0 <= k < |index| ==> Score(q, index[k], ratio) == Some(sims[k])
    ensures Similarities(q, index, ratio) == Some(sims)
  {
    assert Similarities(q, index, ratio).Some?;
    assert Similarities(q, index, ratio).value == sims;
  }

  /** Scoring succeeds exactly when no entry raises; then there is one score
      per entry, and every empty or all-zero entry scores 0. A query vector of
      norm zero scores every entry 0. Scoring can only raise on a non-zero
      entry whose length differs from the query's. */
  lemma SimilaritiesShape(q: Vector, index: seq<Vector>, ratio: (Vector, Vector) -> real)
    ensures Similarities(q, index, ratio).Some? <==>
      forall i :: 0 <= i < |index| ==> !(index[i] != [] && !ZeroNorm(q) && !ZeroNorm(index[i]) && |index[i]| != |q|)
    ensures Similarities(q, index, ratio).Some? ==> |Similarities(q, index, ratio).value| == |index|
    ensures Similarities(q, index, ratio).Some? ==>
      forall i :: 0 <= i < |index| && ZeroNorm(index[i]) ==> Similarities(q, index, ratio).value[i] == 0.0
    ensures ZeroNorm(q) ==> Similarities(q, index, ratio).Some?
    ensures ZeroNorm(q) ==> forall i :: 0 <= i < |index| ==> Similarities(q, index, ratio).value[i] == 0.0
  {
  }

  /** Python's `sorted(..., key=lambda i: sims[i], reverse=True)` is stable:
      entry i comes before entry j when it scores higher, or scores the same
      and comes first in the index. */
  predicate Before(sims: seq<real>, i: nat, j: nat)
    requires i < |sims| && j < |sims|
  {
    sims[i] > sims[j] || (sims[i] == sims[j] && i < j)
  }

  predicate InRange(sims: seq<real>, s: seq<nat>) {
    forall k :: 0 <= k < |s| ==> s[k] < |sims|
  }

  /** Positions listed strictly in `Before` order (hence without repeats). */
  predicate Ranked(sims: seq<real>, s: seq<nat>) {
    InRange(sims, s) && forall a, b :: 0 <= a < b < |s| ==> Before(sims, s[a], s[b])
  }

  /** Inserts position x into a ranked list at its place. */
  function Insert(sims: seq<real>, x: nat, s: seq<nat>): (r: seq<nat>)
    requires x < |sims| && InRange(sims, s)
    ensures |r| == |s| + 1 && InRange(sims, r)
    ensures forall e :: e in r <==> e == x || e in s
    ensures Ranked(sims, s) && x !in s ==> Ranked(sims, r)
    decreases s
  {
    if s == [] then [x]
    else if Before(sims, x, s[0]) then [x] + s
    else
      var rest := Insert(sims, x, s[1..]);
      InsertBehindHead(sims, x, s, rest);
      [s[0]] + rest
  }

  lemma InsertBehindHead(sims: seq<real>, x: nat, s: seq<nat>, rest: seq<nat>)
    requires x < |sims| && InRange(sims, s) && InRange(sims, rest) && s != []
    requires !Before(sims, x, s[0])
    requires forall e :: e in rest <==> e == x || e in s[1..]
    requires Ranked(sims, s[1..]) && x !in s[1..] ==> Ranked(sims, rest)
    ensures Ranked(sims, s) && x !in s ==> Ranked(sims, [s[0]] + rest)
  {
    if Ranked(sims, s) && x !in s {
      var r := [s[0]] + rest;
      assert Ranked(sims, s[1..]);
      forall b | 0 < b < |r|
        ensures Before(sims, r[0], r[b])
      {
        var e := r[b];
        assert e in rest;
        if e != x {
          var m :| 0 <= m < |s[1..]| && s[1..][m] == e;
          assert s[m + 1] == e;
        }
      }
    }
  }

  /** Positions 0 .. n-1 in ranked order. */
  function RankPrefix(sims: seq<real>, n: nat): (r: seq<nat>)
    requires n <= |sims|
    ensures |r| == n && Ranked(sims, r)
    ensures forall i: nat :: i in r <==> i < n
  {
    if n == 0 then [] else Insert(sims, n - 1, RankPrefix(sims, n - 1))
  }

  /** `sorted(range(len(sims)), key=lambda i: sims[i], reverse=True)`: every
      position once, in stable descending order of score. */
  function Ranking(sims: seq<real>): (r: seq<nat>)
    ensures |r| == |sims| && Ranked(sims, r)
    ensures forall i: nat :: i in r <==> i < |sims|
  {
    RankPrefix(sims, |sims|)
  }

  /** `sorted(...)[:k]`: the first min(k, n) positions of the ranking. */
  function Top(sims: seq<real>, k: nat): (t: seq<nat>)
    ensures |t| == if k < |sims| then k else |sims|
    ensures Ranked(sims, t)
  {
    Ranking(sims)[..if k < |sims| then k else |sims|]
  }

  /** Two ranked lists of the same positions are equal: the ranking is the
      only stable descending order of the positions, so it is what Python's
      `sorted` returns. */
  lemma {:induction false} RankedUnique(sims: seq<real>, s: seq<nat>, t: seq<nat>)
    requires Ranked(sims, s) && Ranked(sims, t)
    requires forall e :: e in s <==> e in t
    ensures s == t
    decreases |s|
  {
    assert t == [] || t[0] in t;
    if s != [] {
      assert s[0] in t;
      var j :| 0 <= j < |t| && t[j] == s[0];
      assert t[0] in s;
      var i :| 0 <= i < |s| && s[i] == t[0];
      BeforeAsymmetric(sims, s[0], t[0]);
      assert j == 0;
      assert s[0] == t[0];
      assert Ranked(sims, s[1..]) && Ranked(sims, t[1..]);
      forall e
        ensures e in s[1..] <==> e in t[1..]
      {
        if e in s[1..] {
          var m :| 0 <= m < |s[1..]| && s[1..][m] == e;
          assert Before(sims, s[0], s[m + 1]);
          assert e in t;
          var n :| 0 <= n < |t| && t[n] == e;
          assert n != 0;
          assert t[1..][n - 1] == e;
        }
        if e in t[1..] {
          var m :| 0 <= m < |t[1..]| && t[1..][m] == e;
          assert Before(sims, t[0], t[m + 1]);
          assert e in s;
          var n :| 0 <= n < |s| && s[n] == e;
          assert n != 0;
          assert s[1..][n - 1] == e;
        }
      }
      RankedUnique(sims, s[1..], t[1..]);
      assert s == [s[0]] + s[1..] && t == [t[0]] + t[1..];
    }
  }

  lemma BeforeAsymmetric(sims: seq<real>, x: nat, y: nat)
    requires x < |sims| && y < |sims|
    ensures !(Before(sims, x, y) && Before(sims, y, x))
    ensures !Before(sims, x, x)
  {
  }

  /** Any stable descending ordering of all positions is the ranking. */
  lemma RankingIsTheStableSort(sims: seq<real>, order: seq<nat>)
    requires Ranked(sims, order)
    requires forall i: nat :: i in order <==> i < |sims|
    ensures order == Ranking(sims)
  {
    var r := Ranking(sims);
    forall e
      ensures e in order <==> e in r
    {
      if e in order {
        assert e < |sims|;
      }
    }
    RankedUnique(sims, order, r);
  }

  /** `sorted(...)[:k]` picks min(k, n) distinct positions in range, by
      non-increasing score with ties in index order, and every position left
      out comes after every chosen one: it scores no more, and no more with a
      larger index. */
  lemma TopSelects(sims: seq<real>, k: nat)
    ensures |Top(sims, k)| == if k < |sims| then k else |sims|
    ensures Ranked(sims, Top(sims, k))
    ensures forall a, b :: 0 <= a < b < |Top(sims, k)| ==>
      Top(sims, k)[a] != Top(sims, k)[b] && sims[Top(sims, k)[a]] >= sims[Top(sims, k)[b]]
    ensures forall a, j :: 0 <= a < |Top(sims, k)| && 0 <= j < |sims| && j !in Top(sims, k) ==>
      Before(sims, Top(sims, k)[a], j)
  {
    var r := Ranking(sims);
    var t := Top(sims, k);
    assert t == r[..|t|];
    forall a, j | 0 <= a < |t| && 0 <= j < |sims| && j !in t
      ensures Before(sims, t[a], j)
    {
      assert j in r;
      var p :| 0 <= p < |r| && r[p] == j;
      assert Before(sims, r[a], r[p]);
    }
  }

  /** One entry of the `links` list (app.py:155): `similarity` is the score
      before rounding. */
  datatype Link = Link(url: string, text: string, similarity: real)

  /** The `links` comprehension (app.py:155), or None when a chosen position
      is past the end of `urls` or `titles` (an IndexError). */
  function Links(urls: seq<string>, titles: seq<string>, sims: seq<real>, chosen: seq<nat>): (r: Option<seq<Link>>)
    requires InRange(sims, chosen)
    ensures r.None? <==> exists k :: 0 <= k < |chosen| && (chosen[k] >= |urls| || chosen[k] >= |titles|)
    ensures r.Some? ==> |r.value| == |chosen|
  {
    if forall k :: 0 <= k < |chosen| ==> chosen[k] < |urls| && chosen[k] < |titles| then
      Some(seq(|chosen|, k requires 0 <= k < |chosen| && chosen[k] < |urls| && chosen[k] < |titles| =>
        Link(urls[chosen[k]], titles[chosen[k]], sims[chosen[k]])))
    else None
  }

  /** With `urls` and `titles` as long as `sims`, building the links cannot
      fail, and link k pairs the url and the title at the same chosen
      position with that position's score. */
  lemma LinksAligned(urls: seq<string>, titles: seq<string>, sims: seq<real>, chosen: seq<nat>)
    requires InRange(sims, chosen)
    requires |urls| == |sims| && |titles| == |sims|
    ensures Links(urls, titles, sims, chosen).Some?
    ensures |Links(urls, titles, sims, chosen).value| == |chosen|
    ensures forall k :: 0 <= k < |chosen| ==>
      Links(urls, titles, sims, chosen).value[k] == Link(urls[chosen[k]], titles[chosen[k]], sims[chosen[k]])
  {
  }

  /** The tie example: scores [0.9, 0.1, 0.9] pick positions 0 and 2, in that order. */
  lemma TieKeepsIndexOrder()
    ensures Top([0.9, 0.1, 0.9], 2) == [0, 2]
  {
    var sims := [0.9, 0.1, 0.9];
    assert RankPrefix(sims, 1) == [0];
    assert Insert(sims, 1, [0]) == [0, 1];
    assert Insert(sims, 2, [1]) == [2, 1];
    assert Insert(sims, 2, [0, 1]) == [0, 2, 1];
    assert RankPrefix(sims, 2) == [0, 1];
    assert RankPrefix(sims, 3) == [0, 2, 1];
    assert Ranking(sims) == [0, 2, 1];
    assert Top(sims, 2) == [0, 2, 1][..2];
  }

  /** An empty index entry scores 0.0, so it ranks before every entry whose
      score is negative and is chosen whenever such an entry is: placeholders
      do not necessarily rank last. */
  lemma PlaceholderOutranksNegative(q: Vector, index: seq<Vector>, ratio: (Vector, Vector) -> real,
                                     sims: seq<real>, i: nat, j: nat, k: nat)
    requires Similarities(q, index, ratio) == Some(sims)
    requires j < |index| && index[j] == []
    requires i < |sims| && sims[i] < 0.0
    ensures j < |sims| && sims[j] == 0.0
    ensures Before(sims, j, i)
    ensures i in Top(sims, k) ==> j in Top(sims, k)
  {
    assert Score(q, index[j], ratio) == Some(0.0);
    TopSelects(sims, k);
    BeforeAsymmetric(sims, j, i);
  }
}
