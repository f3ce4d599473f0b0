/**
  What the list handler (routes/ideaRoutes.js:11-29) returns:
  `Idea.find().sort({ createdAt: -1 })`, cut by `query.limit(limit)` only
  when `parseInt(req.query._limit)` is a number.
 */
module Listing {
  import opened Wrappers
  import opened Ideas

  /** Newest first: `createdAt` never increases along the sequence. */
  predicate NewestFirst(xs: seq<Idea>) {
    forall i, j :: 0 <= i < j < |xs| ==> xs[i].createdAt >= xs[j].createdAt
  }

  predicate Distinct(xs: seq<Idea>) {
    forall i, j :: 0 <= i < j < |xs| ==> xs[i] != xs[j]
  }

  /** `xs` is the whole of `pool`, each idea once, newest first. The store
      gives no order among ideas with the same `createdAt`, so neither does this. */
  predicate IsSortedListing(xs: seq<Idea>, pool: set<Idea>) {
    && NewestFirst(xs)
    && Distinct(xs)
    && (forall x :: x in xs ==> x in pool)
    && (forall x :: x in pool ==> x in xs)
  }

  /** No two ideas of `pool` were created at the same instant. */
  predicate DistinctTimes(pool: set<Idea>) {
    forall a, b :: a in pool && b in pool && a != b ==> a.createdAt != b.createdAt
  }

  /** The cursor's `limit(n)` as MongoDB defines it: `limit(0)` sets no limit,
      and a negative `n` limits to `-n` documents. `None` is the NaN that
      `parseInt` gives for an absent or non-numeric `_limit`, for which the
      handler does not call `limit` at all. */
  function Cap<T>(xs: seq<T>, limit: Option<int>): (r: seq<T>)
    ensures r <= xs
    ensures limit.None? || limit.value == 0 ==> r == xs
    ensures limit.Some? && limit.value != 0 ==>
      |r| == if |xs| < Abs(limit.value) then |xs| else Abs(limit.value)
  {
    if limit.None? || limit.value == 0 then xs
    else if |xs| < Abs(limit.value) then xs
    else xs[..Abs(limit.value)]
  }

  function Abs(n: int): nat {
    if n < 0 then -n else n
  }

  /** What a capped listing keeps: newest first, each idea once, only ideas of
      the pool, and nothing that is left out is newer than anything kept. */
  lemma CapKeepsNewest(all: seq<Idea>, pool: set<Idea>, limit: Option<int>)
    requires IsSortedListing(all, pool)
    ensures NewestFirst(Cap(all, limit)) && Distinct(Cap(all, limit))
    ensures forall x :: x in Cap(all, limit) ==> x in pool
    ensures forall v, i :: v in pool && v !in Cap(all, limit) && 0 <= i < |Cap(all, limit)| ==>
      Cap(all, limit)[i].createdAt >= v.createdAt
  {
    var r := Cap(all, limit);
    forall v, i | v in pool && v !in r && 0 <= i < |r|
      ensures r[i].createdAt >= v.createdAt
    {
      var k :| 0 <= k < |all| && all[k] == v;
      assert r[i] == all[i];
      assert k >= |r|;
    }
  }

  lemma HeadIsNewest(xs: seq<Idea>, pool: set<Idea>)
    requires IsSortedListing(xs, pool) && |xs| > 0
    ensures forall x :: x in pool ==> x.createdAt <= xs[0].createdAt
  {
    forall x | x in pool ensures x.createdAt <= xs[0].createdAt {
      var k :| 0 <= k < |xs| && xs[k] == x;
    }
  }

  lemma TailIsListing(xs: seq<Idea>, pool: set<Idea>)
    requires IsSortedListing(xs, pool) && |xs| > 0
    ensures IsSortedListing(xs[1..], pool - {xs[0]})
  {
    var tail, rest := xs[1..], pool - {xs[0]};
    forall x | x in tail ensures x in rest {
      var i :| 1 <= i < |xs| && xs[i] == x;
    }
    forall x | x in rest ensures x in tail {
      var i :| 0 <= i < |xs| && xs[i] == x;
      assert tail[i - 1] == x;
    }
  }

  lemma HeadsAgree(xs: seq<Idea>, ys: seq<Idea>, pool: set<Idea>)
    requires IsSortedListing(xs, pool) && IsSortedListing(ys, pool)
    requires DistinctTimes(pool)
    requires |xs| > 0
    ensures |ys| > 0 && xs[0] == ys[0]
  {
    assert xs[0] in pool;
    HeadIsNewest(xs, pool);
    HeadIsNewest(ys, pool);
    assert ys[0] in pool;
  }

  /** When no two ideas share a creation time the listing is unique, so
      listing twice with no write in between gives the same sequence. */
  lemma {:induction false} SortedListingUnique(xs: seq<Idea>, ys: seq<Idea>, pool: set<Idea>)
    requires IsSortedListing(xs, pool) && IsSortedListing(ys, pool)
    requires DistinctTimes(pool)
    ensures xs == ys
  {
    if |xs| > 0 {
      HeadsAgree(xs, ys, pool);
      TailIsListing(xs, pool);
      TailIsListing(ys, pool);
      SortedListingUnique(xs[1..], ys[1..], pool - {xs[0]});
      assert xs == [xs[0]] + xs[1..];
      assert ys == [ys[0]] + ys[1..];
    } else if |ys| > 0 {
      HeadsAgree(ys, xs, pool);
    }
  }

  /** One pass of the selection: an idea of `pool` no other idea of `pool`
      is newer than. */
  method PickNewest(pool: set<Idea>) returns (best: Idea)
    requires pool != {}
    ensures best in pool
    ensures forall y :: y in pool ==> y.createdAt <= best.createdAt
  {
    best :| best in pool;
    var rest := pool - {best};
    while rest != {}
      invariant rest <= pool && best in pool
      invariant forall y :: y in pool && y !in rest ==> y.createdAt <= best.createdAt
      decreases |rest|
    {
      var y :| y in rest;
      if y.createdAt > best.createdAt {
        best := y;
      }
      rest := rest - {y};
    }
  }

  /** `find().sort({ createdAt: -1 })`: all of `pool`, newest first. */
  method SortNewestFirst(pool: set<Idea>) returns (all: seq<Idea>)
    ensures IsSortedListing(all, pool)
  {
    all := [];
    var remaining := pool;
    while remaining != {}
      invariant remaining <= pool
      invariant forall x :: x in pool ==> x in all || x in remaining
      invariant forall x :: x in all ==> x in pool && x !in remaining
      invariant NewestFirst(all) && Distinct(all)
      invariant forall i, y :: 0 <= i < |all| && y in remaining ==> all[i].createdAt >= y.createdAt
      decreases |remaining|
    {
      var next := PickNewest(remaining);
      all := all + [next];
      remaining := remaining - {next};
    }
  }
}
