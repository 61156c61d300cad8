/** Choosing which alignments of a read to print: the first nBest that satisfy the filter criteria,
    and of those the ones with the best score, which is that of the first. */
module HitSelection {

  datatype Alignment = Alignment(id: int, score: int)

  predicate Sorted(ret: seq<Alignment>) {
    forall i, j :: 0 <= i < j < |ret| ==> ret[i].score <= ret[j].score
  }

  // ---------- The filter loop ----------

  /** The alignments that satisfy the criteria, in order. */
  function Satisfying(hits: seq<Alignment>, satisfy: Alignment -> bool): (s: seq<Alignment>)
    ensures |s| <= |hits|
  {
    if hits == [] then []
    else
      var init, a := Satisfying(hits[..|hits| - 1], satisfy), hits[|hits| - 1];
      if satisfy(a) then init + [a] else init
  }

  /** The first nBest of a list; all of it for a limit below one. */
  function Limited(hits: seq<Alignment>, nBest: int): seq<Alignment> {
    if 1 <= nBest <= |hits| then hits[..nBest] else hits
  }

  lemma SatisfyingSnoc(hits: seq<Alignment>, i: nat, satisfy: Alignment -> bool)
    requires i < |hits|
    ensures Satisfying(hits[..i + 1], satisfy) ==
            if satisfy(hits[i]) then Satisfying(hits[..i], satisfy) + [hits[i]] else Satisfying(hits[..i], satisfy)
  {
    assert hits[..i + 1][..i] == hits[..i];
  }

  lemma {:induction false} SatisfyingPrefix(hits: seq<Alignment>, i: nat, satisfy: Alignment -> bool)
    requires i <= |hits|
    ensures Satisfying(hits[..i], satisfy) <= Satisfying(hits, satisfy)
    decreases |hits| - i
  {
    if i == |hits| {
      assert hits[..i] == hits;
    } else {
      SatisfyingPrefix(hits, i + 1, satisfy);
      SatisfyingSnoc(hits, i, satisfy);
    }
  }

  lemma {:induction false} SatisfyingIff(hits: seq<Alignment>, satisfy: Alignment -> bool, a: Alignment)
    ensures a in Satisfying(hits, satisfy) <==> a in hits && satisfy(a)
  {
    if hits != [] {
      SatisfyingIff(hits[..|hits| - 1], satisfy, a);
      assert hits == hits[..|hits| - 1] + [hits[|hits| - 1]];
    }
  }

  /** The satisfying alignments are those at certain places of the list, in order: the places whose
      alignment satisfies, each once. */
  lemma {:induction false} SatisfyingPlaces(hits: seq<Alignment>, satisfy: Alignment -> bool) returns (at: seq<nat>)
    ensures forall k, l :: 0 <= k < l < |at| ==> at[k] < at[l]
    ensures forall i: nat :: i in at <==> i < |hits| && satisfy(hits[i])
    ensures |Satisfying(hits, satisfy)| == |at|
    ensures forall k :: 0 <= k < |at| ==> at[k] < |hits| && Satisfying(hits, satisfy)[k] == hits[at[k]]
  {
    if hits == [] {
      at := [];
    } else {
      var n := |hits| - 1;
      at := SatisfyingPlaces(hits[..n], satisfy);
      assert forall k :: 0 <= k < |at| ==> at[k] in at;
      if satisfy(hits[n]) {
        at := at + [n];
      }
    }
  }

  lemma {:induction false} SatisfyingSorted(hits: seq<Alignment>, satisfy: Alignment -> bool)
    requires Sorted(hits)
    ensures Sorted(Satisfying(hits, satisfy))
  {
    if hits != [] {
      var init := hits[..|hits| - 1];
      SatisfyingSorted(init, satisfy);
      forall a | a in Satisfying(init, satisfy)
        ensures a.score <= hits[|hits| - 1].score
      {
        SatisfyingIff(init, satisfy, a);
      }
    }
  }

  /** The loop of SelectAlignmentsToPrint. The limit is compared with the size after each addition, so
      a limit below one never stops it. */
  method Select(hits: seq<Alignment>, satisfy: Alignment -> bool, nBest: int) returns (filtered: seq<Alignment>)
    ensures filtered == Limited(Satisfying(hits, satisfy), nBest)
    ensures filtered <= Satisfying(hits, satisfy)
    ensures nBest < 1 ==> filtered == Satisfying(hits, satisfy)
    ensures nBest >= 1 ==>
              |filtered| == if nBest <= |Satisfying(hits, satisfy)| then nBest else |Satisfying(hits, satisfy)|
  {
    filtered := [];
    var i := 0;
    while i < |hits|
      invariant 0 <= i <= |hits|
      invariant filtered == Satisfying(hits[..i], satisfy)
      invariant nBest >= 1 ==> |filtered| < nBest
    {
      SatisfyingSnoc(hits, i, satisfy);
      if satisfy(hits[i]) {
        filtered := filtered + [hits[i]];
        if |filtered| == nBest {
          SatisfyingPrefix(hits, i + 1, satisfy);
          return;
        }
      }
      i := i + 1;
    }
    assert hits[..i] == hits;
  }

  // ---------- The best-score scan ----------

  /** The alignments with the same score as the first, in order, wherever they stand. */
  function Best(ret: seq<Alignment>): seq<Alignment>
    requires ret != []
  {
    Satisfying(ret, HasScore(ret[0].score))
  }

  function HasScore(best: int): Alignment -> bool {
    (a: Alignment) => a.score == best
  }

  /** How far the scores stay equal to the first. */
  function BestPrefix(ret: seq<Alignment>, best: int): (n: nat)
    ensures n <= |ret|
    ensures forall i :: 0 <= i < n ==> ret[i].score == best
    ensures n < |ret| ==> ret[n].score != best
  {
    if ret == [] || ret[0].score != best then 0
    else
      var n := BestPrefix(ret[1..], best);
      assert forall i :: 0 <= i < n ==> ret[i + 1] == ret[1..][i];
      n + 1
  }

  /** The scan either reads the element behind the last one, or keeps a prefix. */
  datatype Scan = PastTheEnd | Kept(ret: seq<Alignment>)

  /** The scan of HitPolicy::Apply, which has no test for the end of the list: it stays within it
      exactly when some score differs from the first. */
  method KeepBest(ret: seq<Alignment>) returns (r: Scan)
    requires ret != []
    ensures r.PastTheEnd? <==> forall i :: 0 <= i < |ret| ==> ret[i].score == ret[0].score
    ensures r.Kept? ==> r.ret == ret[..BestPrefix(ret, ret[0].score)]
  {
    var best := ret[0].score;
    var i := 0;
    while true
      invariant 0 <= i <= |ret|
      invariant forall k :: 0 <= k < i ==> ret[k].score == best
      decreases |ret| - i
    {
      if i == |ret| {
        return PastTheEnd;
      }
      if ret[i].score != best {
        break;
      }
      i := i + 1;
    }
    r := Kept(ret[..i]);
  }

  /** Nothing behind the first different score has the best one. */
  predicate Contiguous(ret: seq<Alignment>)
    requires ret != []
  {
    forall i, j :: 0 <= i < j < |ret| && ret[i].score != ret[0].score ==> ret[j].score != ret[0].score
  }

  lemma {:induction false} NoneSatisfy(hits: seq<Alignment>, satisfy: Alignment -> bool)
    requires forall i :: 0 <= i < |hits| ==> !satisfy(hits[i])
    ensures Satisfying(hits, satisfy) == []
  {
    if hits != [] {
      NoneSatisfy(hits[..|hits| - 1], satisfy);
    }
  }

  lemma {:induction false} AllSatisfy(hits: seq<Alignment>, satisfy: Alignment -> bool)
    requires forall i :: 0 <= i < |hits| ==> satisfy(hits[i])
    ensures Satisfying(hits, satisfy) == hits
  {
    if hits != [] {
      AllSatisfy(hits[..|hits| - 1], satisfy);
      assert hits == hits[..|hits| - 1] + [hits[|hits| - 1]];
    }
  }

  lemma {:induction false} SatisfyingConcat(hits: seq<Alignment>, bs: seq<Alignment>, satisfy: Alignment -> bool)
    ensures Satisfying(hits + bs, satisfy) == Satisfying(hits, satisfy) + Satisfying(bs, satisfy)
  {
    if bs == [] {
      assert hits + bs == hits;
    } else {
      var init, b := bs[..|bs| - 1], bs[|bs| - 1];
      SatisfyingConcat(hits, init, satisfy);
      assert (hits + bs)[..|hits + bs| - 1] == hits + init;
    }
  }

  /** The prefix the scan keeps is what the stable filter for the best score keeps, exactly when the
      best scores stand together at the front. */
  lemma PrefixIsBestIff(ret: seq<Alignment>)
    requires ret != []
    ensures ret[..BestPrefix(ret, ret[0].score)] == Best(ret) <==> Contiguous(ret)
  {
    var n, isBest := BestPrefix(ret, ret[0].score), HasScore(ret[0].score);
    var front, rest := ret[..n], ret[n..];
    assert ret == front + rest;
    SatisfyingConcat(front, rest, isBest);
    AllSatisfy(front, isBest);
    RestIsEmptyIff(ret);
    assert front == front + Satisfying(rest, isBest) <==> Satisfying(rest, isBest) == [];
  }

  lemma RestIsEmptyIff(ret: seq<Alignment>)
    requires ret != []
    ensures Satisfying(ret[BestPrefix(ret, ret[0].score)..], HasScore(ret[0].score)) == [] <==> Contiguous(ret)
  {
    if Contiguous(ret) {
      RestIsEmpty(ret);
    } else {
      var i, j :| 0 <= i < j < |ret| && ret[i].score != ret[0].score && ret[j].score == ret[0].score;
      BestBehind(ret, i, j);
    }
  }

  lemma RestIsEmpty(ret: seq<Alignment>)
    requires ret != [] && Contiguous(ret)
    ensures Satisfying(ret[BestPrefix(ret, ret[0].score)..], HasScore(ret[0].score)) == []
  {
    var n := BestPrefix(ret, ret[0].score);
    forall i | 0 <= i < |ret| - n
      ensures ret[n..][i].score != ret[0].score
    {
      assert ret[n..][i] == ret[n + i];
    }
    NoneSatisfy(ret[n..], HasScore(ret[0].score));
  }

  lemma BestBehind(ret: seq<Alignment>, i: nat, j: nat)
    requires i < j < |ret| && ret[i].score != ret[0].score && ret[j].score == ret[0].score
    ensures Satisfying(ret[BestPrefix(ret, ret[0].score)..], HasScore(ret[0].score)) != []
  {
    var n, isBest := BestPrefix(ret, ret[0].score), HasScore(ret[0].score);
    assert n <= i;
    Includes(ret[n..], isBest, j - n);
  }

  lemma Includes(hits: seq<Alignment>, satisfy: Alignment -> bool, k: nat)
    requires k < |hits| && satisfy(hits[k])
    ensures Satisfying(hits, satisfy) != []
  {
    SatisfyingIff(hits, satisfy, hits[k]);
    assert hits[k] in Satisfying(hits, satisfy);
  }

  lemma SortedIsContiguous(ret: seq<Alignment>)
    requires ret != [] && Sorted(ret)
    ensures Contiguous(ret)
  {
  }

  lemma BestPrefixOfPrefix(ret: seq<Alignment>, best: int, n: nat)
    requires n <= |ret|
    ensures BestPrefix(ret[..n], best) == if BestPrefix(ret, best) <= n then BestPrefix(ret, best) else n
  {
  }

  /** On a sorted list the whole selection prints the best-scoring satisfying alignments, at most nBest
      of them, in order; the scan leaves the list exactly when every alignment selected has the best
      score, a single one included. */
  method SelectBest(hits: seq<Alignment>, satisfy: Alignment -> bool, nBest: int) returns (r: Scan)
    requires Sorted(hits) && Satisfying(hits, satisfy) != []
    ensures r.Kept? ==> r.ret == Limited(Best(Satisfying(hits, satisfy)), nBest)
    ensures r.PastTheEnd? <==>
              Best(Limited(Satisfying(hits, satisfy), nBest)) == Limited(Satisfying(hits, satisfy), nBest)
    ensures r.Kept? ==> KeptAre(r.ret, Satisfying(hits, satisfy), nBest)
    ensures r.PastTheEnd? <==> OnlyBestSelected(Satisfying(hits, satisfy), nBest)
  {
    var filtered := Select(hits, satisfy, nBest);
    SatisfyingSorted(hits, satisfy);
    BestOfLimited(Satisfying(hits, satisfy), nBest);
    AllBestIff(filtered);
    LimitedBest(Satisfying(hits, satisfy), nBest);
    r := KeepBest(filtered);
  }

  /** The alignments kept are the first of all, as many as have the score of the first, up to the limit if
      there is one. */
  predicate KeptAre(kept: seq<Alignment>, all: seq<Alignment>, nBest: int)
    requires all != []
  {
    && kept <= all && (nBest >= 1 ==> |kept| <= nBest)
    && (forall i :: 0 <= i < |kept| ==> kept[i].score == all[0].score)
    && (nBest < 1 || |kept| < nBest ==> forall i :: |kept| <= i < |all| ==> all[i].score != all[0].score)
  }

  /** Whether every alignment that the limit lets through has the score of the first. */
  predicate OnlyBestSelected(all: seq<Alignment>, nBest: int)
    requires all != []
  {
    forall i :: 0 <= i < |all| && (nBest < 1 || i < nBest) ==> all[i].score == all[0].score
  }

  lemma LimitedBest(all: seq<Alignment>, nBest: int)
    requires all != [] && Sorted(all)
    ensures KeptAre(Limited(Best(all), nBest), all, nBest)
    ensures OnlyBestSelected(all, nBest) <==> Best(Limited(all, nBest)) == Limited(all, nBest)
  {
    var n := BestPrefix(all, all[0].score);
    SortedIsContiguous(all);
    PrefixIsBestIff(all);
    assert Best(all) == all[..n];
    BestOfLimited(all, nBest);
    AllBestIff(Limited(all, nBest));
    SortedBeyond(all, n);
  }

  lemma SortedBeyond(all: seq<Alignment>, n: nat)
    requires all != [] && Sorted(all) && n <= |all| && (n < |all| ==> all[n].score != all[0].score)
    ensures forall i :: n <= i < |all| ==> all[i].score != all[0].score
  {
  }

  /** In a sorted list the best of the first nBest are the first nBest of the best. */
  lemma BestOfLimited(all: seq<Alignment>, nBest: int)
    requires all != [] && Sorted(all)
    ensures var some := Limited(all, nBest);
            some != [] && Best(some) == some[..BestPrefix(some, some[0].score)] == Limited(Best(all), nBest)
  {
    var some := Limited(all, nBest);
    SortedIsContiguous(all);
    SortedIsContiguous(some);
    PrefixIsBestIff(all);
    PrefixIsBestIff(some);
    assert some == all[..|some|];
    BestPrefixOfPrefix(all, all[0].score, |some|);
  }

  lemma AllBestIff(ret: seq<Alignment>)
    requires ret != []
    ensures Best(ret) == ret <==> forall i :: 0 <= i < |ret| ==> ret[i].score == ret[0].score
  {
    if Best(ret) == ret {
      forall i | 0 <= i < |ret|
        ensures ret[i].score == ret[0].score
      {
        SatisfyingIff(ret, HasScore(ret[0].score), ret[i]);
      }
    } else if forall i :: 0 <= i < |ret| ==> ret[i].score == ret[0].score {
      AllSatisfy(ret, HasScore(ret[0].score));
    }
  }
}
