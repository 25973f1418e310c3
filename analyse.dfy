/** The running-time analysis of the brute-force strategy, as a count of
    equals calls. isDuplicate compares the current word with the kept words
    from the front and stops at the first equal one; dedup calls it once per
    input word, with the words kept so far. */
module Analyse {
  import opened DedupSpec

  /** equals calls made by one isDuplicate scan of kept for x. */
  function ScanCost(kept: seq<string>, x: string): (n: nat)
    ensures n <= |kept|
    ensures x !in kept ==> n == |kept|
    ensures x in kept ==> 0 < n && kept[n - 1] == x
    ensures forall j :: 0 <= j < n - 1 ==> kept[j] != x
  {
    if kept == [] then 0
    else if kept[0] == x then 1
    else
      assert kept == [kept[0]] + kept[1..];
      1 + ScanCost(kept[1..], x)
  }

  /** equals calls made by dedup over the whole input s: every word after
      the first compares with at least one kept word. */
  function Cost(s: seq<string>): (n: nat)
    ensures s != [] ==> |s| - 1 <= n
  {
    if s == [] then 0
    else
      var init := s[..|s| - 1];
      assert init != [] ==> init[0] in Elems(FirstOccurrences(init));
      Cost(init) + ScanCost(FirstOccurrences(init), s[|s| - 1])
  }

  /** One more word read costs one scan of the words kept before it. */
  lemma CostStep(s: seq<string>, i: nat)
    requires i < |s|
    ensures Cost(s[..i + 1]) == Cost(s[..i]) + ScanCost(FirstOccurrences(s[..i]), s[i])
  {
    assert s[..i + 1][..i] == s[..i];
  }

  /** 0 + 1 + ... + (n - 1). */
  function Pairs(n: nat): nat {
    if n == 0 then 0 else Pairs(n - 1) + (n - 1)
  }

  lemma {:induction false} PairsClosedForm(n: nat)
    ensures 2 * Pairs(n) == n * (n - 1)
  {
    if n > 0 {
      PairsClosedForm(n - 1);
      assert n * (n - 1) == (n - 1) * (n - 2) + 2 * (n - 1);
    }
  }

  /** At most 0 + 1 + ... + (n - 1) comparisons: call i scans at most the i
      words kept before it. */
  lemma {:induction false} CostAtMostPairs(s: seq<string>)
    ensures Cost(s) <= Pairs(|s|)
  {
    if s != [] {
      var init := s[..|s| - 1];
      CostAtMostPairs(init);
      assert ScanCost(FirstOccurrences(init), s[|s| - 1]) <= |init|;
    }
  }

  /** The same bound in closed form: at most n(n - 1)/2 comparisons. */
  lemma CostQuadraticBound(s: seq<string>)
    ensures 2 * Cost(s) <= |s| * (|s| - 1)
  {
    CostAtMostPairs(s);
    PairsClosedForm(|s|);
  }

  /** The n^2 term of T(N): the comparisons never exceed n * n. */
  lemma CostAtMostSquare(s: seq<string>)
    ensures Cost(s) <= |s| * |s|
  {
    CostQuadraticBound(s);
    assert |s| * (|s| - 1) == |s| * |s| - |s|;
  }

  /** With no duplicates every word is kept, and call i compares against all
      i kept words. */
  lemma {:induction false} CostOfDistinct(s: seq<string>)
    requires NoRepeats(s)
    ensures |FirstOccurrences(s)| == |s|
    ensures Cost(s) == Pairs(|s|)
  {
    FirstOccurrencesOfDistinct(s);
    if s != [] {
      var init := s[..|s| - 1];
      assert NoRepeats(init);
      CostOfDistinct(init);
      FirstOccurrencesOfDistinct(init);
      assert s[|s| - 1] !in init;
    }
  }

  /** The worst case: with no duplicates count reaches n, and the comparisons
      are n(n - 1)/2 in all. */
  lemma CostWithoutDuplicates(s: seq<string>)
    requires NoRepeats(s)
    ensures |FirstOccurrences(s)| == |s|
    ensures 2 * Cost(s) == |s| * (|s| - 1)
  {
    CostOfDistinct(s);
    PairsClosedForm(|s|);
  }

  /** The best case: when all n words are equal, one word is kept, and every
      call after the first stops at its first comparison. */
  lemma {:induction false} CostAllEqual(s: seq<string>)
    requires s != []
    requires forall i :: 0 <= i < |s| ==> s[i] == s[0]
    ensures FirstOccurrences(s) == [s[0]]
    ensures Cost(s) == |s| - 1
  {
    if |s| > 1 {
      var init := s[..|s| - 1];
      CostAllEqual(init);
    }
  }

  /** T(N) = n^2 C + n A + A + B bounds the running time when each comparison
      costs c, each loop step and the set-up cost a, and the final copy b. */
  lemma RunningTimeBound(s: seq<string>, a: nat, b: nat, c: nat)
    ensures a + |s| * a + c * Cost(s) + b <= |s| * |s| * c + |s| * a + a + b
  {
    CostAtMostSquare(s);
    ScaleBound(c, Cost(s), |s| * |s|);
    assert |s| * |s| * c == c * (|s| * |s|);
  }

  lemma {:induction false} ScaleBound(c: nat, x: nat, y: nat)
    requires x <= y
    ensures c * x <= c * y
  {
    if c > 0 {
      ScaleBound(c - 1, x, y);
      assert c * x == (c - 1) * x + x && c * y == (c - 1) * y + y;
    }
  }
}
