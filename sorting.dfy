/** Ascending order of strings: what Arrays.sort promises about the array it
    sorts, the order in which a TreeSet is iterated, and the run compaction
    that SortDedup applies to a sorted array. */
module Sorting {
  import opened StringOrder
  import opened DedupSpec

  predicate Sorted(s: seq<string>) {
    forall i, j :: 0 <= i < j < |s| ==> LessEq(s[i], s[j])
  }

  predicate StrictlySorted(s: seq<string>) {
    forall i, j :: 0 <= i < j < |s| ==> Less(s[i], s[j])
  }

  /** A strictly ascending sequence has no repeats. */
  lemma StrictlySortedNoRepeats(s: seq<string>)
    requires StrictlySorted(s)
    ensures NoRepeats(s)
  {
    forall i, j | 0 <= i < j < |s| ensures s[i] != s[j] {
      LessIrreflexive(s[i]);
    }
  }

  /** Putting a lower bound in front keeps a sequence sorted. */
  lemma SortedCons(x: string, t: seq<string>)
    requires Sorted(t)
    requires forall j :: 0 <= j < |t| ==> LessEq(x, t[j])
    ensures Sorted([x] + t)
  {
    var r := [x] + t;
    forall i, j | 0 <= i < j < |r| ensures LessEq(r[i], r[j]) {
      if i == 0 {
        assert r[i] == x && r[j] == t[j - 1];
      } else {
        assert r[i] == t[i - 1] && r[j] == t[j - 1];
        assert LessEq(t[i - 1], t[j - 1]);
      }
    }
  }

  /** Every element of a sorted t, and x if t's head exceeds x, is at least
      t's head; so is then every element of a permutation of t[1..] plus x. */
  lemma HeadBelowInsertion(t: seq<string>, x: string, rest: seq<string>)
    requires Sorted(t) && t != [] && !LessEq(x, t[0])
    requires multiset(rest) == multiset(t[1..]) + multiset{x}
    ensures forall j :: 0 <= j < |rest| ==> LessEq(t[0], rest[j])
  {
    LessTotal(x, t[0]);
    forall j | 0 <= j < |rest| ensures LessEq(t[0], rest[j]) {
      var y := rest[j];
      assert y in multiset(rest);
      if y != x {
        assert y in multiset(t[1..]);
        var k :| 0 <= k < |t[1..]| && t[1..][k] == y;
        assert t[k + 1] == y;
        assert LessEq(t[0], t[k + 1]);
      }
    }
  }

  /** x placed into t before the first element it does not exceed. */
  function InsertSorted(t: seq<string>, x: string): (r: seq<string>)
    ensures multiset(r) == multiset(t) + multiset{x}
    ensures Sorted(t) ==> Sorted(r)
  {
    if t == [] then [x]
    else if LessEq(x, t[0]) then
      assert Sorted(t) ==> Sorted([x] + t) by {
        if Sorted(t) {
          forall j | 0 <= j < |t| ensures LessEq(x, t[j]) {
            LessEqTransitive(x, t[0], t[j]);
          }
          SortedCons(x, t);
        }
      }
      [x] + t
    else
      var rest := InsertSorted(t[1..], x);
      assert t == [t[0]] + t[1..];
      assert Sorted(t) ==> Sorted([t[0]] + rest) by {
        if Sorted(t) {
          HeadBelowInsertion(t, x, rest);
          SortedCons(t[0], rest);
        }
      }
      [t[0]] + rest
  }

  /** The input in ascending order: the array Arrays.sort leaves behind. */
  function SortSeq(s: seq<string>): (r: seq<string>)
    ensures Sorted(r)
    ensures multiset(r) == multiset(s)
  {
    if s == [] then []
    else
      assert s == s[..|s| - 1] + [s[|s| - 1]];
      InsertSorted(SortSeq(s[..|s| - 1]), s[|s| - 1])
  }

  /** The head of a sorted sequence is at most any of its elements. */
  lemma SortedHeadIsLeast(q: seq<string>, y: string)
    requires Sorted(q) && y in multiset(q)
    ensures LessEq(q[0], y)
  {
    var k :| 0 <= k < |q| && q[k] == y;
    if k > 0 {
      assert LessEq(q[0], q[k]);
    }
  }

  /** A sorted permutation is unique, so every sorting algorithm, stable or
      not, leaves the same array as SortSeq. */
  lemma {:induction false} SortedPermutationsEqual(p: seq<string>, q: seq<string>)
    requires Sorted(p) && Sorted(q)
    requires multiset(p) == multiset(q)
    ensures p == q
    decreases |p|
  {
    assert |p| == |multiset(p)| == |multiset(q)| == |q|;
    if p != [] {
      SortedHeadIsLeast(q, p[0]);
      SortedHeadIsLeast(p, q[0]);
      LessAsymmetric(p[0], q[0]);
      SortedTail(p);
      SortedTail(q);
      SortedPermutationsEqual(p[1..], q[1..]);
      SameHeadSameTail(p, q);
    }
  }

  lemma SameHeadSameTail(p: seq<string>, q: seq<string>)
    requires p != [] && q != [] && p[0] == q[0] && p[1..] == q[1..]
    ensures p == q
  {
    assert p == [p[0]] + p[1..];
    assert q == [q[0]] + q[1..];
  }

  /** A sorted sequence stays sorted without its head, and loses exactly the
      head from its multiset. */
  lemma SortedTail(p: seq<string>)
    requires Sorted(p) && p != []
    ensures Sorted(p[1..])
    ensures multiset(p[1..]) == multiset(p) - multiset{p[0]}
  {
    var tail := p[1..];
    forall i, j | 0 <= i < j < |tail| ensures LessEq(tail[i], tail[j]) {
      assert tail[i] == p[i + 1] && tail[j] == p[j + 1];
    }
    assert p == [p[0]] + tail;
  }

  /** Putting a strict lower bound in front keeps a sequence strictly
      ascending. */
  lemma StrictlySortedCons(x: string, t: seq<string>)
    requires StrictlySorted(t)
    requires forall j :: 0 <= j < |t| ==> Less(x, t[j])
    ensures StrictlySorted([x] + t)
  {
    var r := [x] + t;
    forall i, j | 0 <= i < j < |r| ensures Less(r[i], r[j]) {
      assert r[j] == t[j - 1];
      if i > 0 {
        assert r[i] == t[i - 1];
      }
    }
  }

  /** Appending a strict upper bound keeps a sequence strictly ascending. */
  lemma StrictlySortedSnoc(c: seq<string>, x: string)
    requires StrictlySorted(c)
    requires forall k :: 0 <= k < |c| ==> Less(c[k], x)
    ensures StrictlySorted(c + [x])
  {
    var r := c + [x];
    forall i, j | 0 <= i < j < |r| ensures Less(r[i], r[j]) {
      assert r[i] == c[i];
    }
  }

  /** Every element of a strictly ascending t except its head, and x if it
      is above the head, is above the head; so is then every element of a
      sequence holding those values. */
  lemma HeadBelowTreeInsertion(t: seq<string>, x: string, rest: seq<string>)
    requires StrictlySorted(t) && t != [] && x != t[0] && !Less(x, t[0])
    requires Elems(rest) == Elems(t[1..]) + {x}
    ensures forall j :: 0 <= j < |rest| ==> Less(t[0], rest[j])
  {
    LessTotal(x, t[0]);
    forall j | 0 <= j < |rest| ensures Less(t[0], rest[j]) {
      var y := rest[j];
      assert y in Elems(rest);
      if y != x {
        var k :| 0 <= k < |t[1..]| && t[1..][k] == y;
        assert t[k + 1] == y;
        assert Less(t[0], t[k + 1]);
      }
    }
  }

  /** TreeSet.add: x goes to its place in the ascending sequence, unless an
      equal value is already there. */
  function TreeInsert(t: seq<string>, x: string): (r: seq<string>)
    ensures Elems(r) == Elems(t) + {x}
    ensures StrictlySorted(t) ==> StrictlySorted(r)
  {
    if t == [] then [x]
    else if x == t[0] then
      ElemsCons(t[0], t[1..]);
      assert t == [t[0]] + t[1..];
      t
    else if Less(x, t[0]) then
      ElemsCons(x, t);
      assert StrictlySorted(t) ==> StrictlySorted([x] + t) by {
        if StrictlySorted(t) {
          forall j | 0 <= j < |t| ensures Less(x, t[j]) {
            if j > 0 { LessTransitive(x, t[0], t[j]); }
          }
          StrictlySortedCons(x, t);
        }
      }
      [x] + t
    else
      var rest := TreeInsert(t[1..], x);
      assert t == [t[0]] + t[1..];
      ElemsCons(t[0], t[1..]);
      ElemsCons(t[0], rest);
      assert StrictlySorted(t) ==> StrictlySorted([t[0]] + rest) by {
        if StrictlySorted(t) {
          assert StrictlySorted(t[1..]);
          HeadBelowTreeInsertion(t, x, rest);
          StrictlySortedCons(t[0], rest);
        }
      }
      [t[0]] + rest
  }

  /** A sorted sequence stays sorted without its last element. */
  lemma SortedInit(t: seq<string>)
    requires Sorted(t) && t != []
    ensures Sorted(t[..|t| - 1])
  {
    var init := t[..|t| - 1];
    forall i, j | 0 <= i < j < |init| ensures LessEq(init[i], init[j]) {
      assert init[i] == t[i] && init[j] == t[j];
    }
  }

  /** Appending a word above the last of a strictly ascending sequence keeps
      it strictly ascending. */
  lemma StrictlySortedExtend(c: seq<string>, x: string)
    requires StrictlySorted(c) && c != [] && Less(c[|c| - 1], x)
    ensures StrictlySorted(c + [x])
  {
    forall k | 0 <= k < |c| ensures Less(c[k], x) {
      if k < |c| - 1 {
        LessTransitive(c[k], c[|c| - 1], x);
      }
    }
    StrictlySortedSnoc(c, x);
  }

  /** Keeps the first of every run of equal neighbours. */
  function Compact(t: seq<string>): (r: seq<string>)
    ensures |r| <= |t|
    ensures t != [] ==> r != [] && r[|r| - 1] == t[|t| - 1]
    ensures Elems(r) == Elems(t)
    ensures Sorted(t) ==> StrictlySorted(r)
  {
    if |t| <= 1 then t
    else
      var init := t[..|t| - 1];
      var c, last := Compact(init), t[|t| - 1];
      assert t == init + [last];
      ElemsSnoc(init, last);
      assert c[|c| - 1] == init[|init| - 1] == t[|t| - 2];
      assert Sorted(t) ==> Sorted(init) by {
        if Sorted(t) { SortedInit(t); }
      }
      if last == init[|init| - 1] then
        assert last in Elems(init);
        assert Elems(t) == Elems(init);
        c
      else
        ElemsSnoc(c, last);
        assert Elems(c + [last]) == Elems(t);
        assert Sorted(t) ==> StrictlySorted(c + [last]) by {
          if Sorted(t) {
            assert Less(c[|c| - 1], last) by {
              assert LessEq(t[|t| - 2], t[|t| - 1]);
            }
            StrictlySortedExtend(c, last);
          }
        }
        c + [last]
  }

  /** The distinct values of s in ascending order. */
  function Ascending(s: seq<string>): (r: seq<string>)
    ensures StrictlySorted(r)
    ensures Elems(r) == Elems(s)
  {
    var t := SortSeq(s);
    assert Elems(t) == Elems(s) by {
      forall x ensures x in t <==> x in s {
        assert x in t <==> x in multiset(t);
      }
    }
    Compact(t)
  }

  /** Ascending(s) is the only strictly ascending sequence of the values of s. */
  lemma AscendingCharacterized(s: seq<string>, r: seq<string>)
    ensures r == Ascending(s) <==> StrictlySorted(r) && Elems(r) == Elems(s)
  {
    if StrictlySorted(r) && Elems(r) == Elems(s) {
      forall a: string, b: string ensures Less(a, b) ==> !Less(b, a) {
        LessAsymmetric(a, b);
      }
      ChainsWithSameElements(r, Ascending(s), Less);
    }
  }
}
