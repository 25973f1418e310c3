/** The correctness oracle of the test class, isCorrectDedup, and how the
    strategies fare against it. */
module DedupTest {
  import opened DedupSpec
  import opened Dedup

  /** What isCorrectDedup accepts: dedup holds as many words as original has
      distinct values, and each of its words occurs in original. */
  predicate CorrectDedup(original: seq<string>, dedup: seq<string>) {
    && |Elems(original)| == |dedup|
    && forall i :: 0 <= i < |dedup| ==> dedup[i] in Elems(original)
  }

  /** isCorrectDedup: collects the values of original in a HashSet, compares
      its size with dedup's length, then looks every word of dedup up in it.
      Both arrays are only read. */
  method IsCorrectDedup(original: array<string>, dedup: array<string>) returns (ok: bool)
    ensures ok == CorrectDedup(original[..], dedup[..])
  {
    var hs: set<string> := {};
    for i := 0 to original.Length
      invariant hs == Elems(original[..i])
    {
      assert Elems(original[..i + 1]) == Elems(original[..i]) + {original[i]} by {
        assert original[..i + 1] == original[..i] + [original[i]];
      }
      hs := hs + {original[i]};
    }
    assert original[..original.Length] == original[..];
    if |hs| != dedup.Length {
      return false;
    }
    for i := 0 to dedup.Length
      invariant forall j :: 0 <= j < i ==> dedup[j] in hs
    {
      if dedup[i] !in hs {
        return false;
      }
    }
    return true;
  }

  /** On an output without repeats the oracle is exact: it accepts precisely
      the outputs that hold the values of the original (a pigeonhole
      argument: |dedup| words, all from a set of |dedup| values). */
  lemma OracleExactWithoutRepeats(original: seq<string>, dedup: seq<string>)
    requires NoRepeats(dedup)
    ensures CorrectDedup(original, dedup) <==> Elems(dedup) == Elems(original)
  {
    ElemsSize(dedup);
    if CorrectDedup(original, dedup) {
      assert Elems(dedup) <= Elems(original) by {
        forall x | x in Elems(dedup) ensures x in Elems(original) {
          var i :| 0 <= i < |dedup| && dedup[i] == x;
        }
      }
      SubsetOfSameSize(Elems(dedup), Elems(original));
    }
    if Elems(dedup) == Elems(original) {
      forall i | 0 <= i < |dedup| ensures dedup[i] in Elems(original) {
        assert dedup[i] in Elems(dedup);
      }
    }
  }

  /** The oracle does not look for repeats: a repeated word can stand in for
      a value that is missing. */
  lemma OracleAcceptsRepeats()
    ensures CorrectDedup(["a", "b"], ["a", "a"])
    ensures Elems(["a", "a"]) != Elems(["a", "b"])
  {
    assert Elems(["a", "b"]) == {"a", "b"};
    assert "b" !in Elems(["a", "a"]);
  }

  /** isCorrectDedup with the repeat check it lacks: also remembers the words
      of dedup seen so far and rejects one seen before. */
  method IsCorrectDedupStrict(original: array<string>, dedup: array<string>) returns (ok: bool)
    ensures ok <==> NoRepeats(dedup[..]) && Elems(dedup[..]) == Elems(original[..])
  {
    var hs: set<string> := {};
    for i := 0 to original.Length
      invariant hs == Elems(original[..i])
    {
      assert Elems(original[..i + 1]) == Elems(original[..i]) + {original[i]} by {
        assert original[..i + 1] == original[..i] + [original[i]];
      }
      hs := hs + {original[i]};
    }
    assert original[..original.Length] == original[..];
    if |hs| != dedup.Length {
      ElemsSize(dedup[..]);
      return false;
    }
    var seen: set<string> := {};
    for i := 0 to dedup.Length
      invariant seen == Elems(dedup[..i]) && seen <= hs
      invariant NoRepeats(dedup[..i])
    {
      assert dedup[..i + 1] == dedup[..i] + [dedup[i]];
      if dedup[i] !in hs {
        assert dedup[i] in Elems(dedup[..]);
        return false;
      }
      if dedup[i] in seen {
        var j :| 0 <= j < i && dedup[j] == dedup[i];
        assert dedup[..][j] == dedup[..][i];
        return false;
      }
      seen := seen + {dedup[i]};
    }
    assert dedup[..dedup.Length] == dedup[..];
    ElemsSize(dedup[..]);
    SubsetOfSameSize(seen, hs);
    return true;
  }

  /** Every strategy's output passes both oracles against its input. */
  lemma StrategiesPassOracle(k: Strategy, input: seq<string>, output: seq<string>)
    requires Promise(k, input, output)
    ensures CorrectDedup(input, output)
  {
    OracleExactWithoutRepeats(input, output);
  }

  /** The oracle cannot tell the caller's array before and after BasicDedup
      or SortDedup apart: the overwritten array holds the same values. */
  lemma OverwrittenArrayHasSameValues(s: seq<string>)
    ensures Elems(AfterBasic(s)) == Elems(s)
    ensures Elems(AfterSort(s)) == Elems(s)
  {
    var kept := FirstOccurrences(s);
    assert Elems(AfterBasic(s)) == Elems(kept) + Elems(s[|kept|..]);
    assert Elems(s[|kept|..]) <= Elems(s) by {
      forall x | x in s[|kept|..] ensures x in s {
        var i :| 0 <= i < |s[|kept|..]| && s[|kept|..][i] == x;
        assert s[|kept| + i] == x;
      }
    }
    var t := Sorting.SortSeq(s);
    var c := Sorting.Compact(t);
    assert Elems(AfterSort(s)) == Elems(c) + Elems(t[|c|..]);
    assert Elems(t) == Elems(s) by {
      forall x ensures x in t <==> x in s {
        assert x in t <==> x in multiset(t);
      }
    }
    assert Elems(t[|c|..]) <= Elems(t) by {
      forall x | x in t[|c|..] ensures x in t {
        var i :| 0 <= i < |t[|c|..]| && t[|c|..][i] == x;
        assert t[|c| + i] == x;
      }
    }
  }
}
