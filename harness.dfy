/** The repetition loop of the benchmark harness, without clocks, files or
    output: which array each timed run of a strategy is handed. */
module Harness {
  import opened DedupSpec
  import opened Dedup
  import Analyse
  import DedupTest
  import Sorting

  /** runAllAlgorithms as written: an untimed dedup of the sample uniques,
      which rewrites it in place, then runs timed dedups of testList, which
      is uniques itself rather than a copy. inputs records the array each
      timed run is handed. */
  method TimedRunsAsWritten(k: Strategy, uniques: array<string>, runs: nat)
    returns (withoutDupes: array<string>, ghost inputs: seq<seq<string>>)
    modifies uniques
    ensures |inputs| == runs
    ensures k == Basic ==> forall j :: 0 <= j < runs ==> inputs[j] == AfterBasic(old(uniques[..]))
    ensures k.Collection? ==> forall j :: 0 <= j < runs ==> inputs[j] == old(uniques[..])
    ensures k == Sort && runs > 0 ==> inputs[0] == AfterSort(old(uniques[..]))
    ensures Promise(k, old(uniques[..]), withoutDupes[..])
  {
    ghost var sample := uniques[..];
    withoutDupes := DedupWith(k, uniques);
    SettledAfterRun(k, sample, uniques[..]);
    withoutDupes, inputs := AliasedRuns(k, uniques, runs, withoutDupes, sample);
  }

  /** The timed loop of runAllAlgorithms as written, entered with the array
      the untimed run left and its result first. */
  method AliasedRuns(k: Strategy, uniques: array<string>, runs: nat, first: array<string>, ghost sample: seq<string>)
    returns (withoutDupes: array<string>, ghost inputs: seq<seq<string>>)
    modifies uniques
    requires Settled(k, sample, uniques[..])
    requires Promise(k, sample, first[..])
    ensures |inputs| == runs
    ensures k != Sort ==> inputs == Repeat(old(uniques[..]), runs)
    ensures runs > 0 ==> inputs[0] == old(uniques[..])
    ensures Promise(k, sample, withoutDupes[..])
  {
    ghost var start := uniques[..];
    withoutDupes := first;
    inputs := [];
    for i := 0 to runs
      invariant |inputs| == i
      invariant Settled(k, sample, uniques[..])
      invariant k != Sort ==> uniques[..] == start && inputs == Repeat(start, i)
      invariant i == 0 ==> uniques[..] == start
      invariant i > 0 ==> inputs[0] == start
      invariant Promise(k, sample, withoutDupes[..])
    {
      var testList := uniques;
      ghost var before;
      withoutDupes, before := AliasedRun(k, testList, sample);
      inputs := inputs + [before];
    }
  }

  /** n runs, each handed x. */
  function Repeat(x: seq<string>, n: nat): (r: seq<seq<string>>)
    ensures |r| == n
    ensures forall j :: 0 <= j < n ==> r[j] == x
  {
    if n == 0 then [] else Repeat(x, n - 1) + [x]
  }

  /** What a later run finds in the caller's array: the sample's values, and
      for BasicDedup the array its first run left, for a collection strategy
      the sample itself. */
  ghost predicate Settled(k: Strategy, sample: seq<string>, current: seq<string>) {
    && Elems(current) == Elems(sample)
    && (k == Basic ==> current == AfterBasic(sample))
    && (k.Collection? ==> current == sample)
  }

  /** The array one run leaves is settled for the array it was handed. */
  lemma SettledAfterRun(k: Strategy, sample: seq<string>, current: seq<string>)
    requires k == Basic ==> current == AfterBasic(sample)
    requires k == Sort ==> current == AfterSort(sample)
    requires k.Collection? ==> current == sample
    ensures Settled(k, sample, current)
  {
    DedupTest.OverwrittenArrayHasSameValues(sample);
  }

  /** A run on a settled array leaves it settled for the sample: BasicDedup
      changes it no further. */
  lemma SettledStep(k: Strategy, sample: seq<string>, before: seq<string>, after: seq<string>)
    requires Settled(k, sample, before)
    requires Settled(k, before, after)
    ensures Settled(k, sample, after)
  {
    AfterBasicSettles(sample);
  }

  /** One timed run of the aliased loop: a dedup of the array the earlier
      runs left, which before records. */
  method AliasedRun(k: Strategy, testList: array<string>, ghost sample: seq<string>)
    returns (withoutDupes: array<string>, ghost before: seq<string>)
    modifies testList
    requires Settled(k, sample, testList[..])
    ensures before == old(testList[..])
    ensures Settled(k, sample, testList[..])
    ensures Promise(k, sample, withoutDupes[..])
  {
    before := testList[..];
    withoutDupes := DedupWith(k, testList);
    SettledAfterRun(k, before, testList[..]);
    SettledStep(k, sample, before, testList[..]);
    PromiseCarries(k, sample, before, withoutDupes[..]);
  }

  /** A run handed a settled array keeps its strategy's promise for the
      sample itself: that array holds the sample's values, and for
      BasicDedup its first occurrences are the sample's. */
  lemma PromiseCarries(k: Strategy, sample: seq<string>, before: seq<string>, output: seq<string>)
    requires Settled(k, sample, before)
    requires Promise(k, before, output)
    ensures Promise(k, sample, output)
  {
    if k == Basic {
      AfterBasicSettles(sample);
    } else if k == Sort {
      Sorting.AscendingCharacterized(before, output);
      Sorting.AscendingCharacterized(sample, output);
    }
  }

  /** A sample whose timed BasicDedup runs are handed another array, with a
      different comparison count, than the sample drawn. */
  lemma AliasedRunsSeeOverwrittenSample(a: string, b: string)
    requires a != b
    ensures AfterBasic([a, a, b]) == [a, b, b]
    ensures Analyse.Cost([a, a, b]) == 2
    ensures Analyse.Cost([a, b, b]) == 3
  {
    var s, w := [a, a, b], [a, b, b];
    assert s[..2] == [a, a] && s[..2][..1] == [a];
    assert w[..2] == [a, b] && w[..2][..1] == [a];
    assert FirstOccurrences([a]) == [a];
    assert FirstOccurrences([a, a]) == [a];
    assert FirstOccurrences([a, b]) == [a, b];
    assert FirstOccurrences(s) == [a, b];
    assert Analyse.Cost([a]) == 0;
    assert Analyse.Cost([a, a]) == 1;
    assert Analyse.Cost([a, b]) == 1;
    assert Analyse.ScanCost([a, b], b) == 2 by {
      assert [a, b][1..] == [b];
    }
  }

  /** One run as the comment above it intends: dedup of a fresh copy of the
      sample, which itself stays as it was drawn. input is the array the run
      is handed. */
  method RunOnCopy(k: Strategy, uniques: array<string>) returns (withoutDupes: array<string>, ghost input: seq<string>)
    ensures input == uniques[..]
    ensures Promise(k, uniques[..], withoutDupes[..])
  {
    ghost var sample := uniques[..];
    var testList := CopyOf(uniques, uniques.Length);
    assert testList[..] == sample;
    input := testList[..];
    withoutDupes := DedupWith(k, testList);
  }

  /** The loop with the copy its comment announces, and nothing more: the
      untimed dedup still rewrites the sample, and every timed run is handed
      a copy of what it left. For BasicDedup and the collections this is what
      the aliased loop hands them too. */
  method TimedRunsCopyingInLoop(k: Strategy, uniques: array<string>, runs: nat)
    returns (withoutDupes: array<string>, ghost inputs: seq<seq<string>>)
    modifies uniques
    ensures |inputs| == runs
    ensures k == Basic ==> forall j :: 0 <= j < runs ==> inputs[j] == AfterBasic(old(uniques[..]))
    ensures k == Sort ==> forall j :: 0 <= j < runs ==> inputs[j] == AfterSort(old(uniques[..]))
    ensures k.Collection? ==> forall j :: 0 <= j < runs ==> inputs[j] == old(uniques[..])
    ensures Promise(k, old(uniques[..]), withoutDupes[..])
  {
    ghost var sample := uniques[..];
    withoutDupes := DedupWith(k, uniques);
    SettledAfterRun(k, sample, uniques[..]);
    withoutDupes, inputs := CopiedRuns(k, uniques, runs, withoutDupes, sample);
  }

  /** The timed loop with a copy per run, entered with the array the untimed
      run left and its result first. */
  method CopiedRuns(k: Strategy, uniques: array<string>, runs: nat, first: array<string>, ghost sample: seq<string>)
    returns (withoutDupes: array<string>, ghost inputs: seq<seq<string>>)
    requires Settled(k, sample, uniques[..])
    requires Promise(k, sample, first[..])
    ensures inputs == Repeat(uniques[..], runs)
    ensures Promise(k, sample, withoutDupes[..])
  {
    withoutDupes := first;
    inputs := [];
    for i := 0 to runs
      invariant inputs == Repeat(uniques[..], i)
      invariant Promise(k, sample, withoutDupes[..])
    {
      ghost var input;
      withoutDupes, input := RunOnCopy(k, uniques);
      PromiseCarries(k, sample, uniques[..], withoutDupes[..]);
      inputs := inputs + [input];
    }
  }

  /** The loop with every dedup, the untimed one included, handed a fresh
      copy of the sample. This goes beyond the copy the comment in the loop
      announces: the copy before the untimed run is what keeps the sample as
      drawn. */
  method TimedRunsOnCopies(k: Strategy, uniques: array<string>, runs: nat)
    returns (withoutDupes: array<string>, ghost inputs: seq<seq<string>>)
    ensures |inputs| == runs
    ensures forall j :: 0 <= j < runs ==> inputs[j] == uniques[..]
    ensures Promise(k, uniques[..], withoutDupes[..])
  {
    ghost var first;
    withoutDupes, first := RunOnCopy(k, uniques);
    inputs := [];
    for i := 0 to runs
      invariant |inputs| == i
      invariant forall j :: 0 <= j < i ==> inputs[j] == uniques[..]
      invariant Promise(k, uniques[..], withoutDupes[..])
    {
      ghost var input;
      withoutDupes, input := RunOnCopy(k, uniques);
      inputs := inputs + [input];
    }
  }
}
