/** The deduplication strategies behind the Dedup interface. Each takes the
    caller's array of words and returns a fresh array of its distinct words.
    BasicDedup and SortDedup work inside the caller's array and leave it
    overwritten; the CollectionDedup strategies only read it. */
module Dedup {
  import opened DedupSpec
  import opened Sorting
  import opened StringOrder
  import Analyse

  /** A Java array slot that may hold null (None). */
  datatype Option<T> = None | Some(value: T)

  /** Arrays.copyOf(a, n) when n does not exceed a.Length. */
  method CopyOf(a: array<string>, n: nat) returns (r: array<string>)
    requires n <= a.Length
    ensures fresh(r)
    ensures r[..] == a[..n]
  {
    r := new string[n];
    forall i | 0 <= i < n {
      r[i] := a[i];
    }
  }

  /** Arrays.copyOf(a, n) for any n: slots past the end of a hold null. */
  method CopyOfPadded(a: array<string>, n: nat) returns (r: array<Option<string>>)
    ensures fresh(r)
    ensures r.Length == n
    ensures forall i :: 0 <= i < n ==> r[i] == if i < a.Length then Some(a[i]) else None
  {
    r := new Option<string>[n](_ => None);
    forall i | 0 <= i < n && i < a.Length {
      r[i] := Some(a[i]);
    }
  }

  // ---------------------------------------------------------------- BasicDedup

  /** isDuplicate: whether obj equals one of the first len words of objects.
      Only objects[..len] decides the answer. The ghost result counts the
      equals calls of the scan. */
  method IsDuplicate(objects: array<string>, len: nat, obj: string) returns (found: bool, ghost comparisons: nat)
    requires len <= objects.Length
    ensures found <==> obj in objects[..len]
    ensures comparisons == Analyse.ScanCost(objects[..len], obj)
  {
    comparisons := 0;
    for i := 0 to len
      invariant forall j :: 0 <= j < i ==> objects[j] != obj
      invariant comparisons == i
    {
      comparisons := comparisons + 1;
      if obj == objects[i] {
        assert objects[..len][i] == obj;
        return true, comparisons;
      }
    }
    return false, comparisons;
  }

  /** The caller's array after BasicDedup: the kept words, then the input's
      words past the cursor, as they were. */
  function AfterBasic(s: seq<string>): (r: seq<string>)
    ensures |r| == |s|
  {
    var kept := FirstOccurrences(s);
    kept + s[|kept|..]
  }

  /** The write in BasicDedup's loop: a word read at position i and not kept
      before is written at the cursor, extending the kept words by it and
      leaving the words past the cursor alone. */
  lemma KeepStep(a: seq<string>, s: seq<string>, count: nat, i: nat)
    requires count <= i < |s| == |a|
    requires a[..count] == FirstOccurrences(s[..i])
    requires forall k :: count <= k < |a| ==> a[k] == s[k]
    requires s[i] !in a[..count]
    ensures a[count := s[i]][..count + 1] == FirstOccurrences(s[..i + 1])
    ensures forall k :: count + 1 <= k < |a| ==> a[count := s[i]][k] == s[k]
  {
    FirstOccurrencesStep(s, i);
    assert a[count := s[i]][..count + 1] == a[..count] + [s[i]];
  }

  /** BasicDedup.dedup: every word is kept, at the write cursor count, unless
      isDuplicate finds it among the words kept before it. count never passes
      the read position, so no word is overwritten before it is read. */
  method BasicDedup(strings: array<string>) returns (r: array<string>, ghost comparisons: nat)
    modifies strings
    ensures fresh(r)
    ensures r[..] == FirstOccurrences(old(strings[..]))
    ensures strings[..] == AfterBasic(old(strings[..]))
    ensures comparisons == Analyse.Cost(old(strings[..]))
  {
    ghost var s := strings[..];
    var count := 0;
    comparisons := 0;
    for i := 0 to strings.Length
      invariant count <= i
      invariant strings[..count] == FirstOccurrences(s[..i])
      invariant forall k :: count <= k < strings.Length ==> strings[k] == s[k]
      invariant comparisons == Analyse.Cost(s[..i])
    {
      var current := strings[i];
      Analyse.CostStep(s, i);
      var duplicate;
      ghost var c;
      duplicate, c := IsDuplicate(strings, count, current);
      assert c == Analyse.ScanCost(FirstOccurrences(s[..i]), s[i]);
      comparisons := comparisons + c;
      if duplicate {
        FirstOccurrencesStep(s, i);
        continue;
      } else {
        ghost var before := strings[..];
        KeepStep(before, s, count, i);
        strings[count] := current;
        assert strings[..] == before[count := current];
        count := count + 1;
      }
    }
    assert s[..strings.Length] == s;
    BasicDone(strings[..], s, count);
    r := CopyOf(strings, count);
  }

  /** When BasicDedup's loop ends, the array is the kept words followed by
      the input past the cursor. */
  lemma BasicDone(a: seq<string>, s: seq<string>, count: nat)
    requires count <= |s| == |a|
    requires a[..count] == FirstOccurrences(s[..|s|])
    requires forall k :: count <= k < |a| ==> a[k] == s[k]
    ensures a[..count] == FirstOccurrences(s)
    ensures a == AfterBasic(s)
  {
    assert s[..|s|] == s;
    assert a == a[..count] + a[count..];
    assert a[count..] == s[count..];
  }

  // ----------------------------------------------------------------- SortDedup

  /** Arrays.sort(a). The model relies only on the library's contract: the
      array ends sorted and holds the same words (SortedPermutationsEqual
      makes that array SortSeq of the old one). */
  method SortInPlace(a: array<string>)
    modifies a
    ensures Sorted(a[..])
    ensures multiset(a[..]) == multiset(old(a[..]))
  {
    var t := SortSeq(a[..]);
    assert |t| == |multiset(t)| == a.Length;
    forall i | 0 <= i < a.Length {
      a[i] := t[i];
    }
    assert a[..] == t;
  }

  /** In SortDedup's loop the word at i and its left neighbour still hold
      the sorted array's words: i - 1 is either past the cursor or the last
      word written, which is a copy of it. */
  lemma NeighboursUnchanged(a: seq<string>, t: seq<string>, count: nat, i: nat)
    requires 1 <= count <= i < |t| == |a|
    requires a[..count] == Compact(t[..i])
    requires forall k :: count <= k < |a| ==> a[k] == t[k]
    ensures a[i - 1] == t[i - 1] && a[i] == t[i]
  {
    if count == i {
      assert a[..count][count - 1] == Compact(t[..i])[count - 1];
    }
  }

  /** The write in SortDedup's loop: a word unlike its left neighbour is
      copied to the cursor, extending the compacted prefix by it and leaving
      the rest alone. */
  lemma CompactStep(a: seq<string>, t: seq<string>, count: nat, i: nat)
    requires 1 <= count <= i < |t| == |a|
    requires a[..count] == Compact(t[..i])
    requires forall k :: count <= k < |a| ==> a[k] == t[k]
    ensures t[i] == t[i - 1] ==> Compact(t[..i + 1]) == Compact(t[..i])
    ensures t[i] != t[i - 1] ==> a[count := t[i]][..count + 1] == Compact(t[..i + 1])
    ensures forall k :: count + 1 <= k < |a| ==> a[count := t[i]][k] == t[k]
  {
    var init := t[..i + 1][..|t[..i + 1]| - 1];
    assert init == t[..i];
    assert init[|init| - 1] == t[i - 1] && t[..i + 1][i] == t[i];
    assert a[count := t[i]][..count + 1] == a[..count] + [t[i]];
  }

  /** The loop of SortDedup.dedup: count starts at 1, and each word that
      differs from its left neighbour is moved to the cursor. On an empty
      array the loop does nothing and count stays 1. */
  method CompactRuns(strings: array<string>) returns (count: nat)
    modifies strings
    ensures strings.Length == 0 ==> count == 1
    ensures strings.Length > 0 ==> count == |Compact(old(strings[..]))|
    ensures strings.Length > 0 ==> strings[..] == Compact(old(strings[..])) + old(strings[..])[count..]
  {
    ghost var t := strings[..];
    count := 1;
    var i := 1;
    while i < strings.Length
      invariant 1 <= count <= i
      invariant strings.Length == 0 ==> count == 1
      invariant strings.Length > 0 ==> i <= strings.Length && strings[..count] == Compact(t[..i])
      invariant forall k :: count <= k < strings.Length ==> strings[k] == t[k]
    {
      ghost var before := strings[..];
      NeighboursUnchanged(before, t, count, i);
      CompactStep(before, t, count, i);
      if strings[i] == strings[i - 1] {
      } else {
        strings[count] := strings[i];
        assert strings[..] == before[count := t[i]];
        count := count + 1;
      }
      i := i + 1;
    }
    if strings.Length > 0 {
      CompactRunsDone(strings[..], t, count);
    }
  }

  /** When SortDedup's loop ends, the array is the compacted words followed by
      the sorted words past the cursor. */
  lemma CompactRunsDone(a: seq<string>, t: seq<string>, count: nat)
    requires 1 <= count <= |t| == |a|
    requires a[..count] == Compact(t[..|t|])
    requires forall k :: count <= k < |a| ==> a[k] == t[k]
    ensures count == |Compact(t)|
    ensures a == Compact(t) + t[count..]
  {
    assert t[..|t|] == t;
    assert a == a[..count] + a[count..];
    assert a[count..] == t[count..];
  }

  /** The caller's array after SortDedup: the ascending distinct words, then
      the rest of the sorted array. */
  function AfterSort(s: seq<string>): (r: seq<string>)
    ensures |r| == |s|
    ensures r[..|Ascending(s)|] == Ascending(s)
  {
    var t := SortSeq(s);
    assert |t| == |multiset(t)| == |s|;
    Compact(t) + t[|Compact(t)|..]
  }

  /** Sorting and then compacting leaves AfterSort in the array and its
      ascending distinct words in the prefix count reports. */
  method SortAndCompact(strings: array<string>) returns (count: nat)
    modifies strings
    ensures strings.Length == 0 ==> count == 1
    ensures strings.Length > 0 ==> count <= strings.Length && strings[..count] == Ascending(old(strings[..]))
    ensures strings[..] == AfterSort(old(strings[..]))
  {
    ghost var s := strings[..];
    SortInPlace(strings);
    SortedPermutationsEqual(strings[..], SortSeq(s));
    count := CompactRuns(strings);
    if strings.Length == 0 {
      assert strings[..] == [] == AfterSort(s);
    }
  }

  /** Compaction overwrites the sorted prefix: the array SortDedup leaves
      behind is in general no longer sorted. */
  lemma SortDedupLeavesArrayUnsorted(a: string, b: string)
    requires Less(a, b)
    ensures AfterSort([a, a, a, b]) == [a, b, a, b]
    ensures !Sorted(AfterSort([a, a, a, b]))
  {
    var s := [a, a, a, b];
    LessIrreflexive(a);
    LessAsymmetric(a, b);
    SortSeqOfSortedExample(a, b);
    CompactExample(a, b);
    var w := [a, b, a, b];
    assert AfterSort(s) == w;
    assert !LessEq(w[1], w[2]);
  }

  lemma SortSeqOfSortedExample(a: string, b: string)
    requires Less(a, b)
    ensures SortSeq([a, a, a, b]) == [a, a, a, b]
  {
    var s := [a, a, a, b];
    assert Sorted(s) by {
      forall i, j | 0 <= i < j < 4 ensures LessEq(s[i], s[j]) {
        if j < 3 {
          assert s[i] == a && s[j] == a;
        } else {
          assert s[i] == a && s[j] == b;
        }
      }
    }
    SortedPermutationsEqual(s, SortSeq(s));
  }

  lemma CompactExample(a: string, b: string)
    requires a != b
    ensures Compact([a, a, a, b]) == [a, b]
  {
    assert [a, a][..1] == [a];
    assert Compact([a, a]) == [a];
    assert [a, a, a][..2] == [a, a];
    assert Compact([a, a, a]) == [a];
    assert [a, a, a, b][..3] == [a, a, a];
  }

  /** SortDedup.dedup as written: count starts at 1 even for an empty array,
      and Arrays.copyOf then pads the result with a null slot. */
  method SortDedupAsWritten(strings: array<string>) returns (r: array<Option<string>>)
    modifies strings
    ensures fresh(r)
    ensures strings.Length == 0 ==> r[..] == [None]
    ensures strings.Length > 0 ==> r.Length == |Ascending(old(strings[..]))|
    ensures strings.Length > 0 ==> forall i :: 0 <= i < r.Length ==> r[i] == Some(Ascending(old(strings[..]))[i])
    ensures strings[..] == AfterSort(old(strings[..]))
  {
    ghost var s := strings[..];
    var count := SortAndCompact(strings);
    r := CopyOfPadded(strings, count);
    if strings.Length > 0 {
      forall i | 0 <= i < r.Length ensures r[i] == Some(Ascending(s)[i]) {
        assert strings[..count][i] == strings[i];
      }
    }
  }

  /** What the as-written SortDedup returns for an empty array: one null. */
  method SortDedupOfEmptyAsWritten() returns (r: array<Option<string>>)
    ensures r.Length == 1 && r[0] == None
  {
    var empty := new string[0];
    r := SortDedupAsWritten(empty);
  }

  /** SortDedup.dedup with an empty array answered by an empty array: the
      distinct words in ascending order. */
  method SortDedup(strings: array<string>) returns (r: array<string>)
    modifies strings
    ensures fresh(r)
    ensures r[..] == Ascending(old(strings[..]))
    ensures strings[..] == AfterSort(old(strings[..]))
  {
    ghost var s := strings[..];
    var count := SortAndCompact(strings);
    if strings.Length == 0 {
      assert Ascending(s) == [] by {
        assert Elems(Ascending(s)) == Elems(s) == {};
      }
      r := new string[0];
    } else {
      r := CopyOf(strings, count);
    }
  }

  // ------------------------------------------------------------ CollectionDedup

  /** The collection a CollectionDedup owns. */
  datatype CollectionKind = ArrayList | HashSet | TreeSet

  /** CollectionDedup and its subclasses, ArrayListDedup (a ListDedup),
      HashSetDedup and TreeSetDedup (SetDedups). coll is the collection field,
      listed in the collection's iteration order. */
  class CollectionDedup {
    const kind: CollectionKind
    var coll: seq<string>

    ghost predicate Valid()
      reads this
    {
      NoRepeats(coll) && (kind == TreeSet ==> StrictlySorted(coll))
    }

    constructor (kind: CollectionKind)
      ensures Valid()
      ensures this.kind == kind && coll == []
    {
      this.kind := kind;
      coll := [];
    }

    /** ListDedup.add for the ArrayList (contains, else add: always true);
        SetDedup.add otherwise (Set.add: true when s was new). A HashSet
        places a new word at a position it chooses; a TreeSet at its place
        in ascending order. */
    method Add(s: string) returns (added: bool)
      requires Valid()
      modifies this
      ensures Valid()
      ensures Elems(coll) == Elems(old(coll)) + {s}
      ensures s in old(coll) ==> coll == old(coll)
      ensures kind == ArrayList ==> added && coll == if s in old(coll) then old(coll) else old(coll) + [s]
      ensures kind != ArrayList ==> added == (s !in old(coll))
    {
      if kind == ArrayList {
        added := s in coll;
        if !added {
          assert s !in Elems(coll);
          coll := coll + [s];
          added := true;
        }
      } else {
        added := s !in coll;
        if added {
          if kind == TreeSet {
            coll := TreeInsert(coll, s);
            StrictlySortedNoRepeats(coll);
          } else {
            var k :| 0 <= k <= |coll|;
            InsertNew(coll, k, s);
            coll := coll[..k] + [s] + coll[k..];
          }
        }
      }
    }

    /** CollectionDedup.dedup: clears the collection, adds every word, then
        copies the collection into a fresh array. The caller's array is
        only read, and nothing from an earlier call survives the clear. */
    method Dedup(strings: array<string>) returns (output: array<string>)
      requires Valid()
      modifies this
      ensures Valid() && fresh(output)
      ensures coll == output[..]
      ensures NoRepeats(output[..]) && Elems(output[..]) == Elems(strings[..])
      ensures kind == ArrayList ==> output[..] == FirstOccurrences(strings[..])
      ensures kind == TreeSet ==> output[..] == Ascending(strings[..])
    {
      coll := [];
      for j := 0 to strings.Length
        invariant Valid()
        invariant Elems(coll) == Elems(strings[..j])
        invariant kind == ArrayList ==> coll == FirstOccurrences(strings[..j])
      {
        assert strings[..j + 1] == strings[..j] + [strings[j]];
        assert Elems(strings[..j + 1]) == Elems(strings[..j]) + {strings[j]};
        var _ := Add(strings[j]);
      }
      assert strings[..strings.Length] == strings[..];
      output := new string[|coll|];
      for i := 0 to |coll|
        modifies output
        invariant output[..i] == coll[..i]
      {
        output[i] := coll[i];
      }
      assert output[..] == coll[..|coll|];
      if kind == TreeSet {
        AscendingCharacterized(strings[..], coll);
      }
    }
  }

  /** One ArrayListDedup used twice: the second result depends on the second
      input alone. */
  method ReusedCollectionDedup(first: array<string>, second: array<string>) returns (r1: array<string>, r2: array<string>)
    ensures r1[..] == FirstOccurrences(first[..])
    ensures r2[..] == FirstOccurrences(second[..])
  {
    var d := new CollectionDedup(ArrayList);
    r1 := d.Dedup(first);
    r2 := d.Dedup(second);
  }

  // ------------------------------------------------------------------ Strategies

  /** The five Dedup implementations the factories build. */
  datatype Strategy = Basic | Sort | Collection(kind: CollectionKind)

  /** What strategy k promises about the output it returns for input: no
      repeats, the same values, and the order of the strategy (first
      occurrences, ascending, or for a HashSet unspecified). */
  predicate Promise(k: Strategy, input: seq<string>, output: seq<string>) {
    && NoRepeats(output)
    && Elems(output) == Elems(input)
    && match k
       case Basic => output == FirstOccurrences(input)
       case Sort => output == Ascending(input)
       case Collection(ArrayList) => output == FirstOccurrences(input)
       case Collection(TreeSet) => output == Ascending(input)
       case Collection(HashSet) => true
  }

  /** Dedup.newXDedup().dedup(words), and the static wrappers around it. */
  method DedupWith(k: Strategy, words: array<string>) returns (r: array<string>)
    modifies words
    ensures fresh(r)
    ensures Promise(k, old(words[..]), r[..])
    ensures k == Basic ==> words[..] == AfterBasic(old(words[..]))
    ensures k == Sort ==> words[..] == AfterSort(old(words[..]))
    ensures k.Collection? ==> words[..] == old(words[..])
  {
    match k
    case Basic =>
      ghost var c;
      r, c := BasicDedup(words);
    case Sort =>
      r := SortDedup(words);
      StrictlySortedNoRepeats(r[..]);
    case Collection(kind) =>
      var d := new CollectionDedup(kind);
      r := d.Dedup(words);
  }

  /** Every strategy returns at most as many words as it was given, and
      exactly one per distinct value. */
  lemma PromiseSize(k: Strategy, input: seq<string>, output: seq<string>)
    requires Promise(k, input, output)
    ensures |output| == |Elems(input)| <= |input|
  {
    ElemsSize(output);
    ElemsSize(input);
  }

  /** Deduplicating an output again returns it unchanged for the ordered
      strategies, and the same set of values for the HashSet. */
  lemma PromiseIdempotent(k: Strategy, input: seq<string>, output: seq<string>)
    requires Promise(k, input, output)
    ensures Promise(k, output, output)
  {
    match k
    case Basic => FirstOccurrencesOfDistinct(output);
    case Collection(ArrayList) => FirstOccurrencesOfDistinct(output);
    case Sort => AscendingCharacterized(output, output);
    case Collection(TreeSet) => AscendingCharacterized(output, output);
    case Collection(HashSet) =>
  }

  /** The order-preserving strategies list each value where it first occurs,
      in input order; the sorted ones in ascending order. */
  lemma PromiseOrder(k: Strategy, input: seq<string>, output: seq<string>)
    requires Promise(k, input, output)
    ensures k in {Basic, Collection(ArrayList)} ==> InFirstOccurrenceOrder(input, output)
    ensures k in {Sort, Collection(TreeSet)} ==> StrictlySorted(output)
  {
    FirstOccurrencesInOrder(input);
  }

  /** The two sorted strategies return the same array, and so do the two
      order-preserving ones. */
  lemma SortedStrategiesAgree(input: seq<string>, r1: seq<string>, r2: seq<string>)
    ensures Promise(Sort, input, r1) && Promise(Collection(TreeSet), input, r2) ==> r1 == r2
    ensures Promise(Basic, input, r1) && Promise(Collection(ArrayList), input, r2) ==> r1 == r2
  {
  }

  /** A second BasicDedup over the array the first one left changes nothing
      more: the array is already in its final shape. */
  lemma AfterBasicSettles(s: seq<string>)
    ensures FirstOccurrences(AfterBasic(s)) == FirstOccurrences(s)
    ensures AfterBasic(AfterBasic(s)) == AfterBasic(s)
  {
    var kept := FirstOccurrences(s);
    var rest := s[|kept|..];
    assert Elems(rest) <= Elems(kept) by {
      forall x | x in rest ensures x in Elems(s) {
        var i :| 0 <= i < |rest| && rest[i] == x;
        assert s[|kept| + i] == x;
      }
    }
    FirstOccurrencesAbsorbs(kept, rest);
    FirstOccurrencesIdempotent(s);
    assert (kept + rest)[|kept|..] == rest;
  }

  /** The example in the comment above BasicDedup. */
  lemma BasicDedupExample()
    ensures FirstOccurrences(["så", "gjør", "vi", "så"]) == ["så", "gjør", "vi"]
  {
    var s := ["så", "gjør", "vi", "så"];
    assert s[..3][..2][..1] == ["så"] && FirstOccurrences(["så"]) == ["så"];
    assert FirstOccurrences(s[..3][..2]) == ["så", "gjør"];
    assert FirstOccurrences(s[..3]) == ["så", "gjør", "vi"];
  }
}
