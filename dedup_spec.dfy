/** What a deduplicated sequence is, independently of how a strategy computes it. */
module DedupSpec {

  /** No value occurs twice. */
  predicate NoRepeats<T(==)>(s: seq<T>) {
    forall i, j :: 0 <= i < j < |s| ==> s[i] != s[j]
  }

  /** The set of values of s. */
  function Elems<T(==)>(s: seq<T>): set<T> {
    set x | x in s
  }

  /** s has no more distinct values than positions, and exactly as many when
      it has no repeats. */
  lemma {:induction false} ElemsSize<T>(s: seq<T>)
    ensures |Elems(s)| <= |s|
    ensures NoRepeats(s) ==> |Elems(s)| == |s|
  {
    if s != [] {
      var init, last := s[..|s| - 1], s[|s| - 1];
      ElemsSize(init);
      assert s == init + [last];
      assert Elems(s) == Elems(init) + {last};
      if NoRepeats(s) {
        assert NoRepeats(init);
        assert last !in Elems(init);
      }
    }
  }

  lemma ElemsCons<T>(x: T, t: seq<T>)
    ensures Elems([x] + t) == {x} + Elems(t)
  {
    assert forall y :: y in [x] + t <==> y == x || y in t;
  }

  lemma ElemsSnoc<T>(t: seq<T>, x: T)
    ensures Elems(t + [x]) == Elems(t) + {x}
  {
    assert forall y :: y in t + [x] <==> y in t || y == x;
  }

  /** A subset as large as its superset is the whole of it. */
  lemma SubsetOfSameSize<T>(a: set<T>, b: set<T>)
    requires a <= b && |a| == |b|
    ensures a == b
  {
    assert |b - a| == |b| - |a|;
  }

  /** Inserting a new value anywhere keeps a sequence free of repeats. */
  lemma InsertNew<T>(t: seq<T>, k: nat, x: T)
    requires NoRepeats(t) && x !in t && k <= |t|
    ensures NoRepeats(t[..k] + [x] + t[k..])
    ensures Elems(t[..k] + [x] + t[k..]) == Elems(t) + {x}
  {
    var r := t[..k] + [x] + t[k..];
    assert |r| == |t| + 1;
    forall i, j | 0 <= i < j < |r| ensures r[i] != r[j] {
      if j < k {
        assert r[i] == t[i] && r[j] == t[j];
      } else if j == k {
        assert r[j] == x && r[i] == t[i];
      } else if i < k {
        assert r[i] == t[i] && r[j] == t[j - 1];
      } else if i == k {
        assert r[i] == x && r[j] == t[j - 1];
      } else {
        assert r[i] == t[i - 1] && r[j] == t[j - 1];
      }
    }
    assert t == t[..k] + t[k..];
    assert Elems(r) == Elems(t[..k]) + {x} + Elems(t[k..]);
    assert Elems(t) == Elems(t[..k]) + Elems(t[k..]);
  }

  /** Position of the first occurrence of x in s, |s| when x does not occur. */
  function FirstIndex<T(==)>(s: seq<T>, x: T): (r: nat)
    ensures r <= |s|
    ensures r < |s| <==> x in s
    ensures r < |s| ==> s[r] == x
    ensures x !in s[..r]
  {
    if s == [] then 0
    else if s[0] == x then 0
    else
      var r := 1 + FirstIndex(s[1..], x);
      assert s[..r] == [s[0]] + s[1..][..r - 1];
      r
  }

  /** The distinct values of s, each where it first occurs, in input order. */
  function FirstOccurrences<T(==)>(s: seq<T>): (r: seq<T>)
    ensures NoRepeats(r)
    ensures Elems(r) == Elems(s)
    ensures |r| <= |s|
  {
    if s == [] then []
    else
      var kept, last := FirstOccurrences(s[..|s| - 1]), s[|s| - 1];
      assert s == s[..|s| - 1] + [last];
      assert Elems(s) == Elems(s[..|s| - 1]) + {last};
      if last in kept then kept else kept + [last]
  }

  /** One more word read: its value is appended unless already kept. */
  lemma FirstOccurrencesStep<T>(s: seq<T>, i: nat)
    requires i < |s|
    ensures FirstOccurrences(s[..i + 1]) ==
      if s[i] in FirstOccurrences(s[..i]) then FirstOccurrences(s[..i])
      else FirstOccurrences(s[..i]) + [s[i]]
  {
    assert s[..i + 1][..i] == s[..i];
  }

  /** s strictly increases under lt. */
  predicate Chain<T>(s: seq<T>, lt: (T, T) -> bool) {
    forall i, j :: 0 <= i < j < |s| ==> lt(s[i], s[j])
  }

  /** Two sequences that strictly increase under the same asymmetric relation
      and hold the same values are equal: the values fix the sequence. */
  lemma {:induction false} ChainsWithSameElements<T>(p: seq<T>, q: seq<T>, lt: (T, T) -> bool)
    requires forall x, y :: lt(x, y) ==> !lt(y, x)
    requires Chain(p, lt) && Chain(q, lt)
    requires Elems(p) == Elems(q)
    ensures p == q
    decreases |p|
  {
    if p != [] || q != [] {
      assert p != [] ==> p[0] in Elems(q);
      assert q != [] ==> q[0] in Elems(p);
      var i :| 0 <= i < |p| && p[i] == q[0];
      var j :| 0 <= j < |q| && q[j] == p[0];
      assert p[0] == q[0];
      assert Elems(p[1..]) == Elems(p) - {p[0]} by {
        assert p == [p[0]] + p[1..];
        forall k | 1 <= k < |p| ensures p[k] != p[0] {
          assert lt(p[0], p[k]);
        }
      }
      assert Elems(q[1..]) == Elems(q) - {q[0]} by {
        assert q == [q[0]] + q[1..];
        forall k | 1 <= k < |q| ensures q[k] != q[0] {
          assert lt(q[0], q[k]);
        }
      }
      ChainsWithSameElements(p[1..], q[1..], lt);
      assert p == [p[0]] + p[1..] && q == [q[0]] + q[1..];
    }
  }

  /** r lists its values in the order of their first occurrences in s. */
  predicate InFirstOccurrenceOrder<T(==)>(s: seq<T>, r: seq<T>) {
    forall i, j :: 0 <= i < j < |r| ==> FirstIndex(s, r[i]) < FirstIndex(s, r[j])
  }

  /** Appending never moves the first occurrence of a value already present. */
  lemma {:induction false} FirstIndexOfPrefix<T>(s: seq<T>, t: seq<T>, x: T)
    requires x in s
    ensures FirstIndex(s + t, x) == FirstIndex(s, x)
  {
    if s[0] != x {
      assert (s + t)[1..] == s[1..] + t;
      FirstIndexOfPrefix(s[1..], t, x);
    }
  }

  lemma {:induction false} FirstOccurrencesInOrder<T>(s: seq<T>)
    ensures InFirstOccurrenceOrder(s, FirstOccurrences(s))
  {
    if s != [] {
      var init, last := s[..|s| - 1], s[|s| - 1];
      var kept := FirstOccurrences(init);
      FirstOccurrencesInOrder(init);
      assert s == init + [last];
      forall k | 0 <= k < |kept| ensures FirstIndex(s, kept[k]) == FirstIndex(init, kept[k]) {
        assert kept[k] in Elems(init);
        FirstIndexOfPrefix(init, [last], kept[k]);
      }
      if last !in kept {
        assert last !in init by {
          assert last in init ==> last in Elems(kept);
        }
        assert FirstIndex(s, last) == |init|;
      }
    }
  }

  /** FirstOccurrences is the only sequence that holds the values of s in
      the order of their first occurrences. */
  lemma FirstOccurrencesCharacterized<T>(s: seq<T>, r: seq<T>)
    ensures r == FirstOccurrences(s) <==> Elems(r) == Elems(s) && InFirstOccurrenceOrder(s, r)
  {
    FirstOccurrencesInOrder(s);
    if Elems(r) == Elems(s) && InFirstOccurrenceOrder(s, r) {
      var lt := (x: T, y: T) => FirstIndex(s, x) < FirstIndex(s, y);
      ChainsWithSameElements(r, FirstOccurrences(s), lt);
    }
  }

  /** A sequence without repeats is its own deduplication. */
  lemma {:induction false} FirstOccurrencesOfDistinct<T>(s: seq<T>)
    requires NoRepeats(s)
    ensures FirstOccurrences(s) == s
  {
    if s != [] {
      var init := s[..|s| - 1];
      assert NoRepeats(init);
      FirstOccurrencesOfDistinct(init);
      assert s[|s| - 1] !in init;
    }
  }

  /** Deduplicating twice is deduplicating once. */
  lemma FirstOccurrencesIdempotent<T>(s: seq<T>)
    ensures FirstOccurrences(FirstOccurrences(s)) == FirstOccurrences(s)
  {
    FirstOccurrencesOfDistinct(FirstOccurrences(s));
  }

  /** Values that already occurred add nothing to the deduplication. */
  lemma {:induction false} FirstOccurrencesAbsorbs<T>(s: seq<T>, t: seq<T>)
    requires Elems(t) <= Elems(s)
    ensures FirstOccurrences(s + t) == FirstOccurrences(s)
  {
    if t == [] {
      assert s + t == s;
    } else {
      var init := t[..|t| - 1];
      assert Elems(init) <= Elems(t);
      FirstOccurrencesAbsorbs(s, init);
      assert (s + t)[..|s + t| - 1] == s + init;
      assert (s + t)[|s + t| - 1] == t[|t| - 1];
      assert t[|t| - 1] in Elems(FirstOccurrences(s + init)) by {
        assert t[|t| - 1] in Elems(t);
      }
      assert t[|t| - 1] in FirstOccurrences(s + init);
    }
  }
}
