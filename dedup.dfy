/**
  Keep-first removal of exact duplicates from an ordered table, as
  `DataFrame.drop_duplicates()` does with its default `keep='first'`: a row is
  dropped exactly when an equal row occurs earlier in the table.
 */
module DropDuplicates {

  /** No two positions of `s` hold equal values. */
  predicate Distinct<T(==)>(s: seq<T>) {
    forall i, j :: 0 <= i < j < |s| ==> s[i] != s[j]
  }

  /** The set of values that occur in `s`. */
  function Elements<T(==)>(s: seq<T>): set<T> {
    set x | x in s
  }

  /**
    The table without its repeated rows. The last row is kept exactly when no
    earlier row equals it, so every value survives at its first position.
   */
  function Dedup<T(==)>(s: seq<T>): (r: seq<T>)
    ensures Distinct(r)
    ensures Elements(r) == Elements(s)
    ensures |r| <= |s|
    decreases |s|
  {
    if s == [] then []
    else
      var init, last := s[..|s| - 1], s[|s| - 1];
      var d := Dedup(init);
      assert Elements(s) == Elements(init) + {last} by { assert s == init + [last]; }
      assert Elements(d + [last]) == Elements(d) + {last};
      if last in init then d else d + [last]
  }

  /** The position at which `x` first occurs in `s`. */
  function FirstIndex<T(==)>(s: seq<T>, x: T): (k: nat)
    requires x in s
    ensures k < |s| && s[k] == x
    ensures x !in s[..k]
  {
    if s[0] == x then 0
    else
      var k := 1 + FirstIndex(s[1..], x);
      assert s[..k] == [s[0]] + s[1..][..k - 1];
      k
  }

  /**
    `r` lists values of `s`, and whenever one value comes before another in `r`,
    its first occurrence in `s` comes before the other's.
   */
  predicate InFirstOccurrenceOrder<T(==)>(r: seq<T>, s: seq<T>) {
    && (forall i :: 0 <= i < |r| ==> r[i] in s)
    && (forall i, j :: 0 <= i < j < |r| && r[i] in s && r[j] in s ==>
          FirstIndex(s, r[i]) < FirstIndex(s, r[j]))
  }

  /** A position holding `x` with no earlier `x` is the first index of `x`. */
  lemma FirstIndexUnique<T>(s: seq<T>, x: T, k: nat)
    requires k < |s| && s[k] == x && x !in s[..k]
    ensures FirstIndex(s, x) == k
  {
    var f := FirstIndex(s, x);
    assert forall j :: 0 <= j < k ==> s[..k][j] == s[j];
    assert forall j :: 0 <= j < f ==> s[..f][j] == s[j];
  }

  /** Appending a row does not move the first occurrence of any earlier value. */
  lemma FirstIndexAppend<T>(s: seq<T>, x: T, y: T)
    requires y in s
    ensures y in s + [x] && FirstIndex(s + [x], y) == FirstIndex(s, y)
  {
    var k := FirstIndex(s, y);
    assert (s + [x])[..k] == s[..k];
    FirstIndexUnique(s + [x], y, k);
  }

  /** Dedup keeps the survivors in the order of their first occurrences. */
  lemma {:induction false} DedupOrder<T>(s: seq<T>)
    ensures InFirstOccurrenceOrder(Dedup(s), s)
    decreases |s|
  {
    if s != [] {
      var init, last := s[..|s| - 1], s[|s| - 1];
      assert s == init + [last];
      DedupOrder(init);
      var d := Dedup(init);
      forall y | y in init
        ensures FirstIndex(s, y) == FirstIndex(init, y)
      {
        FirstIndexAppend(init, last, y);
      }
      if last !in init {
        assert s[..|init|] == init;
        FirstIndexUnique(s, last, |init|);
      }
    }
  }

  /** A table without repeats is left as it is. */
  lemma {:induction false} DedupOfDistinct<T>(s: seq<T>)
    requires Distinct(s)
    ensures Dedup(s) == s
    decreases |s|
  {
    if s != [] {
      var init, last := s[..|s| - 1], s[|s| - 1];
      assert last !in init by {
        assert forall k :: 0 <= k < |init| ==> init[k] == s[k] != last;
      }
      DedupOfDistinct(init);
      assert s == init + [last];
    }
  }

  /** Removing duplicates twice is the same as removing them once. */
  lemma DedupIdempotent<T>(s: seq<T>)
    ensures Dedup(Dedup(s)) == Dedup(s)
  {
    DedupOfDistinct(Dedup(s));
  }

  /** Rows appended to a table never change the deduplicated rows before them. */
  lemma {:induction false} DedupPrefix<T>(s: seq<T>, t: seq<T>)
    ensures Dedup(s) <= Dedup(s + t)
    decreases |t|
  {
    if t == [] {
      assert s + t == s;
    } else {
      var t', y := t[..|t| - 1], t[|t| - 1];
      DedupPrefix(s, t');
      assert (s + t)[..|s + t| - 1] == s + t';
      var before := Dedup(s + t');
      assert Dedup(s + t) == before || Dedup(s + t) == before + [y];
      assert (before + [y])[..|before|] == before;
    }
  }

  /** Appending rows that all occur already leaves the deduplicated table as it is. */
  lemma {:induction false} DedupAbsorbs<T>(s: seq<T>, t: seq<T>)
    requires forall x :: x in t ==> x in s
    ensures Dedup(s + t) == Dedup(s)
    decreases |t|
  {
    if t == [] {
      assert s + t == s;
    } else {
      var t', y := t[..|t| - 1], t[|t| - 1];
      assert y in t;
      DedupAbsorbs(s, t');
      assert (s + t)[..|s + t| - 1] == s + t';
    }
  }

  /** Deduplicating a prefix first makes no difference to the final table. */
  lemma {:induction false} DedupCompose<T>(s: seq<T>, t: seq<T>)
    ensures Dedup(Dedup(s) + t) == Dedup(s + t)
    decreases |t|
  {
    if t == [] {
      assert Dedup(s) + t == Dedup(s) && s + t == s;
      DedupIdempotent(s);
    } else {
      var t', y := t[..|t| - 1], t[|t| - 1];
      DedupCompose(s, t');
      assert (Dedup(s) + t)[..|Dedup(s) + t| - 1] == Dedup(s) + t';
      assert (s + t)[..|s + t| - 1] == s + t';
      assert (y in Dedup(s) + t') == (y in s + t') by {
        assert y in Dedup(s) <==> y in Elements(Dedup(s));
        assert y in s <==> y in Elements(s);
      }
    }
  }

  /** A table without repeats has as many rows as distinct values. */
  lemma {:induction false} DistinctCardinality<T>(s: seq<T>)
    requires Distinct(s)
    ensures |Elements(s)| == |s|
    decreases |s|
  {
    if s != [] {
      var init, last := s[..|s| - 1], s[|s| - 1];
      assert s == init + [last];
      DistinctCardinality(init);
      assert Elements(s) == Elements(init) + {last};
      assert last !in Elements(init) by {
        assert forall k :: 0 <= k < |init| ==> init[k] == s[k] != last;
      }
    }
  }

  /** The deduplicated table has exactly one row per distinct value. */
  lemma DedupLength<T>(s: seq<T>)
    ensures |Dedup(s)| == |Elements(s)|
  {
    DistinctCardinality(Dedup(s));
    assert Elements(Dedup(s)) == Elements(s);
  }

  /** Dedup drops rows exactly when some row repeats an earlier one. */
  lemma {:induction false} DedupKeepsAllIffDistinct<T>(s: seq<T>)
    ensures |Dedup(s)| == |s| <==> Distinct(s)
    decreases |s|
  {
    if s != [] {
      var init, last := s[..|s| - 1], s[|s| - 1];
      assert s == init + [last];
      DedupKeepsAllIffDistinct(init);
      if Distinct(s) {
        DedupOfDistinct(s);
      } else {
        var i, j :| 0 <= i < j < |s| && s[i] == s[j];
        if last !in init {
          assert s[i] == init[i] != last;
          assert init[i] == init[j];
        }
      }
    }
  }

  /** Restricted to values of `init`, first-occurrence order in `init + [x]` is that in `init`. */
  lemma OrderDropLast<T>(r: seq<T>, init: seq<T>, x: T)
    requires InFirstOccurrenceOrder(r, init + [x])
    requires forall i :: 0 <= i < |r| ==> r[i] in init
    ensures InFirstOccurrenceOrder(r, init)
  {
    forall y | y in init
      ensures FirstIndex(init + [x], y) == FirstIndex(init, y)
    {
      FirstIndexAppend(init, x, y);
    }
  }

  /** One instance of the order: the pair of positions `i < j`. */
  lemma OrderedPair<T>(r: seq<T>, s: seq<T>, i: int, j: int)
    ensures InFirstOccurrenceOrder(r, s) && 0 <= i < j < |r| ==>
              r[i] in s && r[j] in s && FirstIndex(s, r[i]) < FirstIndex(s, r[j])
  {
  }

  /** A value that first occurs in the last row must come last. */
  lemma NewValueComesLast<T>(r: seq<T>, init: seq<T>, x: T, p: nat)
    requires InFirstOccurrenceOrder(r, init + [x])
    requires x !in init
    requires p < |r| && r[p] == x
    ensures p == |r| - 1
  {
    var s := init + [x];
    assert s[..|init|] == init;
    FirstIndexUnique(s, x, |init|);
    OrderedPair(r, s, p, p + 1);
  }

  /** Dropping the last row keeps a table in first-occurrence order. */
  lemma OrderDropLastRow<T>(r: seq<T>, s: seq<T>)
    requires InFirstOccurrenceOrder(r, s) && r != []
    ensures InFirstOccurrenceOrder(r[..|r| - 1], s)
  {
    var r' := r[..|r| - 1];
    assert forall i :: 0 <= i < |r'| ==> r'[i] == r[i];
  }

  /** A table in first-occurrence order whose last input row is new ends with that row. */
  lemma SplitNewLast<T>(r: seq<T>, init: seq<T>, x: T) returns (r': seq<T>)
    requires Distinct(r)
    requires Elements(r) == Elements(init) + {x}
    requires x !in init
    requires InFirstOccurrenceOrder(r, init + [x])
    ensures r == r' + [x]
    ensures Distinct(r') && Elements(r') == Elements(init)
    ensures InFirstOccurrenceOrder(r', init)
  {
    assert x in Elements(r);
    var p :| 0 <= p < |r| && r[p] == x;
    NewValueComesLast(r, init, x, p);
    r' := r[..|r| - 1];
    assert r == r' + [x];
    assert Elements(r) == Elements(r') + {x};
    assert x !in Elements(r') by {
      assert forall q :: 0 <= q < |r'| ==> r'[q] == r[q] != x;
    }
    assert forall i :: 0 <= i < |r'| ==> r'[i] in Elements(r');
    OrderDropLastRow(r, init + [x]);
    OrderDropLast(r', init, x);
  }

  /**
    Dedup is the only table that lists every value of `s` once, and nothing
    else, in the order of first occurrences.
   */
  lemma {:induction false} DedupUnique<T>(s: seq<T>, r: seq<T>)
    requires Distinct(r)
    requires Elements(r) == Elements(s)
    requires InFirstOccurrenceOrder(r, s)
    ensures r == Dedup(s)
    decreases |s|
  {
    if s == [] {
      assert Elements(s) == {};
      DistinctCardinality(r);
    } else {
      var init, last := s[..|s| - 1], s[|s| - 1];
      assert s == init + [last];
      assert Elements(s) == Elements(init) + {last};
      if last in init {
        assert forall i :: 0 <= i < |r| ==> r[i] in Elements(r);
        OrderDropLast(r, init, last);
        DedupUnique(init, r);
      } else {
        var r' := SplitNewLast(r, init, last);
        DedupUnique(init, r');
      }
    }
  }
}
