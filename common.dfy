/** Outcomes shared by the table generator and the workload drivers,
    and a few facts about sequences and sets that several modules use. */
module Common {

  /** Each way the original code stops with an exception instead of returning a value. */
  datatype Failure =
    | SampleLargerThanPopulation  // random.sample asked for more values than its range holds
    | EmptyPopulation             // sample_wr indexing an empty population
    | MaxOfEmpty                  // max() of an empty number list, for a varchar schema tag
    | TooManyKeys                 // numkeys > numcols
    | BlankSpecLine               // l[0] of a specification line that is empty once stripped
    | ZeroChunkSize               // chunks with a step of 0
    | ZeroThreads                 // NBWRITES / NBTHREADS with no threads
    | ParameterCountMismatch      // not as many attribute positions as '?' markers
    | NotATuple                   // list(None) for a cursor position past the end of the table

  datatype Result<T> = Ok(value: T) | Err(error: Failure)

  datatype Option<T> = None | Some(value: T)

  /** No element occurs twice. */
  predicate Distinct<T(==)>(s: seq<T>) {
    forall i, j :: 0 <= i < j < |s| ==> s[i] != s[j]
  }

  /** The set of the elements of a sequence. */
  function Elements<T>(s: seq<T>): (r: set<T>) {
    set x | x in s
  }

  /** The integers of the half-open interval [lo, lo + m). */
  function Interval(lo: int, m: nat): (r: set<int>)
    ensures forall v :: v in r <==> lo <= v < lo + m
  {
    if m == 0 then {} else Interval(lo, m - 1) + {lo + m - 1}
  }

  lemma {:induction false} ElementsAtMost<T>(s: seq<T>)
    ensures |Elements(s)| <= |s|
    ensures Distinct(s) ==> |Elements(s)| == |s|
  {
    if s != [] {
      var init := s[..|s| - 1];
      ElementsAtMost(init);
      assert Elements(s) == Elements(init) + {s[|s| - 1]};
      if Distinct(s) {
        assert Distinct(init);
        assert s[|s| - 1] !in Elements(init);
      }
    } else {
      assert Elements(s) == {};
    }
  }

  lemma SubsetSize<T>(a: set<T>, b: set<T>)
    requires a <= b
    ensures |a| <= |b|
  {
    assert b == a + (b - a);
    assert a * (b - a) == {};
  }

  lemma {:induction false} IntervalSize(lo: int, m: nat)
    ensures |Interval(lo, m)| == m
  {
    if m > 0 {
      IntervalSize(lo, m - 1);
      var prev := Interval(lo, m - 1);
      assert lo + m - 1 !in prev;
      assert Interval(lo, m) == prev + {lo + m - 1};
      assert |prev + {lo + m - 1}| == |prev| + 1;
    }
  }

  /** A subset of an interval has no more elements than the interval. */
  lemma SubsetOfInterval(s: set<int>, lo: int, m: nat)
    requires forall v :: v in s ==> lo <= v < lo + m
    ensures |s| <= m
  {
    IntervalSize(lo, m);
    var r := Interval(lo, m);
    assert r == s + (r - s);
    assert s * (r - s) == {};
  }

  /** m distinct values taken from an interval of m integers take all of them (pigeonhole). */
  lemma DistinctFillsInterval(s: seq<int>, lo: int)
    requires Distinct(s)
    requires forall i :: 0 <= i < |s| ==> lo <= s[i] < lo + |s|
    ensures forall v :: lo <= v < lo + |s| ==> v in s
  {
    ElementsAtMost(s);
    IntervalSize(lo, |s|);
    var e, r := Elements(s), Interval(lo, |s|);
    assert r == e + (r - e);
    assert e * (r - e) == {};
    assert r - e == {};
    forall v | lo <= v < lo + |s| ensures v in s {
      assert v in r;
    }
  }
}
