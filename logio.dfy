/** The workload side of LogIO/writes.py: the batch of rows an experiment takes from the
    cursor, its split into chunks of NBWRITES / NBTHREADS rows that the pool maps over
    its workers (there can be more chunks than workers), and the parameter tuples the
    updateN mode binds for each row. */
module LogIOWrites {
  import opened Common
  import opened Sampling
  import opened Workload

  function Min(a: int, b: int): int {
    if a <= b then a else b
  }

  /** The number of chunks of a list of length len: ceil(len / n). */
  function NumChunks(len: nat, n: nat): nat
    requires n > 0
  {
    (len + n - 1) / n
  }

  /** chunks(l, n) = [l[i:i+n] for i in range(0, len(l), n)]: range() refuses a zero step,
      and a negative step gives no chunk at all. */
  function Chunks<T>(l: seq<T>, n: int): (r: Result<seq<seq<T>>>)
    ensures r.Err? <==> n == 0
    ensures r.Err? ==> r.error == ZeroChunkSize
    ensures n < 0 ==> r == Ok([])
  {
    if n == 0 then Err(ZeroChunkSize)
    else if n < 0 then Ok([])
    else Ok(seq(NumChunks(|l|, n), k requires 0 <= k < NumChunks(|l|, n) =>
      ChunkBounds(|l|, n, k); l[k * n .. Min(k * n + n, |l|)]))
  }

  /** Chunk k starts inside the list. */
  lemma ChunkBounds(len: nat, n: nat, k: nat)
    requires n > 0 && k < NumChunks(len, n)
    ensures 0 <= k * n < len
  {
    var c := NumChunks(len, n);
    assert c * n <= len + n - 1;
    if k * n >= len {
      assert (k + 1) * n == k * n + n;
      assert (k + 1) * n > len + n - 1;
      MulMonotone(k + 1, c, n);
    }
  }

  lemma MulMonotone(a: nat, b: nat, n: nat)
    requires a <= b
    ensures a * n <= b * n
  {
    assert b * n == a * n + (b - a) * n;
  }

  /** The concatenation of a list of lists. */
  function Flatten<T>(parts: seq<seq<T>>): seq<T>
    decreases |parts|
  {
    if parts == [] then [] else parts[0] + Flatten(parts[1..])
  }

  /** Dropping the first n elements of a longer list drops exactly its first chunk. */
  lemma ChunksStep<T>(l: seq<T>, n: nat)
    requires n > 0 && |l| > n
    ensures Chunks(l, n).Ok? && Chunks(l[n..], n).Ok?
    ensures Chunks(l, n).value == [l[..n]] + Chunks(l[n..], n).value
  {
    var c := NumChunks(|l|, n);
    assert |l| + n - 1 == (|l| - n + n - 1) + n;
    DivPlusOne(|l| - n + n - 1, n);
    assert c == NumChunks(|l| - n, n) + 1;
    var a := Chunks(l, n).value;
    var b := [l[..n]] + Chunks(l[n..], n).value;
    assert a[0] == b[0] by {
      ChunkBounds(|l|, n, 0);
      assert 0 * n == 0 && Min(0 * n + n, |l|) == n;
    }
    forall k | 0 < k < c ensures a[k] == b[k] {
      ChunkOfTail(l, n, k);
    }
  }

  /** Chunk k of a list is chunk k - 1 of the list without its first n elements. */
  lemma ChunkOfTail<T>(l: seq<T>, n: nat, k: nat)
    requires n > 0 && |l| > n && 0 < k < NumChunks(|l|, n)
    ensures k - 1 < NumChunks(|l| - n, n)
    ensures Chunks(l[n..], n).value[k - 1] == Chunks(l, n).value[k]
  {
    assert |l| + n - 1 == (|l| - n + n - 1) + n;
    DivPlusOne(|l| - n + n - 1, n);
    ChunkBounds(|l| - n, n, k - 1);
    ChunkBounds(|l|, n, k);
    var lo := (k - 1) * n;
    assert lo + n == k * n;
    var hi := Min(lo + n, |l| - n);
    assert Min(k * n + n, |l|) == hi + n;
    assert l[n..][lo..hi] == l[k * n .. hi + n];
  }

  lemma DivPlusOne(a: nat, n: nat)
    requires n > 0
    ensures (a + n) / n == a / n + 1
  {
    var q := a / n;
    FloorDiv(a, n, q);
    FloorDiv(a + n, n, q + 1);
    assert (q + 1) * n == q * n + n;
    assert (q + 2) * n == (q + 1) * n + n;
  }

  /** Concatenating the chunks gives back the list. */
  lemma {:induction false} ChunksFlatten<T>(l: seq<T>, n: nat)
    requires n > 0
    ensures Chunks(l, n).Ok? && Flatten(Chunks(l, n).value) == l
    decreases |l|
  {
    if |l| > n {
      ChunksStep(l, n);
      ChunksFlatten(l[n..], n);
      assert l[..n] + l[n..] == l;
    } else if l == [] {
      assert NumChunks(0, n) == 0 by {
        assert (n - 1) / n == 0;
      }
    } else {
      assert NumChunks(|l|, n) == 1 by {
        DivPlusOne(|l| - 1, n);
        assert (|l| - 1) / n == 0;
      }
      assert 0 * n == 0 && Min(0 * n + n, |l|) == |l|;
      assert Chunks(l, n).value[0] == l;
    }
  }

  /** There are ceil(len(l) / n) chunks; every chunk but the last holds n elements and the
      last holds between 1 and n. */
  lemma ChunkSizes<T>(l: seq<T>, n: nat)
    requires n > 0
    ensures Chunks(l, n).Ok? && |Chunks(l, n).value| == NumChunks(|l|, n)
    ensures |Chunks(l, n).value| * n >= |l| > (|Chunks(l, n).value| - 1) * n
    ensures forall k :: 0 <= k < |Chunks(l, n).value| - 1 ==> |Chunks(l, n).value[k]| == n
    ensures forall k :: 0 <= k < |Chunks(l, n).value| ==> 1 <= |Chunks(l, n).value[k]| <= n
  {
    var cs := Chunks(l, n).value;
    var c := |cs|;
    CeilBounds(|l|, n);
    forall k | 0 <= k < c - 1 ensures |cs[k]| == n {
      ChunkBounds(|l|, n, k);
      MulMonotone(k + 1, c - 1, n);
      assert (k + 1) * n == k * n + n;
    }
    forall k | 0 <= k < c ensures 1 <= |cs[k]| <= n {
      ChunkBounds(|l|, n, k);
    }
  }

  /** ceil(len / n) * n reaches len, and one chunk fewer does not. */
  lemma CeilBounds(len: nat, n: nat)
    requires n > 0
    ensures NumChunks(len, n) * n >= len > (NumChunks(len, n) - 1) * n
  {
    var q := NumChunks(len, n);
    FloorDiv(len + n - 1, n, q);
    assert (q + 1) * n == q * n + n;
    assert (q - 1) * n == q * n - n;
  }

  /** The updateN parameters of one row: the projection onto the ATTLIST positions;
      a position past the end of the rows is None, and list(None) raises TypeError. */
  function UpdateParams(t: Option<Row>, attlist: seq<int>): (r: Result<Row>)
    ensures r.Err? <==> t.None?
    ensures r.Err? ==> r.error == NotATuple
    ensures r.Ok? ==> |r.value| <= |t.value| && forall x :: x in r.value ==> x in t.value
  {
    match t
    case None => Err(NotATuple)
    case Some(row) => Ok(Project(row, attlist))
  }

  /** The for loop of write() in updateN mode, without the statements it executes: the
      projected tuple of every row it reaches, stopping at the first missing row. */
  method WriteParams(data: seq<Option<Row>>, attlist: seq<int>) returns (r: Result<seq<Row>>)
    ensures r.Err? <==> None in data
    ensures r.Err? ==> r.error == NotATuple
    ensures r.Ok? ==> |r.value| == |data|
    ensures r.Ok? ==> forall i :: 0 <= i < |data| ==> data[i].Some? && r.value[i] == Project(data[i].value, attlist)
  {
    var params: seq<Row> := [];
    for i := 0 to |data|
      invariant |params| == i
      invariant forall j :: 0 <= j < i ==> data[j].Some? && params[j] == Project(data[j].value, attlist)
    {
      var u := UpdateParams(data[i], attlist);
      if u.Err? {
        return Err(u.error);
      }
      params := params + [u.value];
    }
    r := Ok(params);
  }

  /** The workload of one run of experiment() in insertN and updateN modes: nbwrites
      rows from the cursor, split into chunks of nbwrites / nbthreads (Python 2 floor
      division). The rows are taken before the division, so a zero thread count still
      advances the cursor. */
  method Batches(g: GenWrites, nbwrites: int, nbthreads: nat) returns (r: Result<seq<seq<Option<Row>>>>)
    modifies g`counter
    ensures g.counter == old(g.counter) + nbwrites
    ensures nbthreads == 0 ==> r == Err(ZeroThreads)
    ensures nbthreads > 0 ==> r == Chunks(g.Window(old(g.counter), nbwrites), nbwrites / nbthreads)
  {
    var rows := g.GetWrites(nbwrites);
    if nbthreads == 0 {
      return Err(ZeroThreads);
    }
    r := Chunks(rows, nbwrites / nbthreads);
  }

  /** Fewer writes than threads gives a zero chunk size, which range() refuses. */
  lemma FewWritesFail<T>(l: seq<T>, nbwrites: nat, nbthreads: nat)
    requires 0 < nbwrites < nbthreads
    ensures Chunks(l, nbwrites / nbthreads) == Err(ZeroChunkSize)
  {
  }

  /** The pool does not get one chunk per worker: ten writes over four threads give a
      chunk size of 10 / 4 = 2 and so five chunks. */
  lemma MoreChunksThanThreads<T>(l: seq<T>)
    requires |l| == 10
    ensures Chunks(l, 10 / 4).Ok? && |Chunks(l, 10 / 4).value| == 5
  {
    ChunkSizes(l, 2);
  }

  /** Whenever the chunk size is positive, the chunks of a batch are the batch itself. */
  lemma BatchesCover(g: GenWrites, start: int, nbwrites: nat, nbthreads: nat)
    requires 0 < nbthreads <= nbwrites
    ensures Chunks(g.Window(start, nbwrites), nbwrites / nbthreads).Ok?
    ensures Flatten(Chunks(g.Window(start, nbwrites), nbwrites / nbthreads).value) == g.Window(start, nbwrites)
  {
    assert nbwrites / nbthreads >= 1;
    ChunksFlatten(g.Window(start, nbwrites), nbwrites / nbthreads);
  }
}
