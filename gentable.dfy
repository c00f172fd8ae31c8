/** The table file generator of Assignment1/ValueOfSerializability/gentable.py:
    per-column value synthesis from a cardinality directive, rendering of numeric,
    date and prefixed values, key-prefix deduplication, the schema row on top, and
    each row written as one vertical-bar delimited line. */
module GenTable {
  import opened Common
  import opened Text
  import opened Sampling
  import opened Dedup

  // ---------------------------------------------------------------- spitvert

  /** spitvert: the fields of a row separated by '|', then a newline. */
  function SpitVert(row: seq<string>): (line: string)
    ensures |line| >= 1 && line[|line| - 1] == '\n'
    ensures row != [] ==> |row[0]| < |line| && line[..|row[0]|] == row[0]
    decreases |row|
  {
    if row == [] then "\n"
    else if |row| == 1 then row[0] + "\n"
    else row[0] + "|" + SpitVert(row[1..])
  }

  /** A line is the '|'-join of the fields followed by one newline: the empty row is
      the bare newline and a single field is followed directly by the newline. */
  lemma {:induction false} SpitVertIsJoin(row: seq<string>)
    ensures SpitVert(row) == Join(row, '|') + "\n"
    ensures row == [] ==> SpitVert(row) == "\n"
    ensures |row| == 1 ==> SpitVert(row) == row[0] + "\n"
    decreases |row|
  {
    if |row| > 1 {
      SpitVertIsJoin(row[1..]);
    }
  }

  /** For fields free of '|' and newline, a row of k >= 1 fields gives a line with
      exactly k - 1 bars and a single newline, at its end. */
  lemma SpitVertCounts(row: seq<string>)
    requires forall i :: 0 <= i < |row| ==> '|' !in row[i] && '\n' !in row[i]
    ensures SpitVert(row)[|SpitVert(row)| - 1] == '\n'
    ensures multiset(SpitVert(row))['\n'] == 1
    ensures multiset(SpitVert(row))['|'] == if row == [] then 0 else |row| - 1
  {
    SpitVertIsJoin(row);
    if row != [] {
      JoinSeparatorCount(row, '|');
      JoinFree(row, '|', '\n');
    }
    assert multiset(Join(row, '|') + "\n") == multiset(Join(row, '|')) + multiset("\n");
  }

  /** A join with a separator other than c holds c only where the pieces do. */
  lemma {:induction false} JoinFree(parts: seq<string>, sep: char, c: char)
    requires sep != c
    requires forall i :: 0 <= i < |parts| ==> c !in parts[i]
    ensures c !in Join(parts, sep)
    decreases |parts|
  {
    if |parts| > 1 {
      JoinFree(parts[1..], sep, c);
    }
  }

  /** Splitting a line, without its newline, at '|' gives back the fields, when there is
      at least one field and none contains '|'. */
  lemma SpitVertRoundTrip(row: seq<string>)
    requires |row| >= 1
    requires forall i :: 0 <= i < |row| ==> '|' !in row[i]
    ensures Split(SpitVert(row)[..|SpitVert(row)| - 1], '|') == row
  {
    SpitVertIsJoin(row);
    var line := Join(row, '|') + "\n";
    assert line[..|line| - 1] == Join(row, '|');
    SplitJoin(row, '|');
  }

  // --------------------------------------------------------------- sample_wr

  /** The population sample_wr draws from: [0] in place of an empty one. */
  function NonEmpty(population: seq<int>): (pop: seq<int>)
    ensures |pop| >= 1
  {
    if population == [] then [0] else population
  }

  /** sample_wr as written: draw i is population[int(random() * (n - 1))]. Every draw is
      a member of the population, or 0 when the population is empty. */
  function DrawnAsWritten(population: seq<int>, k: nat, unit: seq<Fraction>): (r: seq<int>)
    requires UnitDraws(unit, k)
    ensures |r| == k
    ensures forall i :: 0 <= i < k ==> r[i] in NonEmpty(population)
  {
    var pop := NonEmpty(population);
    ScaledAllBelow(unit, k, if |pop| == 1 then 1 else |pop| - 1);
    seq(k, i requires 0 <= i < k =>
      if |pop| == 1 then pop[0] else ScaledBelow(unit[i], |pop| - 1); pop[Scaled(unit[i], |pop| - 1)])
  }

  /** The loop of sample_wr as written, filling result[i] for i in range(k). */
  method SampleWrAsWritten(population: seq<int>, k: nat, unit: seq<Fraction>) returns (result: seq<int>)
    requires UnitDraws(unit, k)
    ensures result == DrawnAsWritten(population, k, unit)
  {
    var pop := if population == [] then [0] else population;
    var n := |pop|;
    var a := new int[k];
    for i := 0 to k
      invariant forall j :: 0 <= j < i ==> a[j] == DrawnAsWritten(population, k, unit)[j]
    {
      var j := Scaled(unit[i], n - 1);
      if n > 1 {
        ScaledBelow(unit[i], n - 1);
      }
      a[i] := pop[j];
    }
    result := a[..];
  }

  /** As written, a population of two or more numbers never yields its last element:
      int(r * (n - 1)) is at most n - 2. */
  lemma AsWrittenSkipsLast(population: seq<int>, k: nat, unit: seq<Fraction>)
    requires |population| >= 2 && UnitDraws(unit, k)
    ensures forall i :: 0 <= i < k ==> DrawnAsWritten(population, k, unit)[i] in population[..|population| - 1]
  {
    var n := |population|;
    forall i | 0 <= i < k ensures DrawnAsWritten(population, k, unit)[i] in population[..n - 1] {
      ScaledBelow(unit[i], n - 1);
      assert population[Scaled(unit[i], n - 1)] == population[..n - 1][Scaled(unit[i], n - 1)];
    }
  }

  /** The smallest case: from [0, 1] with random() = 1/2 the code as written draws 0,
      where int(r * n) draws 1. */
  lemma AsWrittenCounterexample()
    ensures DrawnAsWritten([0, 1], 1, [Fraction(1, 2)]) == [0]
    ensures Drawn([0, 1], 1, [Fraction(1, 2)]) == [1]
  {
    assert Scaled(Fraction(1, 2), 1) == 0;
    assert Scaled(Fraction(1, 2), 2) == 1;
  }

  /** Drawing from range(v) as written, v >= 2, never produces v - 1: from range(2)
      every draw is 0. */
  lemma AsWrittenNeverDrawsTop(v: int, k: nat, unit: seq<Fraction>)
    requires v >= 2 && UnitDraws(unit, k)
    ensures forall i :: 0 <= i < k ==> DrawnAsWritten(Range(v), k, unit)[i] < v - 1
  {
    AsWrittenSkipsLast(Range(v), k, unit);
    forall i | 0 <= i < k ensures DrawnAsWritten(Range(v), k, unit)[i] < v - 1 {
      var x := DrawnAsWritten(Range(v), k, unit)[i];
      var j :| 0 <= j < v - 1 && Range(v)[..v - 1][j] == x;
    }
  }

  /** sample_wr corrected: draw i is population[int(random() * n)], as in the copies of
      sample_wr in LogIO/writes.py and Indexing/reads.py, keeping the [0] fallback. Every
      draw is a member of the population, or 0 when the population is empty. */
  function Drawn(population: seq<int>, k: nat, unit: seq<Fraction>): (r: seq<int>)
    requires UnitDraws(unit, k)
    ensures |r| == k
    ensures forall i :: 0 <= i < k ==> r[i] in NonEmpty(population)
  {
    var pop := NonEmpty(population);
    ScaledAllBelow(unit, k, |pop|);
    seq(k, i requires 0 <= i < k => ScaledBelow(unit[i], |pop|); pop[Scaled(unit[i], |pop|)])
  }

  /** The loop of the corrected sample_wr. */
  method SampleWr(population: seq<int>, k: nat, unit: seq<Fraction>) returns (result: seq<int>)
    requires UnitDraws(unit, k)
    ensures result == Drawn(population, k, unit)
  {
    var pop := if population == [] then [0] else population;
    var n := |pop|;
    var a := new int[k];
    for i := 0 to k
      invariant forall j :: 0 <= j < i ==> a[j] == Drawn(population, k, unit)[j]
    {
      ScaledBelow(unit[i], n);
      a[i] := pop[Scaled(unit[i], n)];
    }
    result := a[..];
  }

  /** The corrected sampler can yield any element, the last one included. */
  lemma DrawnReachesEvery(population: seq<int>, j: nat)
    requires j < |population|
    ensures UnitDraws([Fraction(j, |population|)], 1)
    ensures Drawn(population, 1, [Fraction(j, |population|)]) == [population[j]]
  {
    ScaledReaches(j, |population|);
  }

  // ------------------------------------------------------- value synthesis

  /** numlist for one column, shifted by the base value; gentable.py draws numrows
      values for every column. */
  function NumList(spec: ColSpec, d: Draws, numrows: nat): (nums: seq<int>)
    requires Fits(spec, d, numrows, numrows)
    ensures |nums| == numrows
  {
    var raw :=
      match spec.directive
      case Full => Sample(d.perm, numrows, numrows).value
      case Below(v) => Drawn(Range(v), numrows, d.unit)
      case Above(v) =>
        if v >= numrows then Sample(d.perm, v, numrows).value else Drawn(Range(v), numrows, d.unit);
    Shift(raw, spec.basevalue)
  }

  /** With draw == 1 the numbers are a permutation of [basevalue, basevalue + numrows):
      pairwise distinct, inside the interval, and covering it. */
  lemma FullIsPermutation(spec: ColSpec, d: Draws, numrows: nat)
    requires spec.directive == Full && Fits(spec, d, numrows, numrows)
    ensures Distinct(NumList(spec, d, numrows))
    ensures forall i :: 0 <= i < numrows ==>
      spec.basevalue <= NumList(spec, d, numrows)[i] < spec.basevalue + numrows
    ensures forall v :: spec.basevalue <= v < spec.basevalue + numrows ==> v in NumList(spec, d, numrows)
  {
    var nums := NumList(spec, d, numrows);
    ShiftFacts(Sample(d.perm, numrows, numrows).value, spec.basevalue, numrows);
    DistinctFillsInterval(nums, spec.basevalue);
  }

  /** With draw < 1 and numvalues = round(numrows * draw) >= 1, every number lies in
      [basevalue, basevalue + numvalues); with numvalues <= 0 every number is basevalue. */
  lemma BelowInDomain(spec: ColSpec, d: Draws, numrows: nat)
    requires spec.directive.Below? && Fits(spec, d, numrows, numrows)
    ensures var v := spec.directive.numvalues;
      forall i :: 0 <= i < numrows ==>
        if v >= 1 then spec.basevalue <= NumList(spec, d, numrows)[i] < spec.basevalue + v
        else NumList(spec, d, numrows)[i] == spec.basevalue
  {
  }

  /** With draw > 1 and numvalues = round(draw) >= numrows, the numbers are pairwise
      distinct and lie in [basevalue, basevalue + numvalues); with fewer values than rows
      they are drawn with replacement from the same interval. */
  lemma AboveInDomain(spec: ColSpec, d: Draws, numrows: nat)
    requires spec.directive.Above? && spec.directive.numvalues >= 1 && Fits(spec, d, numrows, numrows)
    ensures var v := spec.directive.numvalues;
      && (v >= numrows ==> Distinct(NumList(spec, d, numrows)))
      && forall i :: 0 <= i < numrows ==>
           spec.basevalue <= NumList(spec, d, numrows)[i] < spec.basevalue + v
  {
    var v := spec.directive.numvalues;
    if v >= numrows {
      ShiftFacts(Sample(d.perm, v, numrows).value, spec.basevalue, v);
    }
  }

  /** With draw < 1 a column holds at most numvalues different numbers (one, the base
      value, when numvalues <= 0), however many rows it has. */
  lemma BelowFewValues(spec: ColSpec, d: Draws, numrows: nat)
    requires spec.directive.Below? && Fits(spec, d, numrows, numrows)
    ensures var v := spec.directive.numvalues;
      |Elements(NumList(spec, d, numrows))| <= if v >= 1 then v else 1
  {
    var v := spec.directive.numvalues;
    var nums := NumList(spec, d, numrows);
    BelowInDomain(spec, d, numrows);
    var m := if v >= 1 then v else 1;
    forall x | x in Elements(nums) ensures spec.basevalue <= x < spec.basevalue + m {
      var i :| 0 <= i < |nums| && nums[i] == x;
    }
    SubsetOfInterval(Elements(nums), spec.basevalue, m);
  }

  /** The values of a column: str(num) for 'n', the ISO date today + num for 'd',
      and the attribute name followed by str(num) otherwise. */
  function Render(attribute: string, nums: seq<int>, today: int, isoDate: int -> string): (vals: seq<string>)
    ensures |vals| == |nums|
  {
    seq(|nums|, i requires 0 <= i < |nums| =>
      if attribute == "n" then IntToString(nums[i])
      else if attribute == "d" then isoDate(today + nums[i])
      else attribute + IntToString(nums[i]))
  }

  /** Distinct numbers render as distinct numeric and prefixed values. */
  lemma RenderKeepsDistinct(attribute: string, nums: seq<int>, today: int, isoDate: int -> string)
    requires attribute != "d" && Distinct(nums)
    ensures Distinct(Render(attribute, nums, today, isoDate))
  {
    var vals := Render(attribute, nums, today, isoDate);
    forall i, j | 0 <= i < j < |nums| ensures vals[i] != vals[j] {
      if vals[i] == vals[j] {
        if attribute == "n" {
          assert "" + IntToString(nums[i]) == vals[i] && "" + IntToString(nums[j]) == vals[j];
          PrefixedInjective("", nums[i], nums[j]);
        } else {
          PrefixedInjective(attribute, nums[i], nums[j]);
        }
      }
    }
  }

  /** The schema tag of a column; max() of an empty list raises ValueError. */
  function Tag(attribute: string, nums: seq<int>): (r: Result<string>)
    ensures attribute == "n" ==> r == Ok("numeric")
    ensures attribute == "d" ==> r == Ok("date")
    ensures r.Err? <==> attribute != "n" && attribute != "d" && nums == []
    ensures r.Err? ==> r.error == MaxOfEmpty
  {
    if attribute == "n" then Ok("numeric")
    else if attribute == "d" then Ok("date")
    else if nums == [] then Err(MaxOfEmpty)
    else Ok("varchar(" + IntToString(Max(nums)) + ")")
  }

  /** A prefixed column fails only when it has no values; its tag names the largest
      number drawn for it. */
  lemma TagRecordsMax(attribute: string, nums: seq<int>)
    requires attribute != "n" && attribute != "d"
    ensures Tag(attribute, nums).Err? <==> nums == []
    ensures Tag(attribute, nums).Ok? ==>
      exists m :: m in nums && (forall i :: 0 <= i < |nums| ==> nums[i] <= m)
                && Tag(attribute, nums).value == "varchar(" + IntToString(m) + ")"
  {
    if nums != [] {
      var m := Max(nums);
      assert m in nums && Tag(attribute, nums).value == "varchar(" + IntToString(m) + ")";
    }
  }

  /** attvalues[i] and attdesc[i]. */
  datatype Column = Column(values: seq<string>, tag: string)

  function MakeColumn(spec: ColSpec, d: Draws, numrows: nat, today: int, isoDate: int -> string): (r: Result<Column>)
    requires Fits(spec, d, numrows, numrows)
    ensures r.Ok? ==> |r.value.values| == numrows
  {
    var nums := NumList(spec, d, numrows);
    match Tag(spec.attribute, nums)
    case Err(e) => Err(e)
    case Ok(t) => Ok(Column(Render(spec.attribute, nums, today, isoDate), t))
  }

  predicate AllFit(specs: seq<ColSpec>, draws: seq<Draws>, numrows: nat) {
    |draws| == |specs| && forall i :: 0 <= i < |specs| ==> Fits(specs[i], draws[i], numrows, numrows)
  }

  /** The first i turns of the while loop over the columns: their columns, or the error
      of the first that fails. */
  function ColumnsUpTo(specs: seq<ColSpec>, draws: seq<Draws>, numrows: nat, today: int, isoDate: int -> string, i: nat): (r: Result<seq<Column>>)
    requires AllFit(specs, draws, numrows) && i <= |specs|
    ensures r.Ok? ==> |r.value| == i
    ensures r.Ok? ==> forall c :: 0 <= c < i ==> |r.value[c].values| == numrows
    decreases i
  {
    if i == 0 then Ok([])
    else
      match ColumnsUpTo(specs, draws, numrows, today, isoDate, i - 1)
      case Err(e) => Err(e)
      case Ok(cs) =>
        match MakeColumn(specs[i - 1], draws[i - 1], numrows, today, isoDate)
        case Err(e) => Err(e)
        case Ok(c) => Ok(cs + [c])
  }

  /** The whole loop. */
  function Columns(specs: seq<ColSpec>, draws: seq<Draws>, numrows: nat, today: int, isoDate: int -> string): (r: Result<seq<Column>>)
    requires AllFit(specs, draws, numrows)
    ensures r.Ok? ==> |r.value| == |specs|
    ensures r.Ok? ==> forall c :: 0 <= c < |specs| ==> |r.value[c].values| == numrows
  {
    ColumnsUpTo(specs, draws, numrows, today, isoDate, |specs|)
  }

  /** One more turn of the loop after i successful ones. */
  lemma ColumnsNext(specs: seq<ColSpec>, draws: seq<Draws>, numrows: nat, today: int, isoDate: int -> string, i: nat, cols: seq<Column>)
    requires AllFit(specs, draws, numrows) && i < |specs|
    requires ColumnsUpTo(specs, draws, numrows, today, isoDate, i) == Ok(cols)
    ensures var c := MakeColumn(specs[i], draws[i], numrows, today, isoDate);
      ColumnsUpTo(specs, draws, numrows, today, isoDate, i + 1) == if c.Err? then Err(c.error) else Ok(cols + [c.value])
  {
  }

  /** Once a column fails, the whole loop fails with its error. */
  lemma {:induction false} ColumnsFailFirst(specs: seq<ColSpec>, draws: seq<Draws>, numrows: nat, today: int, isoDate: int -> string, i: nat, j: nat)
    requires AllFit(specs, draws, numrows) && i <= j <= |specs|
    requires ColumnsUpTo(specs, draws, numrows, today, isoDate, i).Err?
    ensures ColumnsUpTo(specs, draws, numrows, today, isoDate, j) == ColumnsUpTo(specs, draws, numrows, today, isoDate, i)
    decreases j - i
  {
    if i < j {
      ColumnsFailFirst(specs, draws, numrows, today, isoDate, i, j - 1);
      ColumnsStayFailed(specs, draws, numrows, today, isoDate, j);
    }
  }

  /** A failed loop stays failed for one more turn. */
  lemma ColumnsStayFailed(specs: seq<ColSpec>, draws: seq<Draws>, numrows: nat, today: int, isoDate: int -> string, j: nat)
    requires AllFit(specs, draws, numrows) && 0 < j <= |specs|
    requires ColumnsUpTo(specs, draws, numrows, today, isoDate, j - 1).Err?
    ensures ColumnsUpTo(specs, draws, numrows, today, isoDate, j) == ColumnsUpTo(specs, draws, numrows, today, isoDate, j - 1)
  {
  }

  /** The schema row and the deduplicated data rows. */
  datatype Table = Table(schema: seq<string>, rows: set<seq<string>>)

  function Values(cs: seq<Column>): seq<seq<string>> {
    seq(|cs|, c requires 0 <= c < |cs| => cs[c].values)
  }

  function Tags(cs: seq<Column>): seq<string> {
    seq(|cs|, c requires 0 <= c < |cs| => cs[c].tag)
  }

  /** What gentable computes before rendering lines. */
  function Generated(numrows: nat, colspecs: seq<ColSpec>, numkeys: nat, draws: seq<Draws>, today: int, isoDate: int -> string): Result<Table>
    requires AllFit(colspecs, draws, numrows)
  {
    match Columns(colspecs, draws, numrows, today, isoDate)
    case Err(e) => Err(e)
    case Ok(cs) =>
      match Deduplicated(Zip(Values(cs), numrows), |cs|, numkeys)
      case Err(e) => Err(e)
      case Ok(s) => Ok(Table(Tags(cs), s))
  }

  /** gentable fails when a prefixed column has no values (numrows == 0) or when there
      are more key columns than columns; otherwise the schema has one tag per column,
      every data row has one value per column, there are at most numrows data rows,
      and no two share their first numkeys values. */
  lemma GeneratedShape(numrows: nat, colspecs: seq<ColSpec>, numkeys: nat, draws: seq<Draws>, today: int, isoDate: int -> string)
    requires AllFit(colspecs, draws, numrows)
    ensures Generated(numrows, colspecs, numkeys, draws, today, isoDate).Err? <==>
      (numrows == 0 && exists c :: 0 <= c < |colspecs| && colspecs[c].attribute != "n" && colspecs[c].attribute != "d")
      || numkeys > |colspecs|
    ensures Generated(numrows, colspecs, numkeys, draws, today, isoDate).Ok? ==>
      var t := Generated(numrows, colspecs, numkeys, draws, today, isoDate).value;
      && |t.schema| == |colspecs|
      && |t.rows| <= numrows
      && (forall r :: r in t.rows ==> |r| == |colspecs|)
      && forall a, b :: a in t.rows && b in t.rows && a[..numkeys] == b[..numkeys] ==> a == b
  {
    ColumnsFailIff(colspecs, draws, numrows, today, isoDate);
    var cols := Columns(colspecs, draws, numrows, today, isoDate);
    if cols.Ok? {
      var cs := cols.value;
      var rows := Zip(Values(cs), numrows);
      DeduplicatedUnique(rows, |cs|, numkeys);
      if |cs| == 0 {
        assert rows == [];
      }
    }
  }

  /** The column loop fails exactly when some prefixed column gets an empty number list. */
  lemma ColumnsFailIff(specs: seq<ColSpec>, draws: seq<Draws>, numrows: nat, today: int, isoDate: int -> string)
    requires AllFit(specs, draws, numrows)
    ensures Columns(specs, draws, numrows, today, isoDate).Err? <==>
      numrows == 0 && exists c :: 0 <= c < |specs| && specs[c].attribute != "n" && specs[c].attribute != "d"
  {
    ColumnsUpToFailIff(specs, draws, numrows, today, isoDate, |specs|);
  }

  lemma {:induction false} ColumnsUpToFailIff(specs: seq<ColSpec>, draws: seq<Draws>, numrows: nat, today: int, isoDate: int -> string, i: nat)
    requires AllFit(specs, draws, numrows) && i <= |specs|
    ensures ColumnsUpTo(specs, draws, numrows, today, isoDate, i).Err? <==>
      numrows == 0 && exists c :: 0 <= c < i && specs[c].attribute != "n" && specs[c].attribute != "d"
    decreases i
  {
    if i > 0 {
      ColumnsUpToFailIff(specs, draws, numrows, today, isoDate, i - 1);
    }
  }

  /** Every data row that is the last with its key prefix among the zipped rows survives
      deduplication (a later row with the same key overwrites an earlier one). */
  lemma GeneratedLastWins(numrows: nat, colspecs: seq<ColSpec>, numkeys: nat, draws: seq<Draws>, today: int, isoDate: int -> string, i: nat)
    requires AllFit(colspecs, draws, numrows)
    requires Columns(colspecs, draws, numrows, today, isoDate).Ok?
    requires 1 <= numkeys <= |colspecs| && i < numrows
    requires var rows := Zip(Values(Columns(colspecs, draws, numrows, today, isoDate).value), numrows);
      LastOfKey(rows, numkeys, i)
    ensures Generated(numrows, colspecs, numkeys, draws, today, isoDate).Ok?
    ensures Zip(Values(Columns(colspecs, draws, numrows, today, isoDate).value), numrows)[i]
        in Generated(numrows, colspecs, numkeys, draws, today, isoDate).value.rows
  {
    var cs := Columns(colspecs, draws, numrows, today, isoDate).value;
    DeduplicatedLastWins(Zip(Values(cs), numrows), |cs|, numkeys, i);
  }

  // ------------------------------------------------------------------ gentable

  /** The lines of a table: the schema row first, then each data row once, in the
      unspecified order of list(set). */
  ghost predicate IsRendering(lines: seq<string>, t: Table) {
    exists rows: seq<seq<string>> ::
      && Distinct(rows)
      && Elements(rows) == t.rows
      && lines == Lines([t.schema] + rows)
  }

  /** [spitvert(row) for row in table]. */
  function Lines(table: seq<seq<string>>): (lines: seq<string>)
    ensures |lines| == |table|
  {
    seq(|table|, k requires 0 <= k < |table| => SpitVert(table[k]))
  }

  /** One turn of the column loop: numlist, then attvalues[i] and attdesc[i]. */
  method SynthColumn(spec: ColSpec, d: Draws, numrows: nat, today: int, isoDate: int -> string)
    returns (r: Result<Column>)
    requires Fits(spec, d, numrows, numrows)
    ensures r == MakeColumn(spec, d, numrows, today, isoDate)
  {
    var numlist: seq<int>;
    match spec.directive {
      case Full =>
        numlist := Sample(d.perm, numrows, numrows).value;
      case Below(v) =>
        numlist := SampleWr(Range(v), numrows, d.unit);
      case Above(v) =>
        if v >= numrows {
          numlist := Sample(d.perm, v, numrows).value;
        } else {
          numlist := SampleWr(Range(v), numrows, d.unit);
        }
    }
    numlist := Shift(numlist, spec.basevalue);
    var values := Render(spec.attribute, numlist, today, isoDate);
    if spec.attribute == "n" {
      r := Ok(Column(values, "numeric"));
    } else if spec.attribute == "d" {
      r := Ok(Column(values, "date"));
    } else if numlist == [] {
      r := Err(MaxOfEmpty);
    } else {
      r := Ok(Column(values, "varchar(" + IntToString(Max(numlist)) + ")"));
    }
  }

  /** gentable: the rows of the table file, or the error that stops it. */
  method Gentable(numrows: nat, numcols: nat, colspecs: seq<ColSpec>, numkeys: nat,
                  draws: seq<Draws>, today: int, isoDate: int -> string)
    returns (r: Result<seq<string>>)
    requires |colspecs| == numcols && AllFit(colspecs, draws, numrows)
    ensures var g := Generated(numrows, colspecs, numkeys, draws, today, isoDate);
      && (r.Err? <==> g.Err?)
      && (r.Err? ==> r.error == g.error)
      && (r.Ok? ==> IsRendering(r.value, g.value))
      && (r.Ok? ==> |r.value| == |g.value.rows| + 1 && r.value[0] == SpitVert(g.value.schema))
  {
    var attvalues: seq<seq<string>> := seq(numcols, _ => []);
    var attdesc: seq<string> := seq(numcols, _ => "");
    ghost var cols: seq<Column> := [];
    var i := 0;
    while i < numcols
      invariant 0 <= i <= numcols && |cols| == i
      invariant |attvalues| == numcols && |attdesc| == numcols
      invariant ColumnsUpTo(colspecs, draws, numrows, today, isoDate, i) == Ok(cols)
      invariant forall k {:trigger cols[k]} :: 0 <= k < i ==> attvalues[k] == cols[k].values && attdesc[k] == cols[k].tag
    {
      var col := SynthColumn(colspecs[i], draws[i], numrows, today, isoDate);
      ColumnsNext(colspecs, draws, numrows, today, isoDate, i, cols);
      if col.Err? {
        ColumnsFailFirst(colspecs, draws, numrows, today, isoDate, i + 1, numcols);
        return Err(col.error);
      }
      attvalues := attvalues[i := col.value.values];
      attdesc := attdesc[i := col.value.tag];
      cols := cols + [col.value];
      i := i + 1;
    }
    var vals, tags := attvalues, attdesc;
    forall k | 0 <= k < numcols ensures vals[k] == Values(cols)[k] && tags[k] == Tags(cols)[k] { }
    r := WriteColumns(numrows, colspecs, numkeys, draws, today, isoDate, cols, vals, tags);
  }

  /** The rest of gentable once the column loop has produced cols: deduplicate the rows,
      then write them out under the schema. */
  method WriteColumns(numrows: nat, colspecs: seq<ColSpec>, numkeys: nat, draws: seq<Draws>,
                      today: int, isoDate: int -> string, ghost cols: seq<Column>,
                      vals: seq<seq<string>>, tags: seq<string>)
    returns (r: Result<seq<string>>)
    requires AllFit(colspecs, draws, numrows)
    requires Columns(colspecs, draws, numrows, today, isoDate) == Ok(cols)
    requires vals == Values(cols) && tags == Tags(cols)
    ensures var g := Generated(numrows, colspecs, numkeys, draws, today, isoDate);
      && (r.Err? <==> g.Err?)
      && (r.Err? ==> r.error == g.error)
      && (r.Ok? ==> IsRendering(r.value, g.value))
      && (r.Ok? ==> |r.value| == |g.value.rows| + 1 && r.value[0] == SpitVert(g.value.schema))
  {
    GeneratedOf(numrows, colspecs, numkeys, draws, today, isoDate, cols);
    var dedup := Deduplicated(Zip(vals, numrows), |vals|, numkeys);
    if dedup.Err? {
      return Err(dedup.error);
    }
    var lines := WriteTable(tags, dedup.value);
    r := Ok(lines);
  }

  /** Generated once the column loop has produced cols. */
  lemma GeneratedOf(numrows: nat, colspecs: seq<ColSpec>, numkeys: nat, draws: seq<Draws>, today: int, isoDate: int -> string, cols: seq<Column>)
    requires AllFit(colspecs, draws, numrows)
    requires Columns(colspecs, draws, numrows, today, isoDate) == Ok(cols)
    ensures |cols| == |colspecs|
    ensures var d := Deduplicated(Zip(Values(cols), numrows), |cols|, numkeys);
      Generated(numrows, colspecs, numkeys, draws, today, isoDate) ==
        if d.Err? then Err(d.error) else Ok(Table(Tags(cols), d.value))
  {
  }

  /** The write-out at the end of gentable: list(set) of the rows with the schema row in
      front, one line per row. */
  method WriteTable(schema: seq<string>, rows: set<seq<string>>) returns (lines: seq<string>)
    ensures IsRendering(lines, Table(schema, rows))
    ensures |lines| == |rows| + 1 && lines[0] == SpitVert(schema)
  {
    var table := ListOf(rows);
    RenderingOf(table, Table(schema, rows));
    table := [schema] + table;
    lines := Lines(table);
  }

  /** Any duplicate-free listing of the rows, under the schema, is a rendering. */
  lemma RenderingOf(data: seq<seq<string>>, t: Table)
    requires Distinct(data) && (forall x :: x in data <==> x in t.rows)
    ensures IsRendering(Lines([t.schema] + data), t)
    ensures Lines([t.schema] + data)[0] == SpitVert(t.schema)
  {
    assert Elements(data) == t.rows;
  }
}
