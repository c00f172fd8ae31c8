/** The GenWrites row cursor of LogIO/writes.py, copied verbatim into Indexing/reads.py:
    the rows are generated once, with numwrites values per column, deduplicated on their
    key prefix, and handed out by position or in consecutive batches. Also the
    projection of a row onto the attribute positions listed on the command line. */
module Workload {
  import opened Common
  import opened Text
  import opened Sampling
  import opened Dedup

  /** A value of a generated row: an integer for an 'n' column, a string otherwise. */
  datatype Cell = Num(value: int) | Str(text: string)

  type Row = seq<Cell>

  // --------------------------------------------------------------- sample_wr

  /** GenWrites.sample_wr: draw i is population[int(random() * n)]; an empty population
      makes the first draw raise IndexError, and k == 0 draws nothing. */
  function DrawnWr(population: seq<int>, k: nat, unit: seq<Fraction>): (r: Result<seq<int>>)
    requires UnitDraws(unit, k)
    ensures r.Err? <==> population == [] && k > 0
    ensures r.Err? ==> r.error == EmptyPopulation
    ensures r.Ok? ==> |r.value| == k
  {
    if population == [] && k > 0 then Err(EmptyPopulation)
    else Ok(seq(k, i requires 0 <= i < k =>
      ScaledBelow(unit[i], |population|); population[Scaled(unit[i], |population|)]))
  }

  /** The loop of GenWrites.sample_wr. */
  method SampleWr(population: seq<int>, k: nat, unit: seq<Fraction>) returns (r: Result<seq<int>>)
    requires UnitDraws(unit, k)
    ensures r == DrawnWr(population, k, unit)
  {
    var n := |population|;
    var result := new int[k];
    for i := 0 to k
      invariant i > 0 ==> n > 0
      invariant forall j :: 0 <= j < i ==> Scaled(unit[j], n) < n && result[j] == population[Scaled(unit[j], n)]
    {
      var j := Scaled(unit[i], n);
      if n > 0 {
        ScaledBelow(unit[i], n);
      }
      if j >= n {
        assert population == [] && k > 0;
        return Err(EmptyPopulation);
      }
      result[i] := population[j];
    }
    assert !(population == [] && k > 0);
    assert forall j :: 0 <= j < k ==> result[..][j] == DrawnWr(population, k, unit).value[j];
    assert result[..] == DrawnWr(population, k, unit).value;
    r := Ok(result[..]);
  }

  /** Every draw is a valid index into the population, so every value drawn is a member. */
  lemma DrawnWrMembers(population: seq<int>, k: nat, unit: seq<Fraction>)
    requires UnitDraws(unit, k) && DrawnWr(population, k, unit).Ok?
    ensures forall i :: 0 <= i < k ==> DrawnWr(population, k, unit).value[i] in population
  {
    forall i | 0 <= i < k ensures DrawnWr(population, k, unit).value[i] in population {
      ScaledBelow(unit[i], |population|);
    }
  }

  // ------------------------------------------------------- value synthesis

  /** numlist for one column: numwrites values, shifted by the base value.
      random.sample raises ValueError when asked for more values than its range holds. */
  function NumList(spec: ColSpec, d: Draws, numrows: nat, numwrites: nat): (r: Result<seq<int>>)
    requires Fits(spec, d, numrows, numwrites)
    ensures r.Ok? ==> |r.value| == numwrites
  {
    var raw :=
      match spec.directive
      case Full => Sample(d.perm, numrows, numwrites)
      case Below(v) => DrawnWr(Range(v), numwrites, d.unit)
      case Above(v) =>
        if v >= numwrites then Sample(d.perm, v, numwrites) else DrawnWr(Range(v), numwrites, d.unit);
    match raw
    case Err(e) => Err(e)
    case Ok(nums) => Ok(Shift(nums, spec.basevalue))
  }

  /** With draw == 1, numwrites values are drawn without replacement from range(numrows):
      an error when numwrites > numrows, otherwise distinct values in
      [basevalue, basevalue + numrows). */
  lemma FullDistinct(spec: ColSpec, d: Draws, numrows: nat, numwrites: nat)
    requires spec.directive == Full && Fits(spec, d, numrows, numwrites)
    ensures NumList(spec, d, numrows, numwrites).Err? <==> numwrites > numrows
    ensures NumList(spec, d, numrows, numwrites).Ok? ==>
      var nums := NumList(spec, d, numrows, numwrites).value;
      Distinct(nums) && forall i :: 0 <= i < numwrites ==> spec.basevalue <= nums[i] < spec.basevalue + numrows
  {
    var s := Sample(d.perm, numrows, numwrites);
    if s.Ok? {
      ShiftFacts(s.value, spec.basevalue, numrows);
    }
  }

  /** With draw > 1 and numvalues = round(draw) >= numwrites, the values are pairwise
      distinct and lie in [basevalue, basevalue + numvalues). */
  lemma AboveDistinct(spec: ColSpec, d: Draws, numrows: nat, numwrites: nat)
    requires spec.directive.Above? && spec.directive.numvalues >= numwrites
    requires Fits(spec, d, numrows, numwrites)
    ensures NumList(spec, d, numrows, numwrites).Ok?
    ensures var nums := NumList(spec, d, numrows, numwrites).value;
      && Distinct(nums)
      && forall i :: 0 <= i < numwrites ==>
           spec.basevalue <= nums[i] < spec.basevalue + spec.directive.numvalues
  {
    var v := spec.directive.numvalues;
    ShiftFacts(Sample(d.perm, v, numwrites).value, spec.basevalue, v);
  }

  /** With draw < 1 and numvalues = round(numrows * draw), the values lie in
      [basevalue, basevalue + numvalues); with numvalues <= 0 and at least one value to
      draw, sample_wr fails. */
  lemma BelowInDomain(spec: ColSpec, d: Draws, numrows: nat, numwrites: nat)
    requires spec.directive.Below? && Fits(spec, d, numrows, numwrites)
    ensures NumList(spec, d, numrows, numwrites).Err? <==> spec.directive.numvalues <= 0 && numwrites > 0
    ensures NumList(spec, d, numrows, numwrites).Ok? ==>
      var nums := NumList(spec, d, numrows, numwrites).value;
      forall i :: 0 <= i < numwrites ==>
        spec.basevalue <= nums[i] < spec.basevalue + spec.directive.numvalues
  {
    var v := spec.directive.numvalues;
    var raw := DrawnWr(Range(v), numwrites, d.unit);
    if raw.Ok? {
      DrawnWrMembers(Range(v), numwrites, d.unit);
      forall i | 0 <= i < numwrites ensures 0 <= raw.value[i] < v {
        var j :| 0 <= j < |Range(v)| && Range(v)[j] == raw.value[i];
      }
    }
  }

  /** With draw > 1 and numvalues = round(draw) < numwrites, the values are drawn with
      replacement from [basevalue, basevalue + numvalues); an empty range fails as soon
      as a value is needed. */
  lemma AboveWithReplacement(spec: ColSpec, d: Draws, numrows: nat, numwrites: nat)
    requires spec.directive.Above? && spec.directive.numvalues < numwrites
    requires Fits(spec, d, numrows, numwrites)
    ensures NumList(spec, d, numrows, numwrites).Err? <==> spec.directive.numvalues <= 0 && numwrites > 0
    ensures NumList(spec, d, numrows, numwrites).Ok? ==>
      var nums := NumList(spec, d, numrows, numwrites).value;
      forall i :: 0 <= i < numwrites ==>
        spec.basevalue <= nums[i] < spec.basevalue + spec.directive.numvalues
  {
    var v := spec.directive.numvalues;
    var raw := DrawnWr(Range(v), numwrites, d.unit);
    if raw.Ok? {
      DrawnWrMembers(Range(v), numwrites, d.unit);
      forall i | 0 <= i < numwrites ensures 0 <= raw.value[i] < v {
        var j :| 0 <= j < |Range(v)| && Range(v)[j] == raw.value[i];
      }
    }
  }

  /** Whether one turn of the column loop raises: random.sample asked for more values
      than range(numrows) holds, sample_wr drawing from an empty range, or max() of the
      empty number list of a prefixed column. */
  predicate ColumnFails(spec: ColSpec, numrows: nat, numwrites: nat) {
    || (match spec.directive
        case Full => numwrites > numrows
        case Below(v) => v <= 0 && numwrites > 0
        case Above(v) => v < numwrites && v <= 0 && numwrites > 0)
    || (spec.attribute != "n" && numwrites == 0)
  }

  /** attvalues[i]: the integers themselves for 'n', the attribute name followed by
      str(num) for every other kind. */
  function Render(attribute: string, nums: seq<int>): (cells: seq<Cell>)
    ensures |cells| == |nums|
  {
    seq(|nums|, i requires 0 <= i < |nums| =>
      if attribute == "n" then Num(nums[i]) else Str(attribute + IntToString(nums[i])))
  }

  /** Numeric cells are the numbers, categorical cells their prefixed decimal renderings;
      either way distinct numbers give distinct cells. */
  lemma RenderFacts(attribute: string, nums: seq<int>)
    ensures attribute == "n" ==> forall i :: 0 <= i < |nums| ==> Render(attribute, nums)[i] == Num(nums[i])
    ensures attribute != "n" ==> forall i :: 0 <= i < |nums| ==>
      && Render(attribute, nums)[i].Str?
      && |attribute| <= |Render(attribute, nums)[i].text|
      && Render(attribute, nums)[i].text[..|attribute|] == attribute
      && ParseInt(Render(attribute, nums)[i].text[|attribute|..]) == nums[i]
    ensures Distinct(nums) ==> Distinct(Render(attribute, nums))
  {
    var cells := Render(attribute, nums);
    forall i | 0 <= i < |nums| && attribute != "n"
      ensures cells[i].text[..|attribute|] == attribute
      ensures ParseInt(cells[i].text[|attribute|..]) == nums[i]
    {
      assert cells[i].text[..|attribute|] == attribute;
      assert cells[i].text[|attribute|..] == IntToString(nums[i]);
      IntRoundTrip(nums[i]);
    }
    if Distinct(nums) {
      forall i, j | 0 <= i < j < |nums| ensures cells[i] != cells[j] {
      }
    }
  }

  /** schema[i]: 'numeric' for 'n', otherwise 'varchar(' + str(max(numlist)) + ')';
      max() of no values raises ValueError. */
  function Tag(attribute: string, nums: seq<int>): (r: Result<string>)
    ensures attribute == "n" ==> r == Ok("numeric")
    ensures r.Err? <==> attribute != "n" && nums == []
    ensures r.Err? ==> r.error == MaxOfEmpty
    ensures r.Ok? && attribute != "n" ==>
      exists m :: m in nums && (forall i :: 0 <= i < |nums| ==> nums[i] <= m)
                && r.value == "varchar(" + IntToString(m) + ")"
  {
    if attribute == "n" then Ok("numeric")
    else if nums == [] then Err(MaxOfEmpty)
    else
      var m := Max(nums);
      assert m in nums;
      Ok("varchar(" + IntToString(m) + ")")
  }

  /** attvalues[i] and schema[i]. */
  datatype Column = Column(values: seq<Cell>, tag: string)

  function MakeColumn(spec: ColSpec, d: Draws, numrows: nat, numwrites: nat): (r: Result<Column>)
    requires Fits(spec, d, numrows, numwrites)
    ensures r.Ok? ==> |r.value.values| == numwrites
  {
    match NumList(spec, d, numrows, numwrites)
    case Err(e) => Err(e)
    case Ok(nums) =>
      match Tag(spec.attribute, nums)
      case Err(e) => Err(e)
      case Ok(t) => Ok(Column(Render(spec.attribute, nums), t))
  }

  predicate AllFit(specs: seq<ColSpec>, draws: seq<Draws>, numrows: nat, numwrites: nat) {
    |draws| == |specs| && forall i :: 0 <= i < |specs| ==> Fits(specs[i], draws[i], numrows, numwrites)
  }

  /** The first i turns of the while loop over the columns: their columns, or the error
      of the first that fails. */
  function ColumnsUpTo(specs: seq<ColSpec>, draws: seq<Draws>, numrows: nat, numwrites: nat, i: nat): (r: Result<seq<Column>>)
    requires AllFit(specs, draws, numrows, numwrites) && i <= |specs|
    ensures r.Ok? ==> |r.value| == i
    ensures r.Ok? ==> forall c :: 0 <= c < i ==> |r.value[c].values| == numwrites
    decreases i
  {
    if i == 0 then Ok([])
    else
      match ColumnsUpTo(specs, draws, numrows, numwrites, i - 1)
      case Err(e) => Err(e)
      case Ok(cs) =>
        match MakeColumn(specs[i - 1], draws[i - 1], numrows, numwrites)
        case Err(e) => Err(e)
        case Ok(c) => Ok(cs + [c])
  }

  /** The whole loop. */
  function Columns(specs: seq<ColSpec>, draws: seq<Draws>, numrows: nat, numwrites: nat): (r: Result<seq<Column>>)
    requires AllFit(specs, draws, numrows, numwrites)
    ensures r.Ok? ==> |r.value| == |specs|
    ensures r.Ok? ==> forall c :: 0 <= c < |specs| ==> |r.value[c].values| == numwrites
  {
    ColumnsUpTo(specs, draws, numrows, numwrites, |specs|)
  }

  /** One more turn of the loop after i successful ones. */
  lemma ColumnsNext(specs: seq<ColSpec>, draws: seq<Draws>, numrows: nat, numwrites: nat, i: nat, cols: seq<Column>)
    requires AllFit(specs, draws, numrows, numwrites) && i < |specs|
    requires ColumnsUpTo(specs, draws, numrows, numwrites, i) == Ok(cols)
    ensures var c := MakeColumn(specs[i], draws[i], numrows, numwrites);
      ColumnsUpTo(specs, draws, numrows, numwrites, i + 1) == if c.Err? then Err(c.error) else Ok(cols + [c.value])
  {
  }

  /** One turn of the loop fails exactly under ColumnFails. */
  lemma MakeColumnFailIff(spec: ColSpec, d: Draws, numrows: nat, numwrites: nat)
    requires Fits(spec, d, numrows, numwrites)
    ensures MakeColumn(spec, d, numrows, numwrites).Err? <==> ColumnFails(spec, numrows, numwrites)
  {
    match spec.directive {
      case Full => FullDistinct(spec, d, numrows, numwrites);
      case Below(v) => BelowInDomain(spec, d, numrows, numwrites);
      case Above(v) =>
        if v >= numwrites {
          AboveDistinct(spec, d, numrows, numwrites);
        } else {
          AboveWithReplacement(spec, d, numrows, numwrites);
        }
    }
  }

  /** The column loop of GenWrites.gentable fails exactly when some column fails. */
  lemma ColumnsFailIff(specs: seq<ColSpec>, draws: seq<Draws>, numrows: nat, numwrites: nat)
    requires AllFit(specs, draws, numrows, numwrites)
    ensures Columns(specs, draws, numrows, numwrites).Err? <==>
      exists c :: 0 <= c < |specs| && ColumnFails(specs[c], numrows, numwrites)
  {
    ColumnsUpToFailIff(specs, draws, numrows, numwrites, |specs|);
  }

  lemma {:induction false} ColumnsUpToFailIff(specs: seq<ColSpec>, draws: seq<Draws>, numrows: nat, numwrites: nat, i: nat)
    requires AllFit(specs, draws, numrows, numwrites) && i <= |specs|
    ensures ColumnsUpTo(specs, draws, numrows, numwrites, i).Err? <==>
      exists c :: 0 <= c < i && ColumnFails(specs[c], numrows, numwrites)
    decreases i
  {
    if i > 0 {
      ColumnsUpToFailIff(specs, draws, numrows, numwrites, i - 1);
      var prev := ColumnsUpTo(specs, draws, numrows, numwrites, i - 1);
      if prev.Err? {
        ColumnsStayFailed(specs, draws, numrows, numwrites, i);
        var c :| 0 <= c < i - 1 && ColumnFails(specs[c], numrows, numwrites);
        assert 0 <= c < i;
      } else {
        ColumnsNext(specs, draws, numrows, numwrites, i - 1, prev.value);
        MakeColumnFailIff(specs[i - 1], draws[i - 1], numrows, numwrites);
        if !ColumnFails(specs[i - 1], numrows, numwrites) {
          forall c | 0 <= c < i ensures !ColumnFails(specs[c], numrows, numwrites) {
            if c < i - 1 {
              assert 0 <= c < i - 1;
            }
          }
        }
      }
    }
  }

  /** Once a column fails, the whole loop fails with its error. */
  lemma {:induction false} ColumnsFailFirst(specs: seq<ColSpec>, draws: seq<Draws>, numrows: nat, numwrites: nat, i: nat, j: nat)
    requires AllFit(specs, draws, numrows, numwrites) && i <= j <= |specs|
    requires ColumnsUpTo(specs, draws, numrows, numwrites, i).Err?
    ensures ColumnsUpTo(specs, draws, numrows, numwrites, j) == ColumnsUpTo(specs, draws, numrows, numwrites, i)
    decreases j - i
  {
    if i < j {
      ColumnsFailFirst(specs, draws, numrows, numwrites, i, j - 1);
      ColumnsStayFailed(specs, draws, numrows, numwrites, j);
    }
  }

  /** A failed loop stays failed for one more turn. */
  lemma ColumnsStayFailed(specs: seq<ColSpec>, draws: seq<Draws>, numrows: nat, numwrites: nat, j: nat)
    requires AllFit(specs, draws, numrows, numwrites) && 0 < j <= |specs|
    requires ColumnsUpTo(specs, draws, numrows, numwrites, j - 1).Err?
    ensures ColumnsUpTo(specs, draws, numrows, numwrites, j) == ColumnsUpTo(specs, draws, numrows, numwrites, j - 1)
  {
  }

  function Values(cs: seq<Column>): seq<seq<Cell>> {
    seq(|cs|, c requires 0 <= c < |cs| => cs[c].values)
  }

  /** The rows GenWrites.gentable computes, as a set: list(writes) only orders them. */
  function Generated(numrows: nat, numkeys: nat, numwrites: nat, colspecs: seq<ColSpec>, draws: seq<Draws>): Result<set<Row>>
    requires AllFit(colspecs, draws, numrows, numwrites)
  {
    match Columns(colspecs, draws, numrows, numwrites)
    case Err(e) => Err(e)
    case Ok(cs) => Deduplicated(Zip(Values(cs), numwrites), |cs|, numkeys)
  }

  /** Generation succeeds only with at most as many keys as columns; every generated row
      is one of the zipped data rows (the schema is not among them), has one cell per
      column, and no two rows share their first numkeys cells; there are at most
      numwrites rows. */
  lemma GeneratedShape(numrows: nat, numkeys: nat, numwrites: nat, colspecs: seq<ColSpec>, draws: seq<Draws>)
    requires AllFit(colspecs, draws, numrows, numwrites)
    ensures Generated(numrows, numkeys, numwrites, colspecs, draws).Ok? ==> numkeys <= |colspecs|
    ensures Columns(colspecs, draws, numrows, numwrites).Ok? ==>
      (Generated(numrows, numkeys, numwrites, colspecs, draws).Ok? <==> numkeys <= |colspecs|)
    ensures Generated(numrows, numkeys, numwrites, colspecs, draws).Ok? ==>
      var rows := Generated(numrows, numkeys, numwrites, colspecs, draws).value;
      var zipped := Zip(Values(Columns(colspecs, draws, numrows, numwrites).value), numwrites);
      && |rows| <= numwrites
      && (forall r :: r in rows ==> r in zipped && |r| == |colspecs|)
      && forall a, b :: a in rows && b in rows && a[..numkeys] == b[..numkeys] ==> a == b
  {
    var cols := Columns(colspecs, draws, numrows, numwrites);
    if cols.Ok? {
      var rows := Zip(Values(cols.value), numwrites);
      DeduplicatedUnique(rows, |cols.value|, numkeys);
      if |cols.value| == 0 {
        assert rows == [];
      }
    }
  }

  /** With every column a key, the rows are exactly the distinct zipped rows. */
  lemma AllKeysKeepsEveryRow(numrows: nat, numwrites: nat, colspecs: seq<ColSpec>, draws: seq<Draws>)
    requires AllFit(colspecs, draws, numrows, numwrites)
    requires Columns(colspecs, draws, numrows, numwrites).Ok?
    ensures Generated(numrows, |colspecs|, numwrites, colspecs, draws).Ok?
    ensures forall r :: (r in Generated(numrows, |colspecs|, numwrites, colspecs, draws).value
      <==> r in Zip(Values(Columns(colspecs, draws, numrows, numwrites).value), numwrites))
  {
  }

  /** A key first written and later overwritten keeps the rest of its last row. */
  lemma GeneratedLastWins(numrows: nat, numkeys: nat, numwrites: nat, colspecs: seq<ColSpec>, draws: seq<Draws>, i: nat)
    requires AllFit(colspecs, draws, numrows, numwrites)
    requires Columns(colspecs, draws, numrows, numwrites).Ok?
    requires 1 <= numkeys <= |colspecs| && i < numwrites
    requires LastOfKey(Zip(Values(Columns(colspecs, draws, numrows, numwrites).value), numwrites), numkeys, i)
    ensures Generated(numrows, numkeys, numwrites, colspecs, draws).Ok?
    ensures Zip(Values(Columns(colspecs, draws, numrows, numwrites).value), numwrites)[i]
        in Generated(numrows, numkeys, numwrites, colspecs, draws).value
  {
    var cs := Columns(colspecs, draws, numrows, numwrites).value;
    DeduplicatedLastWins(Zip(Values(cs), numwrites), |cs|, numkeys, i);
  }

  /** One turn of the column loop of GenWrites.gentable. */
  method SynthColumn(spec: ColSpec, d: Draws, numrows: nat, numwrites: nat) returns (r: Result<Column>)
    requires Fits(spec, d, numrows, numwrites)
    ensures r == MakeColumn(spec, d, numrows, numwrites)
  {
    var raw: Result<seq<int>>;
    match spec.directive {
      case Full =>
        raw := Sample(d.perm, numrows, numwrites);
      case Below(v) =>
        raw := SampleWr(Range(v), numwrites, d.unit);
      case Above(v) =>
        if v >= numwrites {
          raw := Sample(d.perm, v, numwrites);
        } else {
          raw := SampleWr(Range(v), numwrites, d.unit);
        }
    }
    if raw.Err? {
      return Err(raw.error);
    }
    var numlist := Shift(raw.value, spec.basevalue);
    if spec.attribute == "n" {
      r := Ok(Column(Render(spec.attribute, numlist), "numeric"));
    } else if numlist == [] {
      r := Err(MaxOfEmpty);
    } else {
      r := Ok(Column(Render(spec.attribute, numlist), "varchar(" + IntToString(Max(numlist)) + ")"));
    }
  }

  /** GenWrites.gentable: the deduplicated rows, each once, or the error that stops it. */
  method Gentable(numrows: nat, numkeys: nat, numwrites: nat, numcols: nat, colspecs: seq<ColSpec>, draws: seq<Draws>)
    returns (r: Result<seq<Row>>)
    requires |colspecs| == numcols && AllFit(colspecs, draws, numrows, numwrites)
    ensures var g := Generated(numrows, numkeys, numwrites, colspecs, draws);
      && (r.Err? <==> g.Err?)
      && (r.Err? ==> r.error == g.error)
      && (r.Ok? ==> Distinct(r.value) && Elements(r.value) == g.value)
  {
    var attvalues: seq<seq<Cell>> := seq(numcols, _ => []);
    var schema: seq<string> := seq(numcols, _ => "");
    ghost var cols: seq<Column> := [];
    var i := 0;
    while i < numcols
      invariant 0 <= i <= numcols && |cols| == i
      invariant |attvalues| == numcols && |schema| == numcols
      invariant ColumnsUpTo(colspecs, draws, numrows, numwrites, i) == Ok(cols)
      invariant forall k {:trigger cols[k]} :: 0 <= k < i ==> attvalues[k] == cols[k].values && schema[k] == cols[k].tag
    {
      var col := SynthColumn(colspecs[i], draws[i], numrows, numwrites);
      ColumnsNext(colspecs, draws, numrows, numwrites, i, cols);
      if col.Err? {
        ColumnsFailFirst(colspecs, draws, numrows, numwrites, i + 1, numcols);
        return Err(col.error);
      }
      attvalues := attvalues[i := col.value.values];
      schema := schema[i := col.value.tag];
      cols := cols + [col.value];
      i := i + 1;
    }
    var vals := attvalues;
    forall k | 0 <= k < numcols ensures vals[k] == Values(cols)[k] { }
    assert vals == Values(cols);
    var writes := Deduplicated(Zip(vals, numwrites), numcols, numkeys);
    if writes.Err? {
      return Err(writes.error);
    }
    var rows := ListOf(writes.value);
    r := Ok(rows);
  }

  // -------------------------------------------------------------- the cursor

  /** The generator object: its configuration, the generated rows, and the position of
      the next batch. */
  class GenWrites {
    const numrows: nat
    const numkeys: nat
    const numwrites: nat
    const writes: seq<Row>
    var counter: int

    /** The rows are list(set), so none appears twice. */
    predicate Valid() {
      Distinct(writes)
    }

    constructor (numrows: nat, numkeys: nat, numwrites: nat, writes: seq<Row>)
      requires Distinct(writes)
      ensures Valid()
      ensures this.numrows == numrows && this.numkeys == numkeys && this.numwrites == numwrites
      ensures this.writes == writes && counter == 0
    {
      this.numrows := numrows;
      this.numkeys := numkeys;
      this.numwrites := numwrites;
      this.writes := writes;
      counter := 0;
    }

    /** getWrite: the row at a position, None when the position is negative or past the end. */
    function GetWrite(cursor: int): (r: Option<Row>)
      ensures r.None? <==> cursor < 0 || cursor >= |writes|
      ensures r.Some? ==> r.value == writes[cursor]
    {
      if cursor < 0 then None
      else if cursor >= |writes| then None
      else Some(writes[cursor])
    }

    /** [getWrite(c) for c in range(start, start + count)]; empty when count <= 0. */
    function Window(start: int, count: int): (w: seq<Option<Row>>)
      ensures |w| == if count < 0 then 0 else count
      ensures forall i :: 0 <= i < |w| ==> w[i] == GetWrite(start + i)
    {
      seq(if count < 0 then 0 else count, i => GetWrite(start + i))
    }

    /** getWrites: the next count positions from the counter, which moves by count
        (backwards for a negative count, which hands out nothing). */
    method GetWrites(count: int) returns (r: seq<Option<Row>>)
      modifies this`counter
      ensures counter == old(counter) + count
      ensures r == Window(old(counter), count)
    {
      var s := counter;
      counter := counter + count;
      r := Window(s, count);
    }

    /** Two consecutive batches of sizes a and b are the batch of size a + b. */
    lemma WindowsAdjoin(start: int, a: nat, b: nat)
      ensures Window(start, a) + Window(start + a, b) == Window(start, a + b)
    {
      var w := Window(start, a) + Window(start + a, b);
      forall i | 0 <= i < a + b ensures w[i] == Window(start, a + b)[i] {
        if i >= a {
          assert w[i] == Window(start + a, b)[i - a];
        }
      }
    }

    /** A batch holds a row exactly when the row's position is in the batch's range. */
    lemma WindowHolds(start: int, count: int, k: nat)
      requires Valid() && k < |writes|
      ensures Some(writes[k]) in Window(start, count) <==> start <= k < start + count
    {
      var w := Window(start, count);
      if Some(writes[k]) in w {
        var i :| 0 <= i < |w| && w[i] == Some(writes[k]);
        assert writes[start + i] == writes[k];
      }
      if start <= k < start + count {
        assert w[k - start] == Some(writes[k]);
      }
    }

    /** Batches over disjoint ranges never hand out the same row. */
    lemma DisjointWindows(s1: int, c1: int, s2: int, c2: int)
      requires Valid() && s1 + c1 <= s2
      ensures forall x :: Some(x) in Window(s1, c1) ==> Some(x) !in Window(s2, c2)
    {
      forall x | Some(x) in Window(s1, c1) ensures Some(x) !in Window(s2, c2) {
        var w := Window(s1, c1);
        var i :| 0 <= i < |w| && w[i] == Some(x);
        var k := s1 + i;
        assert 0 <= k < |writes| && writes[k] == x;
        WindowHolds(s2, c2, k);
      }
    }
  }

  /** GenWrites(numrows, numkeys, numwrites, specfile), once the specification lines are
      column specifications: the generated rows and a counter at 0. */
  method NewGenWrites(numrows: nat, numkeys: nat, numwrites: nat, colspecs: seq<ColSpec>, draws: seq<Draws>)
    returns (r: Result<GenWrites>)
    requires AllFit(colspecs, draws, numrows, numwrites)
    ensures var g := Generated(numrows, numkeys, numwrites, colspecs, draws);
      && (r.Err? <==> g.Err?)
      && (r.Ok? ==> fresh(r.value) && r.value.Valid() && r.value.counter == 0
                    && Elements(r.value.writes) == g.value
                    && r.value.numrows == numrows && r.value.numkeys == numkeys
                    && r.value.numwrites == numwrites)
  {
    var writes := Gentable(numrows, numkeys, numwrites, |colspecs|, colspecs, draws);
    if writes.Err? {
      return Err(writes.error);
    }
    var g := new GenWrites(numrows, numkeys, numwrites, writes.value);
    r := Ok(g);
  }

  // --------------------------------------------------------------- projection

  /** [l[j] for j in range(len(l)) if j in ATTLIST]. */
  function Project<T>(t: seq<T>, attlist: seq<int>): (r: seq<T>)
    ensures |r| <= |t|
    ensures forall x :: x in r ==> x in t
    decreases |t|
  {
    if t == [] then []
    else Project(t[..|t| - 1], attlist) + (if |t| - 1 in attlist then [t[|t| - 1]] else [])
  }

  /** The positions below n that the attribute list names, in ascending order. */
  function Positions(n: nat, attlist: seq<int>): (ps: seq<int>)
    ensures forall k :: 0 <= k < |ps| ==> 0 <= ps[k] < n && ps[k] in attlist
    ensures forall k, l :: 0 <= k < l < |ps| ==> ps[k] < ps[l]
    ensures forall j :: 0 <= j < n && j in attlist ==> j in ps
    decreases n
  {
    if n == 0 then [] else Positions(n - 1, attlist) + (if n - 1 in attlist then [n - 1] else [])
  }

  /** The projection keeps exactly the fields at the listed positions, in ascending
      position order. */
  lemma {:induction false} ProjectPositions<T>(t: seq<T>, attlist: seq<int>)
    ensures |Project(t, attlist)| == |Positions(|t|, attlist)|
    ensures forall k :: 0 <= k < |Project(t, attlist)| ==> Project(t, attlist)[k] == t[Positions(|t|, attlist)[k]]
    decreases |t|
  {
    if t != [] {
      var n := |t| - 1;
      var init := t[..n];
      ProjectPositions(init, attlist);
      var p, ps := Project(init, attlist), Positions(n, attlist);
      var tail := if n in attlist then [t[n]] else [];
      var ptail := if n in attlist then [n] else [];
      assert Project(t, attlist) == p + tail;
      assert Positions(|t|, attlist) == ps + ptail;
      forall k | 0 <= k < |p| + |tail| ensures (p + tail)[k] == t[(ps + ptail)[k]] {
        if k < |p| {
          assert (p + tail)[k] == p[k] == init[ps[k]];
          assert (ps + ptail)[k] == ps[k];
        }
      }
    }
  }

  /** Only which in-range positions are listed matters: their order, repeats and any
      position outside the row do not change the projection. */
  lemma {:induction false} ProjectSetOnly<T>(t: seq<T>, a: seq<int>, b: seq<int>)
    requires forall j :: 0 <= j < |t| ==> (j in a <==> j in b)
    ensures Project(t, a) == Project(t, b)
    decreases |t|
  {
    if t != [] {
      ProjectSetOnly(t[..|t| - 1], a, b);
    }
  }

  /** Listing every position keeps the whole row; listing none keeps nothing. */
  lemma {:induction false} ProjectExtremes<T>(t: seq<T>, attlist: seq<int>)
    ensures (forall j :: 0 <= j < |t| ==> j in attlist) ==> Project(t, attlist) == t
    ensures (forall j :: 0 <= j < |t| ==> j !in attlist) ==> Project(t, attlist) == []
    decreases |t|
  {
    if t != [] {
      ProjectExtremes(t[..|t| - 1], attlist);
    }
  }
}
