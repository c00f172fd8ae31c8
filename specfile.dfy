/** Reading a column specification file: the lines that are kept, as
    GenWrites.__init__ (and gentable's main) filter them, and the split of each
    kept line into its space-separated fields. */
module SpecFile {
  import opened Common
  import opened Text

  /** Python 2's string.whitespace: space, tab, newline, vertical tab, form feed, carriage return. */
  predicate IsSpace(c: char) {
    c == ' ' || '\t' <= c <= '\r'
  }

  predicate IsBlank(s: string) {
    forall k :: 0 <= k < |s| ==> IsSpace(s[k])
  }

  function TrimLeft(s: string): (r: string)
    ensures r == [] || !IsSpace(r[0])
    ensures r == [] <==> IsBlank(s)
    decreases |s|
  {
    if s != [] && IsSpace(s[0]) then TrimLeft(s[1..]) else s
  }

  function TrimRight(s: string): (r: string)
    ensures |r| <= |s| && r == s[..|r|]
    ensures r == [] || !IsSpace(r[|r| - 1])
    ensures r == [] <==> IsBlank(s)
    decreases |s|
  {
    if s != [] && IsSpace(s[|s| - 1]) then TrimRight(s[..|s| - 1]) else s
  }

  /** str.strip(): leading and trailing whitespace removed. */
  function Strip(s: string): (r: string)
    ensures r == [] || (!IsSpace(r[0]) && !IsSpace(r[|r| - 1]))
    ensures r == [] <==> IsBlank(s)
  {
    TrimRight(TrimLeft(s))
  }

  /** s.translate(maketrans("",""), "\n"): every newline deleted. */
  function DeleteNewlines(s: string): (r: string)
    ensures '\n' !in r
    ensures |r| <= |s|
    decreases |s|
  {
    if s == [] then [] else (if s[0] == '\n' then [] else [s[0]]) + DeleteNewlines(s[1..])
  }

  lemma {:induction false} DeleteNewlinesAppend(a: string, b: string)
    ensures DeleteNewlines(a + b) == DeleteNewlines(a) + DeleteNewlines(b)
  {
    if a != [] {
      DeleteNewlinesAppend(a[1..], b);
      assert (a + b)[1..] == a[1..] + b;
    } else {
      assert a + b == b;
    }
  }

  /** What a kept line becomes: stripped, then with its newlines deleted. */
  function Cleaned(l: string): string {
    DeleteNewlines(Strip(l))
  }

  /** A cleaned line is empty exactly when the line is blank; otherwise it starts and
      ends with the first and last non-blank characters of the line. */
  lemma CleanedEnds(l: string)
    ensures Cleaned(l) == [] <==> IsBlank(l)
    ensures Cleaned(l) != [] ==> !IsSpace(Cleaned(l)[0]) && !IsSpace(Cleaned(l)[|Cleaned(l)| - 1])
  {
    var s := Strip(l);
    if s != [] {
      if |s| == 1 {
        assert s == [s[0]];
      } else {
        var mid := s[1..|s| - 1];
        assert s == [s[0]] + mid + [s[|s| - 1]];
        DeleteNewlinesAppend([s[0]] + mid, [s[|s| - 1]]);
        DeleteNewlinesAppend([s[0]], mid);
      }
    }
  }

  /** The first comprehension: lines longer than one character once their newlines are
      deleted, each stripped and cleaned of newlines. */
  function AllLines(filelines: seq<string>): (r: seq<string>)
    ensures |r| <= |filelines|
    decreases |filelines|
  {
    if filelines == [] then []
    else
      (if |DeleteNewlines(filelines[0])| > 1 then [Cleaned(filelines[0])] else [])
      + AllLines(filelines[1..])
  }

  /** The comment filter l[0] != '/', which raises IndexError on an empty line. */
  function DropComments(lines: seq<string>): (r: Result<seq<string>>)
    ensures r.Err? <==> [] in lines
    ensures r.Err? ==> r.error == BlankSpecLine
    ensures r.Ok? ==> |r.value| <= |lines|
    ensures r.Ok? ==> forall i :: 0 <= i < |r.value| ==> r.value[i] != [] && r.value[i][0] != '/'
    decreases |lines|
  {
    if lines == [] then Ok([])
    else if lines[0] == [] then Err(BlankSpecLine)
    else
      match DropComments(lines[1..])
      case Err(e) => Err(e)
      case Ok(rest) => Ok((if lines[0][0] != '/' then [lines[0]] else []) + rest)
  }

  /** The second filter ll[0] != ' ', over lines already known to be non-empty. */
  function DropIndented(lines: seq<string>): (r: seq<string>)
    requires forall i :: 0 <= i < |lines| ==> lines[i] != []
    ensures |r| <= |lines|
    decreases |lines|
  {
    if lines == [] then []
    else (if lines[0][0] != ' ' then [lines[0]] else []) + DropIndented(lines[1..])
  }

  /** The `lines` list of the source, as written: a blank line of two or more characters
      survives the length test, is empty once stripped, and makes l[0] raise. */
  function KeptLinesAsWritten(filelines: seq<string>): (r: Result<seq<string>>)
    ensures r.Err? ==> r.error == BlankSpecLine
    ensures r.Ok? ==> |r.value| <= |filelines|
  {
    match DropComments(AllLines(filelines))
    case Err(e) => Err(e)
    case Ok(ls) => Ok(DropIndented(ls))
  }

  /** Whether the corrected filter keeps a line. */
  predicate Keeps(l: string) {
    && |DeleteNewlines(l)| > 1
    && Cleaned(l) != []
    && Cleaned(l)[0] != '/'
    && Cleaned(l)[0] != ' '
  }

  /** The corrected filter: blank lines are dropped like short ones. */
  function KeptLines(filelines: seq<string>): (r: seq<string>)
    ensures |r| <= |filelines|
    decreases |filelines|
  {
    if filelines == [] then []
    else (if Keeps(filelines[0]) then [Cleaned(filelines[0])] else []) + KeptLines(filelines[1..])
  }

  /** The filter as written fails exactly when some line of more than one character
      (newlines not counted) is made only of whitespace. */
  lemma AsWrittenFailsOnBlank(filelines: seq<string>)
    ensures KeptLinesAsWritten(filelines).Err?
        <==> exists l :: l in filelines && |DeleteNewlines(l)| > 1 && IsBlank(l)
  {
    AllLinesBlank(filelines);
  }

  lemma {:induction false} AllLinesBlank(filelines: seq<string>)
    ensures [] in AllLines(filelines)
        <==> exists l :: l in filelines && |DeleteNewlines(l)| > 1 && IsBlank(l)
    decreases |filelines|
  {
    if filelines != [] {
      var l := filelines[0];
      var tail := filelines[1..];
      AllLinesBlank(tail);
      CleanedEnds(l);
      var head := if |DeleteNewlines(l)| > 1 then [Cleaned(l)] else [];
      assert AllLines(filelines) == head + AllLines(tail);
      assert forall x :: x in filelines <==> x == l || x in tail;
    }
  }

  /** The smallest input that shows the fault: one line of three spaces. */
  lemma BlankLineRaises()
    ensures KeptLinesAsWritten(["   \n"]) == Err(BlankSpecLine)
  {
    var l := "   \n";
    assert DeleteNewlines(l) == "   ";
    assert IsBlank(l);
    CleanedEnds(l);
    assert AllLines([l]) == [Cleaned(l)];
  }

  lemma {:induction false} DropIndentedAppend(a: seq<string>, b: seq<string>)
    requires forall i :: 0 <= i < |a| ==> a[i] != []
    requires forall i :: 0 <= i < |b| ==> b[i] != []
    ensures DropIndented(a + b) == DropIndented(a) + DropIndented(b)
    decreases |a|
  {
    if a != [] {
      DropIndentedAppend(a[1..], b);
      assert (a + b)[0] == a[0] && (a + b)[1..] == a[1..] + b;
      var head := if a[0][0] != ' ' then [a[0]] else [];
      assert DropIndented(a + b) == head + DropIndented(a[1..] + b);
      assert DropIndented(a) == head + DropIndented(a[1..]);
    } else {
      assert a + b == b;
    }
  }

  /** On every specification file that the code as written accepts, the corrected
      filter keeps the same lines. */
  lemma {:induction false} KeptLinesAgree(filelines: seq<string>)
    requires KeptLinesAsWritten(filelines).Ok?
    ensures KeptLines(filelines) == KeptLinesAsWritten(filelines).value
    decreases |filelines|
  {
    if filelines != [] {
      var l := filelines[0];
      var tail := filelines[1..];
      var c := Cleaned(l);
      if |DeleteNewlines(l)| > 1 {
        var all := AllLines(filelines);
        assert all == [c] + AllLines(tail);
        assert all[1..] == AllLines(tail);
        assert c != [];
        var rest := DropComments(AllLines(tail));
        assert rest.Ok?;
        KeptLinesAgree(tail);
        var kept := if c[0] != '/' then [c] else [];
        assert DropComments(all) == Ok(kept + rest.value);
        DropIndentedAppend(kept, rest.value);
      } else {
        assert AllLines(filelines) == AllLines(tail);
        KeptLinesAgree(tail);
      }
    }
  }

  /** Every line the corrected filter keeps is non-empty, has no leading or trailing
      whitespace and no newline, and is not a '/' comment. */
  lemma {:induction false} KeptLinesShape(filelines: seq<string>)
    ensures forall i :: 0 <= i < |KeptLines(filelines)| ==>
      var l := KeptLines(filelines)[i];
      && l != [] && '\n' !in l && l[0] != '/'
      && !IsSpace(l[0]) && !IsSpace(l[|l| - 1])
    decreases |filelines|
  {
    if filelines != [] {
      KeptLinesShape(filelines[1..]);
      CleanedEnds(filelines[0]);
    }
  }

  /** The corrected filter keeps a line exactly when its cleaned form passes every test. */
  lemma {:induction false} KeptLinesMembers(filelines: seq<string>, l: string)
    ensures l in KeptLines(filelines) <==> exists i :: 0 <= i < |filelines| && Keeps(filelines[i]) && Cleaned(filelines[i]) == l
    decreases |filelines|
  {
    if filelines != [] {
      KeptLinesMembers(filelines[1..], l);
      if exists i :: 0 <= i < |filelines| && Keeps(filelines[i]) && Cleaned(filelines[i]) == l {
        var i :| 0 <= i < |filelines| && Keeps(filelines[i]) && Cleaned(filelines[i]) == l;
        if i > 0 {
          assert filelines[1..][i - 1] == filelines[i];
        }
      }
      if l in KeptLines(filelines[1..]) {
        var i :| 0 <= i < |filelines[1..]| && Keeps(filelines[1..][i]) && Cleaned(filelines[1..][i]) == l;
        assert filelines[i + 1] == filelines[1..][i];
      }
    }
  }

  /** The corrected filter keeps the lines in file order: filtering two parts of a file
      and concatenating gives the filtered file. */
  lemma {:induction false} KeptLinesAppend(a: seq<string>, b: seq<string>)
    ensures KeptLines(a + b) == KeptLines(a) + KeptLines(b)
    decreases |a|
  {
    if a != [] {
      assert (a + b)[0] == a[0];
      assert (a + b)[1..] == a[1..] + b;
      KeptLinesAppend(a[1..], b);
    } else {
      assert a + b == b;
    }
  }

  /** colspecs = [l.split(' ') for l in lines], over the corrected lines. */
  function ColumnSpecs(filelines: seq<string>): (specs: seq<seq<string>>)
    ensures |specs| == |KeptLines(filelines)|
  {
    var lines := KeptLines(filelines);
    seq(|lines|, i requires 0 <= i < |lines| => Split(lines[i], ' '))
  }

  /** Each column specification has a non-empty first field (the kind or prefix), no
      field holds a space, and the fields join back, with single spaces, to the line
      they came from. */
  lemma ColumnSpecsShape(filelines: seq<string>)
    ensures |ColumnSpecs(filelines)| == |KeptLines(filelines)|
    ensures forall i :: 0 <= i < |ColumnSpecs(filelines)| ==>
      ColumnSpecs(filelines)[i][0] != [] && Join(ColumnSpecs(filelines)[i], ' ') == KeptLines(filelines)[i]
    ensures forall i, j :: 0 <= i < |ColumnSpecs(filelines)| && 0 <= j < |ColumnSpecs(filelines)[i]| ==>
      ' ' !in ColumnSpecs(filelines)[i][j]
  {
    var lines := KeptLines(filelines);
    KeptLinesShape(filelines);
    forall i | 0 <= i < |lines|
      ensures Split(lines[i], ' ')[0] != [] && Join(Split(lines[i], ' '), ' ') == lines[i]
    {
      JoinSplit(lines[i], ' ');
      assert lines[i][0] != ' ';
    }
    forall i | 0 <= i < |lines| ensures forall j :: 0 <= j < |Split(lines[i], ' ')| ==> ' ' !in Split(lines[i], ' ')[j] {
      SplitPiecesFree(lines[i], ' ');
    }
  }
}
