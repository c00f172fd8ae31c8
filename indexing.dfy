/** The read experiment of Indexing/reads.py: the number of '?' markers in the query
    must match the number of attribute positions given, and query i is bound to the
    projection of row i of the generator onto those positions. */
module IndexingReads {
  import opened Common
  import opened Text
  import opened Workload

  /** len(re.findall('\?', query_str)). */
  function ParamCount(query: string): (n: nat)
    ensures n == multiset(query)['?']
  {
    FindAllCount(query, '?');
    |FindAll(query, '?')|
  }

  /** The parameters experiment() binds for each of its nbqueries queries, without the
      statements it executes: () when the query has no markers, otherwise the projection
      of getWrite(i), where list(None) raises TypeError once i passes the last row. A
      marker count other than len(ATTLIST) is refused before anything runs. */
  method QueryParams(g: GenWrites, query: string, attlist: seq<int>, nbqueries: int)
    returns (r: Result<seq<Row>>)
    ensures var n := ParamCount(query);
      && (r.Err? <==> |attlist| != n || (n > 0 && nbqueries > |g.writes|))
      && (|attlist| != n ==> r == Err(ParameterCountMismatch))
      && (|attlist| == n && r.Err? ==> r.error == NotATuple)
      && (r.Ok? ==> |r.value| == (if nbqueries < 0 then 0 else nbqueries))
      && (r.Ok? ==> forall i :: 0 <= i < |r.value| ==>
            r.value[i] == if n == 0 then [] else Project(g.writes[i], attlist))
  {
    var nbParams := ParamCount(query);
    if |attlist| != nbParams {
      return Err(ParameterCountMismatch);
    }
    var params: seq<Row> := [];
    var i := 0;
    while i < nbqueries
      invariant 0 <= i <= (if nbqueries < 0 then 0 else nbqueries) && |params| == i
      invariant nbParams > 0 ==> i <= |g.writes|
      invariant forall j :: 0 <= j < i ==> params[j] == if nbParams == 0 then [] else Project(g.writes[j], attlist)
    {
      if nbParams == 0 {
        params := params + [[]];
      } else {
        var t := g.GetWrite(i);
        if t.None? {
          return Err(NotATuple);
        }
        params := params + [Project(t.value, attlist)];
      }
      i := i + 1;
    }
    r := Ok(params);
  }

  /** With as many positions as markers, every query binds exactly as many values as
      the query has markers, provided all listed positions are distinct and inside the row. */
  lemma BoundParamsFit(row: Row, query: string, attlist: seq<int>)
    requires |attlist| == ParamCount(query)
    requires forall k :: 0 <= k < |attlist| ==> 0 <= attlist[k] < |row|
    requires forall k, l :: 0 <= k < l < |attlist| ==> attlist[k] != attlist[l]
    ensures |Project(row, attlist)| == ParamCount(query)
  {
    ProjectPositions(row, attlist);
    var ps := Positions(|row|, attlist);
    assert Elements(ps) == Elements(attlist) by {
      forall x | x in Elements(attlist) ensures x in Elements(ps) {
        var k :| 0 <= k < |attlist| && attlist[k] == x;
      }
    }
    assert Distinct(ps);
    assert Distinct(attlist);
    ElementsAtMost(ps);
    ElementsAtMost(attlist);
  }
}
