/** The line-matching engine of src/lib.rs: `search` and
    `search_case_insensitive`, each a loop over the lines of the file contents
    that keeps, in order, the lines the query matches. */
module LineSearch {
  import opened Strings

  /** Whether `line` is kept for `query`: a literal substring test, made on the
      lowercased line and the lowercased query when the case is ignored. */
  predicate LineMatches(line: string, query: string, ignoreCase: bool) {
    if ignoreCase then Contains(Lower(line), Lower(query)) else Contains(line, query)
  }

  /** The specification of both searches: the lines of `ls` that match, in order. */
  function Matching(ls: seq<string>, query: string, ignoreCase: bool): seq<string>
  {
    if ls == [] then []
    else
      var last := ls[|ls| - 1];
      Matching(ls[..|ls| - 1], query, ignoreCase) + (if LineMatches(last, query, ignoreCase) then [last] else [])
  }

  /** Matching picks out exactly the positions of the matching lines: the k-th
      result is the line at position idx[k] of `ls`, the positions strictly
      increase, and a position is picked if and only if its line matches. */
  lemma {:induction false} MatchingPositions(ls: seq<string>, query: string, ignoreCase: bool)
    returns (idx: seq<int>)
    ensures |idx| == |Matching(ls, query, ignoreCase)|
    ensures forall k :: 0 <= k < |idx| ==> 0 <= idx[k] < |ls| && Matching(ls, query, ignoreCase)[k] == ls[idx[k]]
    ensures forall k, m :: 0 <= k < m < |idx| ==> idx[k] < idx[m]
    ensures forall i :: 0 <= i < |ls| ==> (LineMatches(ls[i], query, ignoreCase) <==> i in idx)
  {
    if ls == [] {
      idx := [];
    } else {
      var n := |ls| - 1;
      var front := ls[..n];
      var prev := MatchingPositions(front, query, ignoreCase);
      assert forall i :: 0 <= i < n ==> ls[i] == front[i];
      if LineMatches(ls[n], query, ignoreCase) {
        idx := prev + [n];
      } else {
        idx := prev;
      }
    }
  }

  /** Every result line matches the query. */
  lemma MatchingSound(ls: seq<string>, query: string, ignoreCase: bool)
    ensures forall l :: l in Matching(ls, query, ignoreCase) ==> LineMatches(l, query, ignoreCase)
  {
    var idx := MatchingPositions(ls, query, ignoreCase);
  }

  /** Every result line is one of the given lines, unchanged (in particular the
      case-insensitive search never returns a lowercased line). */
  lemma MatchingFromInput(ls: seq<string>, query: string, ignoreCase: bool)
    ensures forall l :: l in Matching(ls, query, ignoreCase) ==> l in ls
  {
    var idx := MatchingPositions(ls, query, ignoreCase);
    forall l | l in Matching(ls, query, ignoreCase) ensures l in ls {
      var k :| 0 <= k < |Matching(ls, query, ignoreCase)| && Matching(ls, query, ignoreCase)[k] == l;
      assert ls[idx[k]] == l;
    }
  }

  /** Searching consecutive blocks of lines is searching each block. */
  lemma {:induction false} MatchingAppend(a: seq<string>, b: seq<string>, query: string, ignoreCase: bool)
    ensures Matching(a + b, query, ignoreCase) == Matching(a, query, ignoreCase) + Matching(b, query, ignoreCase)
    decreases |b|
  {
    if b == [] {
      assert a + b == a;
    } else {
      var n := |b| - 1;
      assert (a + b)[..|a + b| - 1] == a + b[..n];
      MatchingAppend(a, b[..n], query, ignoreCase);
    }
  }

  /** The empty query keeps every line, in either mode. */
  lemma {:induction false} MatchingEmptyQuery(ls: seq<string>, ignoreCase: bool)
    ensures Matching(ls, [], ignoreCase) == ls
  {
    if ls != [] {
      var n := |ls| - 1;
      MatchingEmptyQuery(ls[..n], ignoreCase);
      assert Lower([]) == [];
      ContainsEmpty(ls[n]);
      ContainsEmpty(Lower(ls[n]));
      assert ls[..n] + [ls[n]] == ls;
    }
  }

  /** A case-sensitive hit is always a case-insensitive hit, so the
      case-sensitive result is a sub-list of the case-insensitive one. */
  lemma {:induction false} ExactHitsAreCaseInsensitiveHits(ls: seq<string>, query: string)
    ensures forall i :: 0 <= i < |ls| && LineMatches(ls[i], query, false) ==> LineMatches(ls[i], query, true)
    ensures |Matching(ls, query, false)| <= |Matching(ls, query, true)|
  {
    forall i | 0 <= i < |ls| && LineMatches(ls[i], query, false)
      ensures LineMatches(ls[i], query, true)
    {
      ContainsLower(ls[i], query);
    }
    if ls != [] {
      ExactHitsAreCaseInsensitiveHits(ls[..|ls| - 1], query);
    }
  }

  /** `search`: the lines of `contents` holding `query` as a literal substring. */
  method Search(query: string, contents: string) returns (res: seq<string>)
    ensures res == Matching(Lines(contents), query, false)
    ensures forall l :: l in res ==> Contains(l, query)
    ensures contents == [] ==> res == []
    ensures query == [] ==> res == Lines(contents)
  {
    var ls := Lines(contents);
    res := [];
    for i := 0 to |ls|
      invariant res == Matching(ls[..i], query, false)
    {
      if Contains(ls[i], query) {
        res := res + [ls[i]];
      }
      assert ls[..i + 1][..i] == ls[..i];
    }
    assert ls[..|ls|] == ls;
    MatchingSound(ls, query, false);
    MatchingEmptyQuery(ls, false);
  }

  /** `search_case_insensitive`: the query is lowercased once, each line is
      lowercased for the test, and the lines are returned in their own case. */
  method SearchCaseInsensitive(query: string, contents: string) returns (res: seq<string>)
    ensures res == Matching(Lines(contents), query, true)
    ensures forall l :: l in res ==> l in Lines(contents) && Contains(Lower(l), Lower(query))
    ensures contents == [] ==> res == []
    ensures query == [] ==> res == Lines(contents)
  {
    var ls := Lines(contents);
    var lowered := Lower(query);
    res := [];
    for i := 0 to |ls|
      invariant res == Matching(ls[..i], query, true)
    {
      if Contains(Lower(ls[i]), lowered) {
        res := res + [ls[i]];
      }
      assert ls[..i + 1][..i] == ls[..i];
    }
    assert ls[..|ls|] == ls;
    MatchingSound(ls, query, true);
    MatchingFromInput(ls, query, true);
    MatchingEmptyQuery(ls, true);
  }
}
