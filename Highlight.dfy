/** The highlighting loop of `run` in src/lib.rs: for one matching line it
    takes the positions that `match_indices` reports for the query and cuts the
    line into plain and highlighted pieces, walking a cursor `last` from the
    start of the line to its end. */
module Highlighting {
  import opened Strings

  /** One piece of an output line; `highlighted` pieces are printed bold and red. */
  datatype Segment = Segment(text: string, highlighted: bool)

  /** The text of a line rebuilt from its pieces. */
  function Concat(segs: seq<Segment>): string
  {
    if segs == [] then [] else Concat(segs[..|segs| - 1]) + segs[|segs| - 1].text
  }

  /** How far the search for the next match moves after one is found at a
      position: past the whole match, or one step for the empty query. */
  function Step(query: string): (n: nat)
    ensures n >= 1 && n >= |query|
  {
    if query == [] then 1 else |query|
  }

  /** The positions that Rust's `str::match_indices` reports for `query` in
      `line`, from position `from` on: the leftmost occurrence, then the leftmost
      one after its end, and so on. The empty query occurs at every position,
      the end of the line included. */
  function MatchIndicesFrom(line: string, query: string, from: nat): seq<nat>
    decreases |line| + 1 - from
  {
    if from > |line| then []
    else if OccursAt(line, query, from) then [from] + MatchIndicesFrom(line, query, from + Step(query))
    else MatchIndicesFrom(line, query, from + 1)
  }

  function MatchIndices(line: string, query: string): seq<nat>
  {
    MatchIndicesFrom(line, query, 0)
  }

  /** The reported positions are occurrences at or after `from`, in increasing
      order, each starting at or after the end of the one before. */
  lemma {:induction false} MatchIndicesFromWellFormed(line: string, query: string, from: nat)
    ensures forall k :: 0 <= k < |MatchIndicesFrom(line, query, from)| ==>
      from <= MatchIndicesFrom(line, query, from)[k] && OccursAt(line, query, MatchIndicesFrom(line, query, from)[k])
    ensures forall k :: 0 <= k < |MatchIndicesFrom(line, query, from)| - 1 ==>
      MatchIndicesFrom(line, query, from)[k] + Step(query) <= MatchIndicesFrom(line, query, from)[k + 1]
    decreases |line| + 1 - from
  {
    var v := MatchIndicesFrom(line, query, from);
    if from <= |line| {
      if OccursAt(line, query, from) {
        var w := MatchIndicesFrom(line, query, from + Step(query));
        MatchIndicesFromWellFormed(line, query, from + Step(query));
        assert v == [from] + w;
        assert forall k :: 1 <= k < |v| ==> v[k] == w[k - 1];
      } else {
        MatchIndicesFromWellFormed(line, query, from + 1);
      }
    }
  }

  /** The reported positions are the leftmost-first ones: an occurrence at or
      after `from` that is not reported starts inside a reported match. */
  lemma {:induction false} MatchIndicesFromMaximal(line: string, query: string, from: nat, p: int)
    requires from <= p && OccursAt(line, query, p)
    ensures var v := MatchIndicesFrom(line, query, from);
      p in v || exists k :: 0 <= k < |v| && v[k] < p < v[k] + |query|
    decreases |line| + 1 - from
  {
    var v := MatchIndicesFrom(line, query, from);
    if p != from {
      if OccursAt(line, query, from) {
        if p >= from + Step(query) {
          MatchIndicesFromMaximal(line, query, from + Step(query), p);
          var w := MatchIndicesFrom(line, query, from + Step(query));
          assert v == [from] + w;
          if p !in w {
            var k :| 0 <= k < |w| && w[k] < p < w[k] + |query|;
            assert v[k + 1] == w[k];
          }
        } else {
          assert v[0] == from;
        }
      } else {
        MatchIndicesFromMaximal(line, query, from + 1, p);
      }
    }
  }

  /** The facts about `match_indices` that the highlighting loop relies on. */
  lemma MatchIndicesWellFormed(line: string, query: string)
    ensures var v := MatchIndices(line, query);
      (forall k :: 0 <= k < |v| ==> OccursAt(line, query, v[k])) &&
      (forall k :: 0 <= k < |v| - 1 ==> v[k] + |query| <= v[k + 1] && v[k] < v[k + 1])
  {
    MatchIndicesFromWellFormed(line, query, 0);
    var v := MatchIndices(line, query);
    assert forall k :: 0 <= k < |v| - 1 ==> v[k] + Step(query) <= v[k + 1];
  }

  /** The k-th reported position is an occurrence that starts at or after the end
      of the one before. */
  lemma MatchIndexAt(line: string, query: string, k: nat)
    requires k < |MatchIndices(line, query)|
    ensures OccursAt(line, query, MatchIndices(line, query)[k])
    ensures k > 0 ==> MatchIndices(line, query)[k - 1] + |query| <= MatchIndices(line, query)[k]
  {
    MatchIndicesWellFormed(line, query);
  }

  /** Every occurrence of the query is reported or overlaps a reported one. */
  lemma MatchIndicesMaximal(line: string, query: string, p: int)
    requires OccursAt(line, query, p)
    ensures var v := MatchIndices(line, query);
      p in v || exists k :: 0 <= k < |v| && v[k] < p < v[k] + |query|
  {
    MatchIndicesFromMaximal(line, query, 0, p);
  }

  /** A line has a highlighted match exactly when it contains the query, so
      every line that the case-sensitive search returns gets one. */
  lemma MatchIndicesNonEmpty(line: string, query: string)
    ensures MatchIndices(line, query) != [] <==> Contains(line, query)
  {
    MatchIndicesWellFormed(line, query);
    var v := MatchIndices(line, query);
    if v != [] {
      assert OccursAt(line, query, v[0]);
    }
    if Contains(line, query) {
      var p :| 0 <= p <= |line| - |query| && OccursAt(line, query, p);
      MatchIndicesMaximal(line, query, p);
      assert p in v || exists k :: 0 <= k < |v| && v[k] < p < v[k] + |query|;
    }
  }

  /** What the loop of `run` prints for `line`: it is cut into plain and
      highlighted pieces, alternately, starting and ending with a plain piece,
      with one highlighted piece per reported match; the highlighted pieces are
      copies of the query, each begins where its match begins, and the pieces
      put together give back the line. */
  ghost predicate IsHighlighting(segs: seq<Segment>, line: string, query: string)
  {
    var v := MatchIndices(line, query);
    Concat(segs) == line &&
    |segs| == 2 * |v| + 1 &&
    (forall i :: 0 <= i <= |v| ==> !segs[2 * i].highlighted) &&
    (forall i :: 0 <= i < |v| ==> segs[2 * i + 1] == Segment(query, true)) &&
    (forall i :: 0 <= i < |v| ==> |Concat(segs[..2 * i + 1])| == v[i])
  }

  /** Putting pieces together distributes over joining lists of pieces. */
  lemma {:induction false} ConcatAppend(a: seq<Segment>, b: seq<Segment>)
    ensures Concat(a + b) == Concat(a) + Concat(b)
    decreases |b|
  {
    if b == [] {
      assert a + b == a;
    } else {
      var n := |b| - 1;
      assert (a + b)[..|a + b| - 1] == a + b[..n];
      ConcatAppend(a, b[..n]);
    }
  }

  /** Adding pieces at the end keeps the earlier prefixes. */
  lemma PrefixesKept(segs: seq<Segment>, extra: seq<Segment>)
    ensures forall i :: 0 <= i <= |segs| ==> (segs + extra)[..i] == segs[..i]
  {
    forall i | 0 <= i <= |segs| ensures (segs + extra)[..i] == segs[..i] {
    }
  }

  /** The state of the highlighting loop after the first `k` matches: the pieces
      so far spell the line up to the cursor `last`, and each match so far has
      its plain piece before it and its highlighted piece at its position. */
  ghost predicate CutSoFar(segs: seq<Segment>, line: string, query: string, v: seq<nat>, k: nat, last: nat)
  {
    k <= |v| && |segs| == 2 * k && last <= |line| &&
    Concat(segs) == line[..last] &&
    (forall i :: 0 <= i < k ==> !segs[2 * i].highlighted) &&
    (forall i :: 0 <= i < k ==> segs[2 * i + 1] == Segment(query, true)) &&
    (forall i :: 0 <= i < k ==> |Concat(segs[..2 * i + 1])| == v[i])
  }

  /** One turn of the highlighting loop keeps CutSoFar. */
  lemma CutStep(segs: seq<Segment>, line: string, query: string, v: seq<nat>, k: nat, last: nat)
    requires CutSoFar(segs, line, query, v, k, last)
    requires k < |v| && last <= v[k] && OccursAt(line, query, v[k])
    ensures CutSoFar(segs + [Segment(line[last..v[k]], false), Segment(line[v[k]..v[k] + |query|], true)],
                     line, query, v, k + 1, v[k] + |query|)
  {
    var ind := v[k];
    var plain := Segment(line[last..ind], false);
    var marked := Segment(line[ind..ind + |query|], true);
    var next := segs + [plain, marked];
    ConcatStep(segs, line, last, ind, ind + |query|);
    assert next[..2 * k + 1] == segs + [plain];
    PrefixesKept(segs, [plain, marked]);
    forall i | 0 <= i < k + 1 ensures |Concat(next[..2 * i + 1])| == v[i] {
      if i < k {
        assert next[..2 * i + 1] == segs[..2 * i + 1];
      }
    }
  }

  /** The text of two more pieces cut from `line` at the cursor. */
  lemma ConcatStep(segs: seq<Segment>, line: string, last: nat, ind: nat, end: nat)
    requires last <= ind <= end <= |line| && Concat(segs) == line[..last]
    ensures Concat(segs + [Segment(line[last..ind], false), Segment(line[ind..end], true)]) == line[..end]
    ensures Concat(segs + [Segment(line[last..ind], false)]) == line[..ind]
  {
    var plain := Segment(line[last..ind], false);
    var marked := Segment(line[ind..end], true);
    ConcatAppend(segs, [plain]);
    ConcatAppend(segs + [plain], [marked]);
    assert segs + [plain] + [marked] == segs + [plain, marked];
    assert line[..last] + line[last..ind] == line[..ind];
    assert line[..ind] + line[ind..end] == line[..end];
  }

  /** After the last match, the rest of the line completes the highlighting. */
  lemma CutDone(segs: seq<Segment>, line: string, query: string, last: nat)
    requires CutSoFar(segs, line, query, MatchIndices(line, query), |MatchIndices(line, query)|, last)
    ensures IsHighlighting(segs + [Segment(line[last..], false)], line, query)
  {
    var tail := Segment(line[last..], false);
    ConcatAppend(segs, [tail]);
    assert line[..last] + line[last..] == line;
    PrefixesKept(segs, [tail]);
  }

  /** The highlighting loop of `run`: the plain text before each match, the
      match itself highlighted, and after the last match the rest of the line. */
  method Highlight(line: string, query: string) returns (segs: seq<Segment>)
    ensures IsHighlighting(segs, line, query)
  {
    var v := MatchIndices(line, query);
    var last: nat := 0;
    segs := [];
    for k := 0 to |v|
      invariant CutSoFar(segs, line, query, v, k, last)
      invariant k == 0 ==> last == 0
      invariant k > 0 ==> last == v[k - 1] + |query|
    {
      var ind := v[k];
      MatchIndexAt(line, query, k);
      CutStep(segs, line, query, v, k, last);
      segs := segs + [Segment(line[last..ind], false), Segment(line[ind..ind + |query|], true)];
      last := ind + |query|;
    }
    CutDone(segs, line, query, last);
    segs := segs + [Segment(line[last..], false)];
  }

  /** The quirk of `run` in case-insensitive mode: it looks for the query as
      typed, so a line found by the case-insensitive search can get no
      highlighted piece at all ("rUsT" in "Rust:"). */
  lemma CaseInsensitiveLineWithoutHighlight()
    ensures Contains(Lower("Rust:"), Lower("rUsT"))
    ensures MatchIndices("Rust:", "rUsT") == []
  {
    assert Lower("rUsT") == "rust";
    assert Lower("Rust:") == "rust:";
    assert OccursAt("rust:", "rust", 0);
    NotContainsWithoutFirst("Rust:", "rUsT");
    MatchIndicesNonEmpty("Rust:", "rUsT");
  }
}
