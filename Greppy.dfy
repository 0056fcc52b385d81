/** `run` from src/lib.rs without its input and output: given a configuration
    and the contents of the file, it picks the search for the configured case
    mode and cuts every line found into plain and highlighted pieces. */
module Greppy {
  import opened Strings
  import opened LineSearch
  import opened Highlighting
  import opened Cli

  /** The lines `run` finds in `file` for `config`. */
  function Found(config: Config, file: string): seq<string>
  {
    Matching(Lines(file), config.query, !config.caseSensitive)
  }

  /** Each of `lines` is highlighted by the list of pieces at its position. */
  ghost predicate HighlightsAll(out: seq<seq<Segment>>, lines: seq<string>, query: string)
  {
    |out| == |lines| &&
    forall i :: 0 <= i < |out| ==> IsHighlighting(out[i], lines[i], query)
  }

  /** What `run` prints after its header: one highlighted line per line found,
      in order. */
  ghost predicate IsOutput(out: seq<seq<Segment>>, config: Config, file: string)
  {
    HighlightsAll(out, Found(config, file), config.query)
  }

  /** Highlighting one more line. */
  lemma HighlightsAllSnoc(out: seq<seq<Segment>>, lines: seq<string>, segs: seq<Segment>, line: string, query: string)
    requires HighlightsAll(out, lines, query) && IsHighlighting(segs, line, query)
    ensures HighlightsAll(out + [segs], lines + [line], query)
  {
  }

  /** The choice `run` makes between the two searches. */
  method FindLines(config: Config, file: string) returns (result: seq<string>)
    ensures result == Found(config, file)
  {
    if config.caseSensitive {
      result := Search(config.query, file);
    } else {
      result := SearchCaseInsensitive(config.query, file);
    }
  }

  /** `run`, from the moment the file has been read. The highlighting looks for
      `config.query` as typed, in either mode. */
  method Run(config: Config, file: string) returns (out: seq<seq<Segment>>)
    ensures IsOutput(out, config, file)
  {
    var result := FindLines(config, file);
    out := [];
    for i := 0 to |result|
      invariant HighlightsAll(out, result[..i], config.query)
    {
      var segs := Highlight(result[i], config.query);
      HighlightsAllSnoc(out, result[..i], segs, result[i], config.query);
      assert result[..i] + [result[i]] == result[..i + 1];
      out := out + [segs];
    }
    assert result[..|result|] == result;
  }

  /** In case-sensitive mode every printed line holds at least one highlighted
      piece, right after the plain text before the first match. */
  lemma {:induction false} CaseSensitiveOutputHighlighted(out: seq<seq<Segment>>, config: Config, file: string)
    requires IsOutput(out, config, file) && config.caseSensitive
    ensures forall i :: 0 <= i < |out| ==> |out[i]| >= 3 && out[i][1] == Segment(config.query, true)
  {
    var found := Found(config, file);
    MatchingSound(Lines(file), config.query, false);
    forall i | 0 <= i < |out|
      ensures |out[i]| >= 3 && out[i][1] == Segment(config.query, true)
    {
      assert found[i] in found;
      assert Contains(found[i], config.query);
      MatchIndicesNonEmpty(found[i], config.query);
      assert IsHighlighting(out[i], found[i], config.query);
      assert 0 < |MatchIndices(found[i], config.query)|;
      assert out[i][2 * 0 + 1] == Segment(config.query, true);
    }
  }
}
