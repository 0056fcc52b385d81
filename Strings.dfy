/** Text primitives that src/lib.rs takes from Rust's standard library:
    literal substring search (`str::contains`), lowercasing (`str::to_lowercase`,
    restricted here to ASCII) and splitting into lines (`str::lines`). */
module Strings {

  /** `q` occurs in `s` starting at position `i`. */
  predicate OccursAt(s: string, q: string, i: int) {
    0 <= i && i + |q| <= |s| && s[i..i + |q|] == q
  }

  /** `q` is a literal substring of `s`. */
  predicate Contains(s: string, q: string) {
    exists i | 0 <= i <= |s| - |q| :: OccursAt(s, q, i)
  }

  /** An occurrence in the tail of `s` is an occurrence in `s`, one place later. */
  lemma OccursAtTail(s: string, q: string, i: int)
    requires s != [] && 0 <= i
    ensures OccursAt(s[1..], q, i) <==> OccursAt(s, q, i + 1)
  {
    if i + |q| <= |s| - 1 {
      assert s[1..][i..i + |q|] == s[i + 1..i + 1 + |q|];
    }
  }

  /** The scan behind Contains: `q` is in `s` when it is a prefix of `s` or is
      in the tail of `s`. */
  lemma ContainsStep(s: string, q: string)
    ensures Contains(s, q) <==> q <= s || (s != [] && Contains(s[1..], q))
  {
    if q <= s {
      assert OccursAt(s, q, 0);
    } else if Contains(s, q) {
      var i :| 0 <= i <= |s| - |q| && OccursAt(s, q, i);
      assert i != 0;
      OccursAtTail(s, q, i - 1);
      assert OccursAt(s[1..], q, i - 1);
    } else if s != [] && Contains(s[1..], q) {
      var j :| 0 <= j <= |s[1..]| - |q| && OccursAt(s[1..], q, j);
      OccursAtTail(s, q, j);
    }
  }

  /** The empty string is a substring of every string. */
  lemma ContainsEmpty(s: string)
    ensures Contains(s, [])
  {
    assert OccursAt(s, [], 0);
  }

  /** A query whose first character does not occur in `s` is not in `s`. */
  lemma NotContainsWithoutFirst(s: string, q: string)
    requires q != [] && q[0] !in s
    ensures !Contains(s, q)
  {
  }

  /** A substring of a suffix is a substring of the whole. */
  lemma ContainsInSuffix(a: string, b: string, q: string)
    requires Contains(b, q)
    ensures Contains(a + b, q)
  {
    var j :| 0 <= j <= |b| - |q| && OccursAt(b, q, j);
    assert (a + b)[|a| + j..|a| + j + |q|] == b[j..j + |q|];
    assert OccursAt(a + b, q, |a| + j);
  }

  /** A prefix holding no first character of the query can be skipped. */
  lemma ContainsSkip(a: string, b: string, q: string)
    requires q != [] && q[0] !in a
    ensures Contains(a + b, q) == Contains(b, q)
  {
    if Contains(b, q) {
      ContainsInSuffix(a, b, q);
    }
    if Contains(a + b, q) {
      var i :| 0 <= i <= |a + b| - |q| && OccursAt(a + b, q, i);
      assert (a + b)[i..i + |q|][0] == (a + b)[i];
      assert forall k :: 0 <= k < |a| ==> (a + b)[k] == a[k] && a[k] in a;
      assert i >= |a|;
      assert (a + b)[i..i + |q|] == b[i - |a|..i - |a| + |q|];
      assert OccursAt(b, q, i - |a|);
    }
  }

  /** ASCII lowercasing of a single character; every other character is kept. */
  function LowerChar(c: char): char
  {
    if 'A' <= c <= 'Z' then (c as int - 'A' as int + 'a' as int) as char else c
  }

  /** Lowercasing of a string, character by character. */
  function Lower(s: string): string
  {
    seq(|s|, i requires 0 <= i < |s| => LowerChar(s[i]))
  }

  /** Lowercasing commutes with taking a slice. */
  lemma LowerSlice(s: string, i: int, j: int)
    requires 0 <= i <= j <= |s|
    ensures Lower(s)[i..j] == Lower(s[i..j])
  {
    assert forall k :: 0 <= k < j - i ==> Lower(s)[i..j][k] == LowerChar(s[i + k]) == Lower(s[i..j])[k];
  }

  /** A line that contains the query still contains it once both are lowercased,
      so every case-sensitive hit is a case-insensitive hit. */
  lemma ContainsLower(s: string, q: string)
    requires Contains(s, q)
    ensures Contains(Lower(s), Lower(q))
  {
    var i :| 0 <= i <= |s| - |q| && OccursAt(s, q, i);
    LowerSlice(s, i, i + |q|);
    assert OccursAt(Lower(s), Lower(q), i);
  }

  /** Index of the first line feed in `s`, or `|s|` when there is none. */
  function NewlineIndex(s: string): (i: nat)
    ensures i <= |s|
    ensures i < |s| ==> s[i] == '\n'
    ensures forall j :: 0 <= j < i ==> s[j] != '\n'
  {
    if s == [] || s[0] == '\n' then 0 else 1 + NewlineIndex(s[1..])
  }

  /** Removes one carriage return at the end of a line, if there is one. */
  function StripCr(l: string): (r: string)
    ensures r <= l
  {
    if l != [] && l[|l| - 1] == '\r' then l[..|l| - 1] else l
  }

  /** The model of Rust's `str::lines`: the text is cut after every line feed; a
      piece that ended in a line feed loses it and then one carriage return before
      it; a last piece without a line feed is kept as it is, and there is no empty
      line after a final line feed. */
  function Lines(s: string): (r: seq<string>)
    ensures r == [] <==> s == []
    decreases |s|
  {
    if s == [] then []
    else
      var i := NewlineIndex(s);
      if i == |s| then [s] else [StripCr(s[..i])] + Lines(s[i + 1..])
  }

  /** No line returned by Lines holds a line feed. */
  lemma {:induction false} LinesHaveNoNewline(s: string)
    ensures forall l :: l in Lines(s) ==> '\n' !in l
    decreases |s|
  {
    if s != [] {
      var i := NewlineIndex(s);
      if i < |s| {
        LinesHaveNoNewline(s[i + 1..]);
        assert '\n' !in s[..i];
        assert '\n' !in StripCr(s[..i]) by {
          var p := StripCr(s[..i]);
          forall j | 0 <= j < |p| ensures p[j] != '\n' {
            assert p[j] == s[..i][j];
          }
        }
      }
    }
  }

  /** A first line without a line feed, followed by a line feed, is the first line. */
  lemma LinesCons(a: string, b: string)
    requires '\n' !in a
    ensures Lines(a + "\n" + b) == [StripCr(a)] + Lines(b)
  {
    var s := a + "\n" + b;
    assert s[|a|] == '\n';
    var i := NewlineIndex(s);
    assert i == |a|;
    assert s[..i] == a;
    assert s[i + 1..] == b;
  }

  /** Text without a line feed is one line, unless it is empty. */
  lemma LinesSingle(a: string)
    requires '\n' !in a && a != []
    ensures Lines(a) == [a]
  {
  }

  /** Writes each line followed by a line feed (the inverse of Lines). */
  function JoinLines(ls: seq<string>): (s: string)
    ensures |s| >= |ls|
  {
    if ls == [] then [] else ls[0] + "\n" + JoinLines(ls[1..])
  }

  /** A line as Lines can return it and JoinLines writes it back unchanged: no
      line feed in it, and no carriage return at its end. */
  predicate IsBareLine(l: string) {
    '\n' !in l && (l == [] || l[|l| - 1] != '\r')
  }

  /** Lines undoes JoinLines for lines that hold no line feed and do not end in a
      carriage return. */
  lemma {:induction false} LinesJoinLines(ls: seq<string>)
    requires forall k :: 0 <= k < |ls| ==> IsBareLine(ls[k])
    ensures Lines(JoinLines(ls)) == ls
  {
    if ls != [] {
      var head, tail := ls[0], ls[1..];
      assert IsBareLine(head);
      assert forall k :: 0 <= k < |tail| ==> tail[k] == ls[k + 1];
      LinesJoinLines(tail);
      LinesCons(head, JoinLines(tail));
      assert [head] + tail == ls;
    }
  }

  /** Writing one more line in front of others. */
  lemma JoinLinesCons(a: string, ls: seq<string>)
    ensures JoinLines([a] + ls) == a + "\n" + JoinLines(ls)
  {
    assert ([a] + ls)[1..] == ls;
  }

  /** JoinLines undoes Lines for text without carriage returns, except that it
      always ends the last line with a line feed. */
  lemma {:induction false} JoinLinesLines(s: string)
    requires '\r' !in s
    ensures JoinLines(Lines(s)) == if s == [] || s[|s| - 1] == '\n' then s else s + "\n"
    decreases |s|
  {
    if s != [] {
      var i := NewlineIndex(s);
      if i < |s| {
        var a, rest := s[..i], s[i + 1..];
        assert s == a + "\n" + rest;
        assert '\r' !in a && '\r' !in rest;
        assert StripCr(a) == a by {
          if a != [] {
            assert a[|a| - 1] in a;
          }
        }
        LinesCons(a, rest);
        JoinLinesCons(a, Lines(rest));
        JoinLinesLines(rest);
        if rest != [] {
          assert s[|s| - 1] == rest[|rest| - 1];
        }
      } else {
        assert JoinLines([s]) == s + "\n";
      }
    }
  }
}
