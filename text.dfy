/** Splitting and joining text on blank lines, with Python's str.split and
    str.join semantics. */
module Text {

  /** The separator between history blocks: one blank line. */
  const SEP: string := "\n\n"

  /** `s` holds no blank line, that is no two consecutive newlines. */
  predicate NoBlankLine(s: string)
  {
    forall i :: 0 <= i < |s| - 1 ==> !(s[i] == '\n' && s[i + 1] == '\n')
  }

  predicate EndsWithNewline(s: string)
  {
    |s| > 0 && s[|s| - 1] == '\n'
  }

  predicate StartsWithNewline(s: string)
  {
    |s| > 0 && s[0] == '\n'
  }

  /** A piece that reads back unchanged when a blank line follows it: it holds
      no blank line and does not end with a newline (a trailing newline would
      join the separator and move the split point). */
  predicate Clean(s: string)
  {
    NoBlankLine(s) && !EndsWithNewline(s)
  }

  /** Python's `s.split("\n\n")`: the pieces between the non-overlapping
      occurrences of the separator, found from left to right. There is always
      at least one piece, and the first piece is a prefix of `s`. */
  function Split(s: string): (r: seq<string>)
    ensures |r| >= 1
    ensures r[0] <= s
    decreases |s|
  {
    if |s| < 2 then [s]
    else if s[0] == '\n' && s[1] == '\n' then [""] + Split(s[2..])
    else
      var rest := Split(s[1..]);
      [[s[0]] + rest[0]] + rest[1..]
  }

  /** Python's `sep.join(parts)`. */
  function Join(sep: string, parts: seq<string>): string
  {
    if |parts| == 0 then ""
    else if |parts| == 1 then parts[0]
    else parts[0] + sep + Join(sep, parts[1..])
  }

  lemma JoinPrepend(sep: string, c: string, parts: seq<string>)
    requires |parts| >= 1
    ensures Join(sep, [c + parts[0]] + parts[1..]) == c + Join(sep, parts)
  {
    var ps := [c + parts[0]] + parts[1..];
    assert ps[1..] == parts[1..];
  }

  /** Joining the pieces of a split with the separator gives back the text. */
  lemma {:induction false} JoinSplit(s: string)
    ensures Join(SEP, Split(s)) == s
    decreases |s|
  {
    if |s| < 2 {
    } else if s[0] == '\n' && s[1] == '\n' {
      var rest := Split(s[2..]);
      JoinSplit(s[2..]);
      assert ([""] + rest)[1..] == rest;
      assert s == SEP + s[2..];
    } else {
      var rest := Split(s[1..]);
      JoinSplit(s[1..]);
      JoinPrepend(SEP, [s[0]], rest);
      assert s == [s[0]] + s[1..];
    }
  }

  /** When a split yields more than one piece, the first piece is followed by
      the separator. */
  lemma {:induction false} SplitHead(s: string)
    ensures |Split(s)| >= 2 ==>
      |Split(s)[0]| + 2 <= |s| && s[|Split(s)[0]|] == '\n' && s[|Split(s)[0]| + 1] == '\n'
    decreases |s|
  {
    if |s| >= 2 && !(s[0] == '\n' && s[1] == '\n') {
      SplitHead(s[1..]);
    }
  }

  lemma NoBlankLineConcat(x: string, y: string)
    requires NoBlankLine(x) && NoBlankLine(y)
    requires !(EndsWithNewline(x) && StartsWithNewline(y))
    ensures NoBlankLine(x + y)
  {
    var s := x + y;
    forall i | 0 <= i < |s| - 1
      ensures !(s[i] == '\n' && s[i + 1] == '\n')
    {
      if i + 1 < |x| {
        assert s[i] == x[i] && s[i + 1] == x[i + 1];
      } else if i + 1 == |x| {
        assert s[i] == x[|x| - 1] && s[i + 1] == y[0];
      } else {
        assert s[i] == y[i - |x|] && s[i + 1] == y[i - |x| + 1];
      }
    }
  }

  /** No piece of a split holds a blank line, and every piece but the last is
      Clean: the split point is always the leftmost newline pair. */
  lemma {:induction false} SplitPieces(s: string)
    ensures forall i :: 0 <= i < |Split(s)| ==> NoBlankLine(Split(s)[i])
    ensures forall i :: 0 <= i < |Split(s)| - 1 ==> Clean(Split(s)[i])
    decreases |s|
  {
    var r := Split(s);
    if |s| < 2 {
    } else if s[0] == '\n' && s[1] == '\n' {
      SplitPieces(s[2..]);
      assert r == [""] + Split(s[2..]);
    } else {
      var rest := Split(s[1..]);
      SplitPieces(s[1..]);
      SplitHead(s[1..]);
      var head := [s[0]] + rest[0];
      assert r == [head] + rest[1..];
      if |rest[0]| > 0 {
        assert rest[0][0] == s[1];
      }
      NoBlankLineConcat([s[0]], rest[0]);
      if |rest| >= 2 {
        if |rest[0]| > 0 {
          assert head[|head| - 1] == rest[0][|rest[0]| - 1];
        } else {
          assert s[1] == '\n';
          assert head == [s[0]];
        }
        assert Clean(head);
      }
      forall i | 1 <= i < |r|
        ensures r[i] == rest[i]
      {
      }
    }
  }

  /** The leftmost separator after a Clean piece is the one that follows it. */
  lemma {:induction false} SplitAfterClean(x: string, y: string)
    requires Clean(x)
    ensures Split(x + SEP + y) == [x] + Split(y)
    decreases |x|
  {
    var s := x + SEP + y;
    if |x| == 0 {
      assert s[2..] == y;
    } else {
      if |x| >= 2 {
        assert !(x[0] == '\n' && x[1] == '\n');
      }
      assert !(s[0] == '\n' && s[1] == '\n');
      var x' := x[1..];
      assert NoBlankLine(x') by {
        forall i | 0 <= i < |x'| - 1
          ensures !(x'[i] == '\n' && x'[i + 1] == '\n')
        {
          assert x'[i] == x[i + 1] && x'[i + 1] == x[i + 2];
        }
      }
      assert |x'| > 0 ==> x'[|x'| - 1] == x[|x| - 1];
      SplitAfterClean(x', y);
      assert s[1..] == x' + SEP + y;
      assert [s[0]] + x' == x;
    }
  }
}
