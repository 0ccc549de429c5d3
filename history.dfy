/** The rolling question/answer history kept in one text file
    (fastask/ask.py, add_to_history, get_last_n_history, clear_history). */
module History {
  import opened Text
  import opened Slices

  /** The most blocks the file is meant to keep. */
  const CAPACITY: nat := 10

  /** One exchange between the user and the model. */
  datatype Exchange = Exchange(question: string, answer: string)

  /** The block an exchange reads back as. */
  function Entry(question: string, answer: string): string
  {
    "Question: " + question + "\nAnswer: " + answer
  }

  /** The text add_to_history appends: the block and a blank line. */
  function Record(question: string, answer: string): string
  {
    Entry(question, answer) + SEP
  }

  /** The blocks a reader sees: the pieces of the split without the final
      piece (Python `split("\n\n")[:-1]`). Each of them is Clean. */
  function Blocks(content: string): (bs: seq<string>)
    ensures |bs| == |Split(content)| - 1
    ensures forall i :: 0 <= i < |bs| ==> Clean(bs[i]) && bs[i] == Split(content)[i]
  {
    SplitPieces(content);
    var ps := Split(content);
    ps[..|ps| - 1]
  }

  /** The final piece of the split, which a reader drops: the text after the
      last blank line. It is "" in every file whose last block is complete. */
  function Tail(content: string): (t: string)
    ensures NoBlankLine(t)
    ensures |t| <= |content| && content[|content| - |t|..] == t
  {
    SplitPieces(content);
    JoinSplit(content);
    var ps := Split(content);
    JoinAsSerialized(ps);
    ps[|ps| - 1]
  }

  /** Blocks each followed by a blank line: the text of a file that holds
      exactly the blocks `bs`. */
  function Serialize(bs: seq<string>): string
  {
    if bs == [] then "" else bs[0] + SEP + Serialize(bs[1..])
  }

  lemma {:induction false} JoinAsSerialized(ps: seq<string>)
    requires |ps| >= 1
    ensures Join(SEP, ps) == Serialize(ps[..|ps| - 1]) + ps[|ps| - 1]
  {
    if |ps| >= 2 {
      JoinAsSerialized(ps[1..]);
      assert ps[..|ps| - 1][1..] == ps[1..][..|ps| - 2];
    }
  }

  /** Python's `"\n\n".join(bs) + "\n\n"` for a non-empty list. */
  lemma {:induction false} JoinThenSep(bs: seq<string>)
    requires |bs| >= 1
    ensures Join(SEP, bs) + SEP == Serialize(bs)
  {
    if |bs| >= 2 {
      JoinThenSep(bs[1..]);
    }
  }

  /** Every file is its blocks, each followed by a blank line, and then its
      trailing piece. */
  lemma ContentParts(content: string)
    ensures content == Serialize(Blocks(content)) + Tail(content)
  {
    var ps := Split(content);
    JoinSplit(content);
    JoinAsSerialized(ps);
    assert Blocks(content) == ps[..|ps| - 1];
  }

  /** Splitting text that starts with whole Clean blocks gives those blocks
      and then the split of the rest. */
  lemma {:induction false} SplitSerialized(bs: seq<string>, t: string)
    requires forall i :: 0 <= i < |bs| ==> Clean(bs[i])
    ensures Split(Serialize(bs) + t) == bs + Split(t)
    decreases |bs|
  {
    if bs == [] {
      assert Serialize(bs) + t == t;
    } else {
      SplitSerialized(bs[1..], t);
      assert Serialize(bs) + t == bs[0] + SEP + (Serialize(bs[1..]) + t);
      SplitAfterClean(bs[0], Serialize(bs[1..]) + t);
      assert bs == [bs[0]] + bs[1..];
    }
  }

  /** A file holding exactly the Clean blocks `bs` reads back as `bs`. */
  lemma SerializeRoundTrip(bs: seq<string>)
    requires forall i :: 0 <= i < |bs| ==> Clean(bs[i])
    ensures Blocks(Serialize(bs)) == bs
    ensures Tail(Serialize(bs)) == ""
  {
    SplitSerialized(bs, "");
    assert Serialize(bs) + "" == Serialize(bs);
  }

  /** Appending text to a file never changes its complete blocks: the new
      text only continues the trailing piece. */
  lemma BlocksAppend(content: string, t: string)
    ensures Blocks(content + t) == Blocks(content) + Blocks(Tail(content) + t)
    ensures Tail(content + t) == Tail(Tail(content) + t)
  {
    ContentParts(content);
    var bs := Blocks(content);
    assert content + t == Serialize(bs) + (Tail(content) + t);
    SplitSerialized(bs, Tail(content) + t);
  }

  /** The entry of an exchange whose texts hold no blank line and do not end
      with a newline is Clean, even after a trailing piece. */
  lemma EntryClean(tail: string, question: string, answer: string)
    requires NoBlankLine(tail) && Clean(question) && Clean(answer)
    ensures Clean(tail + Entry(question, answer))
  {
    var p1 := tail + "Question: ";
    NoBlankLineConcat(tail, "Question: ");
    var p2 := p1 + question;
    NoBlankLineConcat(p1, question);
    assert !EndsWithNewline(p2) by {
      if |question| > 0 {
        assert p2[|p2| - 1] == question[|question| - 1];
      }
    }
    var p3 := p2 + "\nAnswer: ";
    NoBlankLineConcat(p2, "\nAnswer: ");
    var p4 := p3 + answer;
    NoBlankLineConcat(p3, answer);
    if |answer| > 0 {
      assert p4[|p4| - 1] == answer[|answer| - 1];
    }
    assert p4 == tail + Entry(question, answer);
  }

  /** Appending the record of such an exchange adds exactly one block: the
      exchange's entry, after whatever trailing piece the file had. */
  lemma AppendAddsOneBlock(content: string, question: string, answer: string)
    requires Clean(question) && Clean(answer)
    ensures Blocks(content + Record(question, answer))
         == Blocks(content) + [Tail(content) + Entry(question, answer)]
    ensures Tail(content + Record(question, answer)) == ""
  {
    var e := Tail(content) + Entry(question, answer);
    BlocksAppend(content, Record(question, answer));
    EntryClean(Tail(content), question, answer);
    SplitAfterClean(e, "");
    assert Tail(content) + Record(question, answer) == e + SEP + "";
  }

  /** The file after the over-capacity check of add_to_history: when it holds
      more than CAPACITY blocks it is rewritten without its first block. */
  function Trimmed(content: string): string
  {
    var blocks := Blocks(content);
    if |blocks| > CAPACITY then Join(SEP, blocks[1..]) + SEP else content
  }

  /** The rewrite drops exactly the oldest block; the others keep their order
      and the file ends on a complete block. */
  lemma TrimDropsOldest(content: string)
    requires |Blocks(content)| > CAPACITY
    ensures Blocks(Trimmed(content)) == Blocks(content)[1..]
    ensures Tail(Trimmed(content)) == ""
  {
    var rest := Blocks(content)[1..];
    JoinThenSep(rest);
    SerializeRoundTrip(rest);
  }

  /** The file after add_to_history(question, answer). */
  function AfterAdd(content: string, question: string, answer: string): string
  {
    Trimmed(content + Record(question, answer))
  }

  /** The blocks kept after one more: the oldest is dropped when that makes
      more than CAPACITY. */
  function Window(bs: seq<string>): seq<string>
  {
    if |bs| > CAPACITY then bs[1..] else bs
  }

  /** add_to_history appends one block (the new entry, last) and drops the
      oldest when that exceeds the capacity; the file then ends on a
      complete block. */
  lemma {:induction false} AddBlocks(content: string, question: string, answer: string)
    requires Clean(question) && Clean(answer)
    ensures Blocks(AfterAdd(content, question, answer))
         == Window(Blocks(content) + [Tail(content) + Entry(question, answer)])
    ensures Tail(AfterAdd(content, question, answer)) == ""
  {
    var appended := content + Record(question, answer);
    AppendAddsOneBlock(content, question, answer);
    if |Blocks(appended)| > CAPACITY {
      TrimDropsOldest(appended);
    }
  }

  /** Appending the record of an exchange whose answer holds no blank line
      (it may end with a newline, as a child's output usually does) still
      adds exactly one block. After such an answer the trailing piece is
      "\n", which the next block then starts with. */
  lemma AppendCountsOneBlock(content: string, question: string, answer: string)
    requires Clean(question) && NoBlankLine(answer)
    ensures |Blocks(content + Record(question, answer))| == |Blocks(content)| + 1
  {
    if Clean(answer) {
      AppendAddsOneBlock(content, question, answer);
    } else {
      AppendNewlineAnswer(content, question, answer);
    }
  }

  /** An answer ending with its only trailing newline reads back without
      that newline, and the newline stays behind as the file's trailing
      piece. */
  lemma AppendNewlineAnswer(content: string, question: string, answer: string)
    requires Clean(question) && NoBlankLine(answer) && EndsWithNewline(answer)
    ensures Blocks(content + Record(question, answer))
         == Blocks(content) + [Tail(content) + Entry(question, answer[..|answer| - 1])]
    ensures Tail(content + Record(question, answer)) == "\n"
  {
    {
      var a0 := answer[..|answer| - 1];
      assert answer == a0 + "\n";
      assert NoBlankLine(a0) by {
        forall i | 0 <= i < |a0| - 1
          ensures !(a0[i] == '\n' && a0[i + 1] == '\n')
        {
          assert a0[i] == answer[i] && a0[i + 1] == answer[i + 1];
        }
      }
      assert !EndsWithNewline(a0) by {
        if |a0| > 0 {
          assert answer[|answer| - 2] == a0[|a0| - 1];
        }
      }
      var tail := Tail(content);
      var x := tail + Entry(question, a0);
      EntryClean(tail, question, a0);
      assert tail + Record(question, answer) == x + SEP + "\n";
      SplitAfterClean(x, "\n");
      BlocksAppend(content, Record(question, answer));
      assert Split("\n") == ["\n"];
    }
  }

  /** When add_to_history records an answer ending with a newline and does
      not rewrite the file, the trailing piece is "\n", and the block of the
      next Clean exchange starts with that newline. */
  lemma NewlineAnswerLeadsNextBlock(content: string, question: string, answer: string,
                                    nextQuestion: string, nextAnswer: string)
    requires Clean(question) && NoBlankLine(answer) && EndsWithNewline(answer)
    requires |Blocks(content)| < CAPACITY
    requires Clean(nextQuestion) && Clean(nextAnswer)
    ensures Tail(AfterAdd(content, question, answer)) == "\n"
    ensures LastN(Blocks(AfterAdd(AfterAdd(content, question, answer), nextQuestion, nextAnswer)), 1)
         == ["\n" + Entry(nextQuestion, nextAnswer)]
  {
    var appended := content + Record(question, answer);
    AppendNewlineAnswer(content, question, answer);
    assert AfterAdd(content, question, answer) == appended;
    AddThenReadLast(appended, nextQuestion, nextAnswer);
  }

  /** How many blocks add_to_history leaves: one more, unless that exceeds
      CAPACITY, in which case as many as before. */
  lemma {:induction false} AddCount(content: string, question: string, answer: string)
    requires Clean(question) && NoBlankLine(answer)
    ensures |Blocks(AfterAdd(content, question, answer))| ==
      if |Blocks(content)| + 1 > CAPACITY then |Blocks(content)| else |Blocks(content)| + 1
  {
    var appended := content + Record(question, answer);
    AppendCountsOneBlock(content, question, answer);
    if |Blocks(appended)| > CAPACITY {
      TrimDropsOldest(appended);
    }
  }

  /** A file with at most CAPACITY blocks still has at most CAPACITY after
      add_to_history, for a question without blank lines or a trailing
      newline and an answer without blank lines. */
  lemma {:induction false} AddKeepsCapacity(content: string, question: string, answer: string)
    requires Clean(question) && NoBlankLine(answer)
    requires |Blocks(content)| <= CAPACITY
    ensures |Blocks(AfterAdd(content, question, answer))| <= CAPACITY
  {
    AddCount(content, question, answer);
  }

  /** The round trip: reading the last block after add_to_history gives the
      new entry, preceded by the file's trailing piece. That piece is ""
      after any Clean exchange (AddBlocks) and after a rewrite
      (TrimDropsOldest); after an answer ending with a newline it is "\n"
      (AppendNewlineAnswer, NewlineAnswerLeadsNextBlock), and the next block
      then starts with it. */
  lemma {:induction false} AddThenReadLast(content: string, question: string, answer: string)
    requires Clean(question) && Clean(answer)
    ensures LastN(Blocks(AfterAdd(content, question, answer)), 1)
         == [Tail(content) + Entry(question, answer)]
    ensures Tail(content) == "" ==>
      LastN(Blocks(AfterAdd(content, question, answer)), 1) == [Entry(question, answer)]
  {
    AddBlocks(content, question, answer);
    assert "" + Entry(question, answer) == Entry(question, answer);
  }

  /** An answer with a blank line in it yields several blocks, and trimming
      drops only one: from a full file, one such answer leaves more than
      CAPACITY blocks. */
  lemma MultiParagraphAnswerExceedsCapacity()
    ensures var full := Serialize(seq(CAPACITY, _ => "x"));
      |Blocks(full)| == CAPACITY &&
      |Blocks(AfterAdd(full, "q", "a\n\nb"))| == CAPACITY + 1
  {
    var olds := seq(CAPACITY, _ => "x");
    var full := Serialize(olds);
    SerializeRoundTrip(olds);
    var e := Entry("q", "a");
    assert Clean(e);
    assert Clean("b");
    var both := olds + [e, "b"];
    assert full + Record("q", "a\n\nb") == Serialize(both) by {
      SerializeAppend(olds, [e, "b"]);
      assert [e, "b"][1..] == ["b"] && ["b"][1..] == [];
      assert Serialize([e, "b"]) == e + SEP + ("b" + SEP + "");
    }
    SerializeRoundTrip(both);
    TrimDropsOldest(Serialize(both));
  }

  lemma {:induction false} SerializeAppend(xs: seq<string>, ys: seq<string>)
    ensures Serialize(xs + ys) == Serialize(xs) + Serialize(ys)
  {
    if xs != [] {
      SerializeAppend(xs[1..], ys);
      assert (xs + ys)[1..] == xs[1..] + ys;
    } else {
      assert xs + ys == ys;
    }
  }

  /** The entries of a list of exchanges, in order. */
  function Entries(es: seq<Exchange>): (r: seq<string>)
    ensures |r| == |es|
    ensures forall i :: 0 <= i < |es| ==> r[i] == Entry(es[i].question, es[i].answer)
  {
    if es == [] then []
    else Entries(es[..|es| - 1]) + [Entry(es[|es| - 1].question, es[|es| - 1].answer)]
  }

  /** The file after calling add_to_history for each exchange in turn,
      starting from an empty file. */
  function Replay(es: seq<Exchange>): string
  {
    if es == [] then ""
    else AfterAdd(Replay(es[..|es| - 1]), es[|es| - 1].question, es[|es| - 1].answer)
  }

  predicate Plain(e: Exchange)
  {
    Clean(e.question) && Clean(e.answer)
  }

  /** Keeping the window after one more entry keeps the most recent
      CAPACITY entries of the longer list. */
  lemma WindowOfRecent(xs: seq<string>, x: string)
    ensures Window(LastN(xs, CAPACITY) + [x]) == LastN(xs + [x], CAPACITY)
  {
    var kept := LastN(xs, CAPACITY);
    if |xs| < CAPACITY {
      assert kept == xs;
    } else {
      assert kept == xs[|xs| - CAPACITY..];
      assert (kept + [x])[1..] == (xs + [x])[|xs| + 1 - CAPACITY..];
    }
  }

  /** After N additions to an empty file the history holds exactly the
      min(N, CAPACITY) most recent entries, oldest first. */
  lemma {:induction false} ReplayKeepsMostRecent(es: seq<Exchange>)
    requires forall i :: 0 <= i < |es| ==> Plain(es[i])
    ensures Blocks(Replay(es)) == LastN(Entries(es), CAPACITY)
    ensures |Blocks(Replay(es))| == Min(|es|, CAPACITY)
    ensures Tail(Replay(es)) == ""
  {
    if es != [] {
      var init := es[..|es| - 1];
      var e := es[|es| - 1];
      assert forall i :: 0 <= i < |init| ==> Plain(init[i]) by {
        forall i | 0 <= i < |init| ensures Plain(init[i]) {
          assert init[i] == es[i];
        }
      }
      ReplayKeepsMostRecent(init);
      AddBlocks(Replay(init), e.question, e.answer);
      var x := Entry(e.question, e.answer);
      assert "" + x == x;
      assert Entries(es) == Entries(init) + [x];
      WindowOfRecent(Entries(init), x);
    }
  }

  /** An exchange that makes exactly one block: its question is Clean and
      its answer holds no blank line. */
  predicate OneBlock(e: Exchange)
  {
    Clean(e.question) && NoBlankLine(e.answer)
  }

  /** After N additions of such exchanges to an empty file it holds
      min(N, CAPACITY) blocks. */
  lemma {:induction false} ReplayCount(es: seq<Exchange>)
    requires forall i :: 0 <= i < |es| ==> OneBlock(es[i])
    ensures |Blocks(Replay(es))| == Min(|es|, CAPACITY)
  {
    if es != [] {
      var init := es[..|es| - 1];
      var e := es[|es| - 1];
      assert forall i :: 0 <= i < |init| ==> OneBlock(init[i]) by {
        forall i | 0 <= i < |init| ensures OneBlock(init[i]) {
          assert init[i] == es[i];
        }
      }
      ReplayCount(init);
      AddCount(Replay(init), e.question, e.answer);
    }
  }

  /** The history file: whether it exists and, when it does, its text. */
  class HistoryFile {
    var present: bool
    var content: string

    ghost predicate Valid()
      reads this
    {
      !present ==> content == ""
    }

    /** No history file yet. */
    constructor Missing()
      ensures Valid() && !present
    {
      present := false;
      content := "";
    }

    /** A history file left by earlier runs, holding `text`. */
    constructor Existing(text: string)
      ensures Valid() && present && content == text
    {
      present := true;
      content := text;
    }

    /** open(path, 'a').write(text): creates the file when missing and
        extends it by exactly `text`; nothing before it changes. */
    method Append(text: string)
      requires Valid()
      modifies this
      ensures Valid() && present
      ensures content == old(content) + text
      ensures old(content) <= content
    {
      present := true;
      content := content + text;
    }

    /** Rereads the file and, when it holds more than CAPACITY blocks,
        rewrites it with every block but the first, each followed by a
        blank line. */
    method TrimOldest()
      requires Valid() && present
      modifies this
      ensures Valid() && present
      ensures content == Trimmed(old(content))
    {
      var blocks := Blocks(content);
      if |blocks| > CAPACITY {
        content := Join(SEP, blocks[1..]) + SEP;
      }
    }

    /** add_to_history(question, answer). */
    method AddToHistory(question: string, answer: string)
      requires Valid()
      modifies this
      ensures Valid() && present
      ensures content == AfterAdd(old(content), question, answer)
      ensures Clean(question) && Clean(answer) ==>
        Blocks(content) == Window(Blocks(old(content)) + [Tail(old(content)) + Entry(question, answer)])
      ensures Clean(question) && NoBlankLine(answer) && |Blocks(old(content))| <= CAPACITY ==>
        |Blocks(content)| <= CAPACITY
    {
      Append(Record(question, answer));
      TrimOldest();
      if Clean(question) && Clean(answer) {
        AddBlocks(old(content), question, answer);
      }
      if Clean(question) && NoBlankLine(answer) {
        AddCount(old(content), question, answer);
      }
    }

    /** get_last_n_history(n): creates an empty file when there is none, then
        returns `blocks[-n:]`. */
    method GetLastNHistory(n: int) returns (blocks: seq<string>)
      requires Valid()
      modifies this
      ensures Valid() && present
      ensures content == old(content)
      ensures blocks == LastN(Blocks(content), n)
      ensures !old(present) ==> blocks == []
    {
      if !present {
        present := true;
        content := "";
      }
      blocks := LastN(Blocks(content), n);
    }

    /** clear_history(): removes the file and creates an empty one. */
    method ClearHistory()
      modifies this
      ensures Valid() && present && content == ""
      ensures forall n: int :: LastN(Blocks(content), n) == []
    {
      present := false;
      content := "";
      present := true;
    }
  }
}
