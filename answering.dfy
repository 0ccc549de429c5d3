/** The two answering paths of fastask/ask.py, use_openai and use_local:
    read the recent history, build the request, collect the streamed reply
    and record the exchange. */
module Answering {
  import opened Wrappers
  import opened Slices
  import opened History
  import opened Prompts

  /** How many history blocks each path sends as context. */
  const CONTEXT_BLOCKS: int := 5

  /** The text one streamed chunk contributes (Python `content or ""`). */
  function DeltaText(delta: Option<string>): string
  {
    if delta.Some? then delta.value else ""
  }

  /** The reply a completion stream adds up to, chunk after chunk. */
  function Streamed(deltas: seq<Option<string>>): string
  {
    if deltas == [] then ""
    else Streamed(deltas[..|deltas| - 1]) + DeltaText(deltas[|deltas| - 1])
  }

  /** The reply of two consecutive parts of a stream is the first part's
      reply followed by the second's: nothing is dropped or reordered. */
  lemma {:induction false} StreamedConcat(xs: seq<Option<string>>, ys: seq<Option<string>>)
    ensures Streamed(xs + ys) == Streamed(xs) + Streamed(ys)
    decreases |ys|
  {
    if ys == [] {
      assert xs + ys == xs;
    } else {
      var ys', last := ys[..|ys| - 1], ys[|ys| - 1];
      var zs := xs + ys;
      assert zs[..|zs| - 1] == xs + ys' && zs[|zs| - 1] == last;
      assert Streamed(zs) == Streamed(xs + ys') + DeltaText(last);
      assert Streamed(ys) == Streamed(ys') + DeltaText(last);
      StreamedConcat(xs, ys');
    }
  }

  /** A stream whose chunks all carry no text (no content, or "") adds up
      to the empty reply. */
  lemma {:induction false} ContentlessStreamIsEmpty(ys: seq<Option<string>>)
    requires forall i :: 0 <= i < |ys| ==> DeltaText(ys[i]) == ""
    ensures Streamed(ys) == ""
    decreases |ys|
  {
    if ys != [] {
      var ys' := ys[..|ys| - 1];
      assert forall i :: 0 <= i < |ys'| ==> DeltaText(ys'[i]) == "" by {
        forall i | 0 <= i < |ys'| ensures DeltaText(ys'[i]) == "" {
          assert ys'[i] == ys[i];
        }
      }
      ContentlessStreamIsEmpty(ys');
    }
  }

  /** Chunks without text (content None or "") change nothing wherever they
      occur in the stream: the reply is that of the other chunks. */
  lemma ContentlessChunksAddNothing(xs: seq<Option<string>>, ys: seq<Option<string>>,
                                    zs: seq<Option<string>>)
    requires forall i :: 0 <= i < |ys| ==> ys[i] == None || ys[i] == Some("")
    ensures Streamed(xs + ys + zs) == Streamed(xs + zs)
  {
    forall i | 0 <= i < |ys|
      ensures DeltaText(ys[i]) == ""
    {
    }
    ContentlessStreamIsEmpty(ys);
    var xy := xs + ys;
    StreamedConcat(xs, ys);
    assert Streamed(xy) == Streamed(xs) + "";
    assert Streamed(xs) + "" == Streamed(xs);
    StreamedConcat(xy, zs);
    assert xs + ys + zs == xy + zs;
    StreamedConcat(xs, zs);
  }

  /** The loop of use_openai: append each chunk's delta text (nothing for a
      chunk without content) to the response, in stream order. */
  method CollectStream(deltas: seq<Option<string>>) returns (response: string)
    ensures response == Streamed(deltas)
  {
    response := "";
    for i := 0 to |deltas|
      invariant response == Streamed(deltas[..i])
    {
      assert deltas[..i + 1][..i] == deltas[..i];
      response := response + DeltaText(deltas[i]);
    }
    assert deltas[..|deltas|] == deltas;
  }

  /** The loop of use_local: read the child's output one character at a time
      until a read returns nothing, and keep every character read. */
  method RelayOutput(stdout: string) returns (output: string)
    ensures output == stdout
  {
    output := "";
    var pos := 0;
    while true
      invariant 0 <= pos <= |stdout|
      invariant output == stdout[..pos]
      decreases |stdout| - pos
    {
      var ch := if pos < |stdout| then stdout[pos..pos + 1] else "";
      if ch == "" {
        break;
      }
      output := output + ch;
      pos := pos + 1;
    }
    assert stdout[..|stdout|] == stdout;
  }

  /** use_openai(client, q): sends the message list built from the file's
      last five blocks, collects the streamed reply and records the
      exchange. The remote call is replaced by the stream it returns,
      `deltas`. */
  method UseOpenAI(history: HistoryFile, systemPrompt: string, question: string,
                   deltas: seq<Option<string>>)
    returns (messages: seq<Message>, response: string)
    requires history.Valid()
    modifies history
    ensures history.Valid() && history.present
    ensures messages == HostedMessages(systemPrompt, LastN(Blocks(old(history.content)), CONTEXT_BLOCKS), question)
    ensures response == Streamed(deltas)
    ensures history.content == AfterAdd(old(history.content), question, response)
  {
    var recent := history.GetLastNHistory(CONTEXT_BLOCKS);
    messages := HostedMessages(systemPrompt, recent, question);
    response := CollectStream(deltas);
    history.AddToHistory(question, response);
  }

  /** use_local(q): runs the ollama command built from the file's last five
      blocks, relays its output and records the exchange. The child process
      is replaced by its output as the text-mode pipe reads it, `stdout`. */
  method UseLocal(history: HistoryFile, question: string, stdout: string)
    returns (command: seq<string>, output: string)
    requires history.Valid()
    modifies history
    ensures history.Valid() && history.present
    ensures command == LocalCommand(LastN(Blocks(old(history.content)), CONTEXT_BLOCKS), question)
    ensures output == stdout
    ensures history.content == AfterAdd(old(history.content), question, output)
  {
    var recent := history.GetLastNHistory(CONTEXT_BLOCKS);
    command := LocalCommand(recent, question);
    output := RelayOutput(stdout);
    history.AddToHistory(question, output);
  }
}
