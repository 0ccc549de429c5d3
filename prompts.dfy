/** What each answering path sends to its model: the chat message list of
    use_openai and the ollama argument vector of use_local (fastask/ask.py). */
module Prompts {
  import opened Text

  datatype Role = System | User

  datatype Message = Message(role: Role, content: string)

  const ANSWER_PREFIX: string := "Answer this as briefly as possible: "

  const HOSTED_CONTEXT_PREFIX: string :=
    "For context, here are recent question and answers, so if the current question is ambigous see if theres context here.\n\n"

  const LOCAL_CONTEXT_PREFIX: string := "For context, here are recent question and answers\n\n"

  const OLLAMA_RUN: seq<string> := ["ollama", "run", "fastask-preset"]

  /** The history blocks as one text, one block after another on new lines
      (Python `"\n".join(history)`). */
  function HistoryText(history: seq<string>): string
  {
    Join("\n", history)
  }

  /** The messages use_openai sends: the system prompt first, the question
      last, and the history context at index 1 exactly when there is
      history. */
  function HostedMessages(systemPrompt: string, history: seq<string>, question: string): (ms: seq<Message>)
    ensures |ms| == if history == [] then 2 else 3
    ensures ms[0] == Message(System, systemPrompt)
    ensures ms[|ms| - 1] == Message(User, ANSWER_PREFIX + question)
    ensures history != [] <==>
      (|ms| == 3 && ms[1] == Message(User, HOSTED_CONTEXT_PREFIX + HistoryText(history)))
    ensures forall i :: 1 <= i < |ms| ==> ms[i].role == User
  {
    var messages := [Message(System, systemPrompt), Message(User, ANSWER_PREFIX + question)];
    if history != [] then
      // messages.insert(1, context)
      messages[..1] + [Message(User, HOSTED_CONTEXT_PREFIX + HistoryText(history))] + messages[1..]
    else messages
  }

  /** The command use_local runs: `ollama run fastask-preset <prompt>`, where
      the prompt is the question itself exactly when there is no history, and
      otherwise the history context followed by a blank line and the
      question. */
  function LocalCommand(history: seq<string>, question: string): (cmd: seq<string>)
    ensures |cmd| == 4 && cmd[..3] == OLLAMA_RUN
    ensures |question| <= |cmd[3]| && cmd[3][|cmd[3]| - |question|..] == question
    ensures cmd[3] == question <==> history == []
    ensures history != [] ==>
      cmd[3] == LOCAL_CONTEXT_PREFIX + HistoryText(history) + SEP + question
  {
    if history != [] then
      OLLAMA_RUN + [LOCAL_CONTEXT_PREFIX + HistoryText(history) + SEP + question]
    else OLLAMA_RUN + [question]
  }
}
