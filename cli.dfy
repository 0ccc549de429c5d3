/** The routing of one invocation (fastask/ask.py, main). */
module Cli {
  import opened Wrappers
  import opened Configuration
  import opened History
  import opened Answering

  /** What one invocation does. */
  datatype Action =
    | Usage              // no arguments: print help, exit with status 1
    | SetupThenExit      // --reset: run the setup, then exit()
    | SetupThenReturn    // not configured: run the setup and return without answering
    | Crash              // is_configured raised KeyError
    | AnswerHosted(apiKey: string)
    | AnswerLocal
    | NoAnswer           // a configured MODE that is neither OPENAI nor LOCAL

  /** The decision main() takes, from the length of sys.argv, the --reset
      flag and the configuration. A falsy is_configured() (False or None)
      sends the user to setup. */
  function Route(argc: int, reset: bool, cfg: Config): (a: Action)
    ensures a == Usage <==> argc == 1
    ensures a == SetupThenExit <==> argc != 1 && reset
    ensures a == Crash <==> argc != 1 && !reset && KeyLookupFails(cfg)
    ensures a == SetupThenReturn <==>
      argc != 1 && !reset && !Configured(cfg) && !KeyLookupFails(cfg)
    ensures a.AnswerHosted? <==>
      argc != 1 && !reset && Configured(cfg) && Mode(cfg) == "OPENAI"
    ensures a.AnswerHosted? ==> HasApiKey(cfg) && a.apiKey == ApiKey(cfg) && a.apiKey != ""
    ensures a == AnswerLocal <==>
      argc != 1 && !reset && Configured(cfg) && Mode(cfg) == "LOCAL"
    ensures a != NoAnswer
  {
    if argc == 1 then Usage
    else if reset then SetupThenExit
    else match IsConfigured(cfg)
      case RaisedKeyError => Crash
      case Returned(v) =>
        if v != Some(true) then SetupThenReturn
        else if Mode(cfg) == "OPENAI" then AnswerHosted(ApiKey(cfg))
        else if Mode(cfg) == "LOCAL" then AnswerLocal
        else NoAnswer
  }

  /** The exit status of an invocation: 1 for the usage exit (`sys.exit(1)`)
      and for the uncaught KeyError (Python exits with status 1 on an
      uncaught exception), 0 otherwise (`exit()` and a normal return). */
  function ExitStatus(a: Action): (status: int)
    ensures status == 1 <==> a == Usage || a == Crash
    ensures status != 1 ==> status == 0
  {
    match a
    case Usage => 1
    case Crash => 1
    case _ => 0
  }

  /** An invocation fails exactly when it has no arguments, or when it asks a
      question in hosted mode while the API key is missing. */
  lemma RouteExitStatus(argc: int, reset: bool, cfg: Config)
    ensures ExitStatus(Route(argc, reset, cfg)) == 1 <==>
      argc == 1 || (!reset && KeyLookupFails(cfg))
    ensures ExitStatus(Route(argc, reset, cfg)) != 1 ==> ExitStatus(Route(argc, reset, cfg)) == 0
  {
  }

  /** Setup and answering never happen in the same invocation, and a
      configuration written by a successful setup routes the next invocation
      to the chosen mode. */
  lemma {:induction false} SetupThenAnswer(cfg: Config, input: SetupInput, argc: int)
    requires argc != 1
    requires input.choice == LocalModel ==> input.runnerInstalled
    requires input.choice == OwnApiKey ==> ChosenKey(input) != ""
    ensures var next := Route(argc, false, AfterSetup(cfg, input));
      (input.choice == OwnApiKey ==> next == AnswerHosted(ChosenKey(input))) &&
      (input.choice == LocalModel ==> next == AnswerLocal)
  {
    var r := AfterSetup(cfg, input);
    assert Configured(r);
  }

  /** One invocation of main(). The model's replies are parameters: `deltas`
      is the hosted completion stream and `stdout` the local runner's
      output; `setup` stands for the interactive setup's inputs. */
  method Invoke(store: ConfigStore, history: HistoryFile, argc: int, reset: bool,
                question: string, setup: SetupInput, systemPrompt: string,
                deltas: seq<Option<string>>, stdout: string)
    returns (action: Action)
    requires history.Valid()
    modifies store, history
    ensures history.Valid()
    ensures action == Route(argc, reset, old(store.config))
    ensures store.config ==
      if action == SetupThenExit || action == SetupThenReturn
      then AfterSetup(old(store.config), setup) else old(store.config)
    ensures history.content ==
      match action
      case AnswerHosted(_) => AfterAdd(old(history.content), question, Streamed(deltas))
      case AnswerLocal => AfterAdd(old(history.content), question, stdout)
      case _ => old(history.content)
    ensures history.present == (old(history.present) || action.AnswerHosted? || action == AnswerLocal)
  {
    if argc == 1 {
      return Usage;
    }
    if reset {
      store.ConfigMode(setup);
      return SetupThenExit;
    }
    var configured := IsConfigured(store.config);
    if configured.RaisedKeyError? {
      return Crash;
    }
    if configured.value != Some(true) {
      store.ConfigMode(setup);
      return SetupThenReturn;
    }
    if Mode(store.config) == "OPENAI" {
      var apiKey := ApiKey(store.config);
      var _, _ := UseOpenAI(history, systemPrompt, question, deltas);
      return AnswerHosted(apiKey);
    } else if Mode(store.config) == "LOCAL" {
      var _, _ := UseLocal(history, question, stdout);
      return AnswerLocal;
    }
    return NoAnswer;
  }
}
