/** The configuration store and the "is it configured" decision
    (fastask/ask.py, is_openai_configured, is_configured, config_mode). */
module Configuration {
  import opened Wrappers

  /** A parsed INI file: section name to option name to value. */
  type Section = map<string, string>
  type Config = map<string, Section>

  /** The value of a Python call that may raise KeyError on a missing section
      or option. */
  datatype Outcome<T> = Returned(value: T) | RaisedKeyError

  predicate HasMode(cfg: Config)
  {
    "MODES" in cfg && "MODE" in cfg["MODES"]
  }

  function Mode(cfg: Config): string
    requires HasMode(cfg)
  {
    cfg["MODES"]["MODE"]
  }

  predicate HasApiKey(cfg: Config)
  {
    "OPENAI" in cfg && "API_KEY" in cfg["OPENAI"]
  }

  function ApiKey(cfg: Config): string
    requires HasApiKey(cfg)
  {
    cfg["OPENAI"]["API_KEY"]
  }

  /** A configuration an invocation can answer with: local mode, or hosted
      mode with a non-empty API key. */
  predicate Configured(cfg: Config)
  {
    HasMode(cfg) &&
    (Mode(cfg) == "LOCAL" || (Mode(cfg) == "OPENAI" && HasApiKey(cfg) && ApiKey(cfg) != ""))
  }

  /** Hosted mode is selected but the OPENAI section or its API_KEY option is
      missing, so looking the key up raises. */
  predicate KeyLookupFails(cfg: Config)
  {
    HasMode(cfg) && Mode(cfg) == "OPENAI" && !HasApiKey(cfg)
  }

  /** A mode is recorded that is neither of the two known ones. */
  predicate UnknownMode(cfg: Config)
  {
    HasMode(cfg) && Mode(cfg) != "" && Mode(cfg) != "OPENAI" && Mode(cfg) != "LOCAL"
  }

  /** is_openai_configured(): raises when the key is missing, otherwise
      whether it is non-empty. */
  function IsOpenAIConfigured(cfg: Config): (r: Outcome<bool>)
    ensures r == RaisedKeyError <==> !HasApiKey(cfg)
    ensures r == Returned(true) <==> HasApiKey(cfg) && ApiKey(cfg) != ""
  {
    if "OPENAI" !in cfg || "API_KEY" !in cfg["OPENAI"] then RaisedKeyError
    else if cfg["OPENAI"]["API_KEY"] == "" then Returned(false)
    else Returned(true)
  }

  /** is_configured(): True, False, None (an unknown mode falls off the end of
      the function) or a KeyError from is_openai_configured. The four cases
      are told apart by the reference predicates above. */
  function IsConfigured(cfg: Config): (r: Outcome<Option<bool>>)
    ensures r == Returned(Some(true)) <==> Configured(cfg)
    ensures r == RaisedKeyError <==> KeyLookupFails(cfg)
    ensures r == Returned(None) <==> UnknownMode(cfg)
    ensures r == Returned(Some(false)) <==>
      !HasMode(cfg) || Mode(cfg) == "" ||
      (Mode(cfg) == "OPENAI" && HasApiKey(cfg) && ApiKey(cfg) == "")
  {
    if "MODES" in cfg && "MODE" in cfg["MODES"] then
      if |cfg["MODES"]["MODE"]| == 0 then Returned(Some(false))
      else if cfg["MODES"]["MODE"] == "OPENAI" then
        match IsOpenAIConfigured(cfg)
        case RaisedKeyError => RaisedKeyError
        case Returned(b) => Returned(Some(b))
      else if cfg["MODES"]["MODE"] == "LOCAL" then Returned(Some(true))
      else Returned(None)
    else Returned(Some(false))
  }

  /** A fresh store (no configuration file) is not configured. */
  lemma FreshStoreNotConfigured()
    ensures IsConfigured(map[]) == Returned(Some(false))
  {
  }

  /** The two entries of the setup menu. */
  datatype Choice = OwnApiKey | LocalModel

  /** What the interactive setup learns from its surroundings: the menu
      choice, the OPENAI_API_KEY environment variable, the key the user would
      type when that variable is unset or empty, and whether `ollama --version`
      succeeds and neither ollama call raises (a failing `ollama create` does
      not abort the setup). */
  datatype SetupInput = SetupInput(choice: Choice, envKey: Option<string>,
                                   typedKey: string, runnerInstalled: bool)

  /** The key config_mode records: the environment's, unless it is unset or
      empty (Python `if not api_key`). */
  function ChosenKey(input: SetupInput): string
  {
    if input.envKey.Some? && input.envKey.value != "" then input.envKey.value else input.typedKey
  }

  /** The configuration after config_mode(). */
  function AfterSetup(cfg: Config, input: SetupInput): (r: Config)
    ensures input.choice == OwnApiKey ==>
      HasMode(r) && Mode(r) == "OPENAI" && HasApiKey(r) && ApiKey(r) == ChosenKey(input) &&
      r["OPENAI"] == map["API_KEY" := ChosenKey(input)] &&
      r["MODES"] == map["MODE" := "OPENAI"] &&
      (Configured(r) <==> ChosenKey(input) != "")
    ensures input.choice == LocalModel && input.runnerInstalled ==>
      Configured(r) && Mode(r) == "LOCAL" && r["MODES"] == map["MODE" := "LOCAL"]
    ensures input.choice == LocalModel && !input.runnerInstalled ==> r == cfg
    ensures forall s :: s in cfg && s != "MODES" && (input.choice == OwnApiKey ==> s != "OPENAI") ==>
      s in r && r[s] == cfg[s]
    ensures r.Keys == cfg.Keys + (if input.choice == OwnApiKey then {"OPENAI", "MODES"}
                                  else if input.runnerInstalled then {"MODES"} else {})
  {
    match input.choice
    case OwnApiKey =>
      cfg["OPENAI" := map["API_KEY" := ChosenKey(input)]]["MODES" := map["MODE" := "OPENAI"]]
    case LocalModel =>
      // a failing `ollama --version` aborts setup before anything is written
      if input.runnerInstalled then cfg["MODES" := map["MODE" := "LOCAL"]] else cfg
  }

  /** The process-wide configuration object. */
  class ConfigStore {
    var config: Config

    constructor (loaded: Config)
      ensures config == loaded
    {
      config := loaded;
    }

    /** config_mode(): the interactive setup. */
    method ConfigMode(input: SetupInput)
      modifies this
      ensures config == AfterSetup(old(config), input)
    {
      match input.choice {
        case OwnApiKey =>
          var key := ChosenKey(input);
          config := config["OPENAI" := map["API_KEY" := key]];
          config := config["MODES" := map["MODE" := "OPENAI"]];
        case LocalModel =>
          if input.runnerInstalled {
            config := config["MODES" := map["MODE" := "LOCAL"]];
          }
      }
    }
  }
}
