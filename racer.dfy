/** The `Racer` class of gracer.py: tool-path resolution with its cache, the racer call,
    and what completion and definition lookups return. */
module RacerClient {
  import opened Common
  import opened Text
  import Settings
  import opened Paths
  import opened Request
  import opened Reply

  /** What the host process offers the plugin: its environment, the paths that exist,
      the expansion of `~/.cargo/bin/racer`, and the content of the settings file
      (`None` when the file does not exist). */
  datatype Host = Host(environ: map<string, string>, existing: set<string>, cargoRacer: string,
                       settingsFile: Option<string>)

  /** The racer program: racer's reply to an argument vector run in an environment. */
  type Oracle = (seq<string>, map<string, string>) -> Outcome

  const RustSrcKey := "rust_src_path"
  const RacerKey := "racer_path"

  /** What `get_rust_src_path` computes when nothing is cached: the persisted setting,
      else the last existing candidate. */
  function ResolveRustSrcPath(host: Host): Result<string> {
    Settings.Lookup(host.settingsFile, RustSrcKey, LastExisting(RustSrcCandidates(host.environ), host.existing))
  }

  /** What `get_racer_path` computes when nothing is cached. */
  function ResolveRacerPath(host: Host): Result<string> {
    Settings.Lookup(host.settingsFile, RacerKey, LastExisting(AllSome(RacerCandidates(host.cargoRacer)), host.existing))
  }

  class Racer {
    /** `RUST_SRC_PATH`: `None` until the first resolution that did not raise. */
    var rustSrcPath: Option<string>
    /** `RACER_PATH`: likewise. */
    var racerPath: Option<string>

    constructor ()
      ensures rustSrcPath == None && racerPath == None
    {
      rustSrcPath := None;
      racerPath := None;
    }

    /** `get_rust_src_path`: a cached value is returned as it is; otherwise the resolved
        value is cached, unless reading the settings raised. */
    method GetRustSrcPath(host: Host) returns (r: Result<string>)
      modifies this`rustSrcPath
      ensures old(rustSrcPath).Some? ==> r == Ok(old(rustSrcPath).value) && rustSrcPath == old(rustSrcPath)
      ensures old(rustSrcPath).None? ==> r == ResolveRustSrcPath(host)
      ensures old(rustSrcPath).None? ==> rustSrcPath == if r.Ok? then Some(r.value) else None
    {
      if rustSrcPath.Some? {
        return Ok(rustSrcPath.value);
      }
      var default := DefaultPath(RustSrcCandidates(host.environ), host.existing);
      r := Settings.GetValue(host.settingsFile, RustSrcKey, default);
      if r.Ok? {
        rustSrcPath := Some(r.value);
      }
    }

    /** `get_racer_path`, the same scheme over the racer candidates. */
    method GetRacerPath(host: Host) returns (r: Result<string>)
      modifies this`racerPath
      ensures old(racerPath).Some? ==> r == Ok(old(racerPath).value) && racerPath == old(racerPath)
      ensures old(racerPath).None? ==> r == ResolveRacerPath(host)
      ensures old(racerPath).None? ==> racerPath == if r.Ok? then Some(r.value) else None
    {
      if racerPath.Some? {
        return Ok(racerPath.value);
      }
      var default := DefaultPath(AllSome(RacerCandidates(host.cargoRacer)), host.existing);
      r := Settings.GetValue(host.settingsFile, RacerKey, default);
      if r.Ok? {
        racerPath := Some(r.value);
      }
    }

    /** The reply racer gives once both paths are known. */
    ghost function RacerReply(host: Host, subcommand: string, cursor: Cursor, tempName: string, oracle: Oracle): string
      reads this
      requires rustSrcPath.Some? && racerPath.Some?
    {
      OutputOf(oracle(Argv(racerPath.value, subcommand, cursor, tempName), ChildEnv(host.environ, rustSrcPath.value)))
    }

    /** `init_racer`: resolve both paths (a settings error escapes), run racer on the
        snapshot `tempName` with `RUST_SRC_PATH` set to the source path, and turn any
        exception of the call into `""`. */
    method InitRacer(host: Host, subcommand: string, cursor: Cursor, tempName: string, oracle: Oracle)
      returns (r: Result<string>)
      modifies this
      ensures old(rustSrcPath).Some? ==> rustSrcPath == old(rustSrcPath)
      ensures old(racerPath).Some? ==> racerPath == old(racerPath)
      ensures old(rustSrcPath).None? ==>
        rustSrcPath == if ResolveRustSrcPath(host).Ok? then Some(ResolveRustSrcPath(host).value) else None
      ensures old(racerPath).None? ==>
        racerPath == if rustSrcPath.Some? && ResolveRacerPath(host).Ok? then Some(ResolveRacerPath(host).value) else None
      ensures r.Ok? <==> rustSrcPath.Some? && racerPath.Some?
      ensures r.Ok? ==> r.value == RacerReply(host, subcommand, cursor, tempName, oracle)
      ensures r.Err? ==> r.error == ValueError
    {
      var src :- GetRustSrcPath(host);
      var racer :- GetRacerPath(host);
      var outcome := oracle(Argv(racer, subcommand, cursor, tempName), ChildEnv(host.environ, src));
      match outcome
      case Completed(out) => r := Ok(out);
      case Raised => r := Ok("");
    }

    /** `get_matches`: the completions in racer's reply, none when racer failed. */
    method GetMatches(host: Host, cursor: Cursor, tempName: string, oracle: Oracle)
      returns (r: Result<seq<Completion>>)
      modifies this
      ensures old(rustSrcPath).Some? ==> rustSrcPath == old(rustSrcPath)
      ensures old(racerPath).Some? ==> racerPath == old(racerPath)
      ensures old(rustSrcPath).None? ==>
        rustSrcPath == if ResolveRustSrcPath(host).Ok? then Some(ResolveRustSrcPath(host).value) else None
      ensures old(racerPath).None? ==>
        racerPath == if rustSrcPath.Some? && ResolveRacerPath(host).Ok? then Some(ResolveRacerPath(host).value) else None
      ensures !(rustSrcPath.Some? && racerPath.Some?) ==> r == Err(ValueError)
      ensures rustSrcPath.Some? && racerPath.Some? ==>
        r == Completions(RacerReply(host, "complete", cursor, tempName, oracle))
    {
      var out :- InitRacer(host, "complete", cursor, tempName, oracle);
      if out == "" {
        CompletionsSpec(out);
        return Ok([]);
      }
      r := ParseCompletions(out);
    }

    /** `get_definition`: the definition in racer's first MATCH line, if any. */
    method GetDefinition(host: Host, cursor: Cursor, tempName: string, oracle: Oracle)
      returns (r: Result<Option<Definition>>)
      modifies this
      ensures old(rustSrcPath).Some? ==> rustSrcPath == old(rustSrcPath)
      ensures old(racerPath).Some? ==> racerPath == old(racerPath)
      ensures old(rustSrcPath).None? ==>
        rustSrcPath == if ResolveRustSrcPath(host).Ok? then Some(ResolveRustSrcPath(host).value) else None
      ensures old(racerPath).None? ==>
        racerPath == if rustSrcPath.Some? && ResolveRacerPath(host).Ok? then Some(ResolveRacerPath(host).value) else None
      ensures !(rustSrcPath.Some? && racerPath.Some?) ==> r == Err(ValueError)
      ensures rustSrcPath.Some? && racerPath.Some? ==>
        r == FirstDefinition(Split(RacerReply(host, "find-definition", cursor, tempName, oracle), '\n'))
    {
      var out :- InitRacer(host, "find-definition", cursor, tempName, oracle);
      if out == "" {
        assert Split(out, '\n') == [""];
        assert !IsMatchLine("");
        return Ok(None);
      }
      r := ParseDefinition(out);
    }
  }

  /** The first completion request of a fresh `Racer` runs racer with the resolved racer
      path and with `RUST_SRC_PATH` set to the resolved source path; a settings error
      makes it raise `ValueError`. */
  method FirstCallUsesResolvedPaths(host: Host, cursor: Cursor, tempName: string, oracle: Oracle)
    returns (r: Result<seq<Completion>>)
    ensures ResolveRustSrcPath(host).Ok? && ResolveRacerPath(host).Ok? ==>
      r == Completions(OutputOf(oracle(Argv(ResolveRacerPath(host).value, "complete", cursor, tempName),
                                       ChildEnv(host.environ, ResolveRustSrcPath(host).value))))
    ensures ResolveRustSrcPath(host).Err? || ResolveRacerPath(host).Err? ==> r == Err(ValueError)
  {
    var racer := new Racer();
    r := racer.GetMatches(host, cursor, tempName, oracle);
  }

  /** A failed racer call yields no completions and no definition. */
  lemma FailedCallFindsNothing()
    ensures Completions(OutputOf(Raised)) == Ok([])
    ensures FirstDefinition(Split(OutputOf(Raised), '\n')) == Ok(None)
  {
    CompletionsSpec("");
    assert Split("", '\n') == [""];
    assert !IsMatchLine("");
  }

  /** Once a source path is cached, a settings save (which writes the file that a new
      resolution would read) does not change what later calls return. */
  method CachedPathSurvivesSave(host: Host, racerText: string, srcText: string)
    returns (first: Result<string>, second: Result<string>)
    ensures first == ResolveRustSrcPath(host)
    ensures first.Ok? ==> second == first
    ensures first.Err? ==> second == ResolveRustSrcPath(SavedBy(host, racerText, srcText))
  {
    var racer := new Racer();
    first := racer.GetRustSrcPath(host);
    second := racer.GetRustSrcPath(SavedBy(host, racerText, srcText));
  }

  /** The host after `on_btn_save_clicked` wrote the two text fields. */
  function SavedBy(host: Host, racerText: string, srcText: string): Host {
    host.(settingsFile := Some(Settings.Serialize([(RacerKey, racerText), (RustSrcKey, srcText)])))
  }

  /** A path saved from the configuration dialog overrides every candidate in a fresh
      resolution, even when it is empty. */
  lemma SavedPathsOverride(host: Host, racerText: string, srcText: string)
    requires '=' !in racerText && '\n' !in racerText && '=' !in srcText && '\n' !in srcText
    ensures ResolveRustSrcPath(SavedBy(host, racerText, srcText)) == Ok(srcText)
    ensures ResolveRacerPath(SavedBy(host, racerText, srcText)) == Ok(racerText)
  {
    var d := [(RacerKey, racerText), (RustSrcKey, srcText)];
    var src := LastExisting(RustSrcCandidates(host.environ), host.existing);
    var rac := LastExisting(AllSome(RacerCandidates(host.cargoRacer)), host.existing);
    assert Settings.Storable(d) by {
      assert RacerKey == ['r', 'a', 'c', 'e', 'r', '_', 'p', 'a', 't', 'h'];
      assert RustSrcKey == ['r', 'u', 's', 't', '_', 's', 'r', 'c', '_', 'p', 'a', 't', 'h'];
    }
    Settings.SaveThenGet(d, RustSrcKey, src);
    Settings.SaveThenGet(d, RacerKey, rac);
    assert d[1..][1..] == [];
    assert RacerKey != RustSrcKey by {
      assert RacerKey[1] != RustSrcKey[1];
    }
    assert Settings.LastValue(d, RustSrcKey, src) == Settings.LastValue(d[1..], RustSrcKey, src);
    assert Settings.LastValue(d[1..], RustSrcKey, src) == Settings.LastValue([], RustSrcKey, srcText);
    assert Settings.LastValue(d, RacerKey, rac) == Settings.LastValue(d[1..], RacerKey, racerText);
    assert Settings.LastValue(d[1..], RacerKey, racerText) == Settings.LastValue([], RacerKey, racerText);
  }

  /** Where `on_find_definition_active` moves the cursor: zero-based line, column, file. */
  datatype Target = Target(line: int, column: int, file: string)

  /** `int(result[0]) - 1`, `int(result[1])`, `result[2]`; any exception (no definition,
      a non-numeric field) is caught and means "do not move". */
  function NavigationTarget(d: Option<Definition>): Option<Target> {
    match d
    case None => None
    case Some(def) =>
      match (ParseInt(def.line), ParseInt(def.column))
      case (Some(l), Some(c)) => Some(Target(l - 1, c, def.file))
      case _ => None
  }

  /** A definition that racer reports at 1-based line `line + 1` is reached at the
      zero-based `line`, whatever MATCH lines follow. */
  lemma {:induction false} NavigationRoundTrip(name: string, line: nat, column: nat, file: string,
                                               kind: string, context: string, later: seq<string>)
    requires ',' !in name && ',' !in file && ',' !in kind && ',' !in context
    ensures var fs := [name, NatToString(line + 1), NatToString(column), file, kind, context];
      var r := FirstDefinition([MatchLine(fs)] + later);
      r.Ok? && NavigationTarget(r.value) == Some(Target(line, column, file))
  {
    var fs := [name, NatToString(line + 1), NatToString(column), file, kind, context];
    assert forall i :: 0 <= i < |fs| ==> ',' !in fs[i] by {
      assert AllDigits(fs[1]) && AllDigits(fs[2]);
      forall i | 1 <= i <= 2 ensures ',' !in fs[i] {
        if ',' in fs[i] {
          var k :| 0 <= k < |fs[i]| && fs[i][k] == ',';
        }
      }
    }
    FieldsOfMatchLine(fs);
    ParseIntOfNatToString(line + 1);
    ParseIntOfNatToString(column);
  }
}
