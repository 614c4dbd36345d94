/** The older `GracerProvider` of src/gracer.py: the racer path is the FIRST existing
    candidate, the call gets no environment override, and a completion is a 3-tuple. */
module Legacy {
  import opened Common
  import opened Text
  import opened Paths
  import opened Request
  import opened Reply

  /** `[path for path in paths if os.path.exists(path)]`. */
  function ExistingOnly(paths: seq<string>, existing: set<string>): (r: seq<string>)
    ensures forall i :: 0 <= i < |r| ==> r[i] in existing
    ensures forall p :: p in paths && p in existing ==> p in r
  {
    if paths == [] then []
    else (if paths[0] in existing then [paths[0]] else []) + ExistingOnly(paths[1..], existing)
  }

  /** `get_racer_command`: element 0 of the existing candidates; `IndexError` when
      there is none. */
  function RacerCommand(paths: seq<string>, existing: set<string>): Result<string> {
    var found := ExistingOnly(paths, existing);
    if |found| == 0 then Err(IndexError) else Ok(found[0])
  }

  /** The command is the first existing candidate, and fails exactly when none exists. */
  lemma {:induction false} RacerCommandSpec(paths: seq<string>, existing: set<string>)
    ensures RacerCommand(paths, existing).Err? <==> forall i :: 0 <= i < |paths| ==> paths[i] !in existing
    ensures RacerCommand(paths, existing).Err? ==> RacerCommand(paths, existing).error == IndexError
    ensures RacerCommand(paths, existing).Ok? ==>
      exists i :: 0 <= i < |paths| && paths[i] == RacerCommand(paths, existing).value &&
        paths[i] in existing && forall j :: 0 <= j < i ==> paths[j] !in existing
  {
    if paths != [] {
      RacerCommandSpec(paths[1..], existing);
      if paths[0] !in existing {
        var found := ExistingOnly(paths, existing);
        assert found == ExistingOnly(paths[1..], existing);
        if RacerCommand(paths, existing).Ok? {
          var i :| 0 <= i < |paths[1..]| && paths[1..][i] == found[0] &&
            paths[1..][i] in existing && forall j :: 0 <= j < i ==> paths[1..][j] !in existing;
          assert paths[i + 1] == found[0];
          forall j | 0 <= j < i + 1 ensures paths[j] !in existing {
            if j > 0 {
              assert paths[j] == paths[1..][j - 1];
            }
          }
        } else {
          forall i | 0 <= i < |paths| ensures paths[i] !in existing {
            if i > 0 {
              assert paths[i] == paths[1..][i - 1];
            }
          }
        }
      } else {
        assert paths[0] in paths;
      }
    }
  }

  /** With two distinct existing candidates the two versions disagree: the older one takes
      the earlier, gracer.py's `Racer` the later. */
  lemma FirstWinsHereLastWinsThere(paths: seq<string>, existing: set<string>, i: nat, j: nat)
    requires i < j < |paths| && paths[i] in existing && paths[j] in existing && paths[i] != paths[j]
    requires forall k :: 0 <= k < i ==> paths[k] !in existing
    requires forall k :: j < k < |paths| ==> paths[k] !in existing
    ensures RacerCommand(paths, existing) == Ok(paths[i])
    ensures LastExisting(AllSome(paths), existing) == paths[j]
    ensures RacerCommand(paths, existing) != Ok(LastExisting(AllSome(paths), existing))
  {
    RacerCommandSpec(paths, existing);
    var c := AllSome(paths);
    LastExistingSpec(c, existing);
    assert Exists(c[j], existing);
    var k :| 0 <= k < |c| && c[k] == Some(LastExisting(c, existing)) && LastExisting(c, existing) in existing &&
      forall m :: k < m < |c| ==> !Exists(c[m], existing);
    var r := RacerCommand(paths, existing).value;
    var m :| 0 <= m < |paths| && paths[m] == r && paths[m] in existing &&
      forall n :: 0 <= n < m ==> paths[n] !in existing;
  }

  /** The 3-tuple `(text, type, path)` of a completion. */
  datatype Completion3 = Completion3(text: string, kind: string, path: string)

  /** `(f[0], f[4], f[3])`; fewer than five fields raise `IndexError`. */
  function Completion3Of(f: seq<string>): (r: Result<Completion3>)
    ensures r.Ok? <==> |f| >= 5
    ensures r.Err? ==> r.error == IndexError
  {
    if |f| < 5 then Err(IndexError) else Ok(Completion3(f[0], f[4], f[3]))
  }

  /** `get_matches`. `get_racer_command` runs outside the `try`, so a missing racer
      raises; a failed call yields `[]`; otherwise every MATCH line becomes a 3-tuple. */
  method GetMatches(existing: set<string>, cargoRacer: string, cursor: Cursor, tempName: string,
                    oracle: seq<string> -> Outcome)
    returns (r: Result<seq<Completion3>>)
    ensures RacerCommand(RacerCandidates(cargoRacer), existing).Err? ==> r == Err(IndexError)
    ensures RacerCommand(RacerCandidates(cargoRacer), existing).Ok? ==>
      var argv := Argv(RacerCommand(RacerCandidates(cargoRacer), existing).value, "complete", cursor, tempName);
      r == match oracle(argv)
        case Raised => Ok([])
        case Completed(out) => CollectMatches(Split(out, '\n'), Completion3Of)
  {
    var command :- RacerCommand(RacerCandidates(cargoRacer), existing);
    var procArgs := Argv(command, "complete", cursor, tempName);
    var outcome := oracle(procArgs);
    if outcome.Raised? {
      return Ok([]);
    }
    var lines := Split(outcome.stdout, '\n');
    var completion: seq<Completion3> := [];
    var i := 0;
    assert lines[0..] == lines;
    PrependNothing(CollectMatches(lines, Completion3Of));
    while i < |lines|
      invariant 0 <= i <= |lines|
      invariant Prepend(completion, CollectMatches(lines[i..], Completion3Of)) == CollectMatches(lines, Completion3Of)
    {
      var line := lines[i];
      assert lines[i..][1..] == lines[i + 1..];
      if StartsWith(line, MatchPrefix) {
        var items := Split(line[6..], ',');
        assert items == Fields(line);
        if |items| < 5 {
          assert CollectMatches(lines[i..], Completion3Of) == Err(IndexError);
          return Err(IndexError);
        }
        var c := Completion3(items[0], items[4], items[3]);
        PrependStep(completion, c, CollectMatches(lines[i + 1..], Completion3Of));
        completion := completion + [c];
      }
      i := i + 1;
    }
    assert lines[i..] == [];
    assert completion + [] == completion;
    r := Ok(completion);
  }

  /** Completions of the older version: one 3-tuple per MATCH line, in order, or
      `IndexError` when some MATCH line has fewer than five fields. */
  lemma Completions3Spec(out: string)
    ensures CollectMatches(Split(out, '\n'), Completion3Of).Ok? <==> RecordsHaveFields(Split(out, '\n'), 5)
    ensures var ms := MatchLines(Split(out, '\n')); var r := CollectMatches(Split(out, '\n'), Completion3Of);
      r.Ok? ==> |r.value| == |ms| && forall i :: 0 <= i < |ms| ==>
        var f := Fields(ms[i]); r.value[i] == Completion3(f[0], f[4], f[3])
    ensures CollectMatches(Split(out, '\n'), Completion3Of).Err? ==>
      CollectMatches(Split(out, '\n'), Completion3Of) == Err(IndexError)
  {
    var lines := Split(out, '\n');
    CollectMatchesSpec(lines, Completion3Of);
    CollectMatchesError(lines, Completion3Of, IndexError);
    var ms := MatchLines(lines);
    var project: seq<string> -> Result<Completion3> := Completion3Of;
    forall i | 0 <= i < |ms| ensures project(Fields(ms[i])).Ok? <==> |Fields(ms[i])| >= 5 {
    }
  }

  /** `do_match`: completion is offered in documents whose display URI ends in `.rs`. */
  predicate DoMatch(uri: string) {
    EndsWith(uri, ".rs")
  }

  lemma DoMatchIffRustSuffix(uri: string)
    ensures DoMatch(uri) <==> exists front :: uri == front + ".rs"
  {
    EndsWithIffSuffix(uri, ".rs");
  }
}
