/** The candidate-list scan `Racer` uses to pick a default tool path. Filesystem
    existence is the set `existing` of paths that exist. */
module Paths {
  import opened Common

  /** The last candidate in list order that exists; `""` when none does. A `None`
      entry (an unset environment variable) is skipped. */
  function LastExisting(candidates: seq<Option<string>>, existing: set<string>): string {
    if candidates == [] then ""
    else
      var c := candidates[|candidates| - 1];
      if c.Some? && c.value in existing then c.value
      else LastExisting(candidates[..|candidates| - 1], existing)
  }

  predicate Exists(c: Option<string>, existing: set<string>) {
    c.Some? && c.value in existing
  }

  /** The default is `""` when no candidate exists, and only then when `""` is not an
      existing path (`os.path.exists("")` is false); otherwise it is an existing candidate
      that no later candidate overrides. */
  lemma {:induction false} LastExistingSpec(candidates: seq<Option<string>>, existing: set<string>)
    ensures var d := LastExisting(candidates, existing);
      (forall i :: 0 <= i < |candidates| ==> !Exists(candidates[i], existing)) ==> d == ""
    ensures var d := LastExisting(candidates, existing);
      (exists i :: 0 <= i < |candidates| && Exists(candidates[i], existing)) ==>
        exists i :: 0 <= i < |candidates| && candidates[i] == Some(d) && d in existing &&
          forall j :: i < j < |candidates| ==> !Exists(candidates[j], existing)
    ensures "" !in existing && LastExisting(candidates, existing) == "" ==>
      forall i :: 0 <= i < |candidates| ==> !Exists(candidates[i], existing)
  {
    if candidates != [] {
      var n := |candidates| - 1;
      var front := candidates[..n];
      LastExistingSpec(front, existing);
      if !Exists(candidates[n], existing) && exists i :: 0 <= i < |candidates| && Exists(candidates[i], existing) {
        var i :| 0 <= i < |candidates| && Exists(candidates[i], existing);
        assert Exists(front[i], existing);
      }
    }
  }

  /** The loop of `get_rust_src_path`/`get_racer_path`: every existing candidate
      overwrites `default_value`. */
  method DefaultPath(candidates: seq<Option<string>>, existing: set<string>) returns (d: string)
    ensures d == LastExisting(candidates, existing)
  {
    d := "";
    for i := 0 to |candidates|
      invariant d == LastExisting(candidates[..i], existing)
    {
      assert candidates[..i + 1][..i] == candidates[..i];
      if candidates[i].Some? && candidates[i].value in existing {
        d := candidates[i].value;
      }
    }
    assert candidates[..|candidates|] == candidates;
  }

  /** Where `get_rust_src_path` looks, in order: two system locations, then the
      `RUST_SRC_PATH` environment variable when it is set. */
  function RustSrcCandidates(environ: map<string, string>): seq<Option<string>> {
    [Some("/usr/src/rust/src"), Some("/usr/local/src/rust/src"),
     if "RUST_SRC_PATH" in environ then Some(environ["RUST_SRC_PATH"]) else None]
  }

  /** Where both versions look for racer, in order; `cargoRacer` is what
      `os.path.expanduser("~/.cargo/bin/racer")` gives. */
  function RacerCandidates(cargoRacer: string): seq<string> {
    ["/usr/bin/racer", "/usr/local/bin/racer", cargoRacer]
  }

  function AllSome(paths: seq<string>): (r: seq<Option<string>>)
    ensures |r| == |paths| && forall i :: 0 <= i < |paths| ==> r[i] == Some(paths[i])
  {
    seq(|paths|, i requires 0 <= i < |paths| => Some(paths[i]))
  }
}
