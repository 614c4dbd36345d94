/** racer's reply: newline-separated lines, of which those starting with `MATCH ` carry
    one record as comma-separated fields, with no escaping. */
module Reply {
  import opened Common
  import opened Text

  const MatchPrefix := "MATCH "

  predicate IsMatchLine(line: string) {
    StartsWith(line, MatchPrefix)
  }

  /** `line[6:].split(",")`. */
  function Fields(line: string): seq<string>
    requires IsMatchLine(line)
  {
    Split(line[|MatchPrefix|..], ',')
  }

  /** The MATCH line racer would print for these fields. */
  function MatchLine(fields: seq<string>): string
    requires |fields| >= 1
  {
    MatchPrefix + Join(fields, ',')
  }

  lemma FieldsOfMatchLine(fields: seq<string>)
    requires |fields| >= 1
    requires forall i :: 0 <= i < |fields| ==> ',' !in fields[i]
    ensures IsMatchLine(MatchLine(fields)) && Fields(MatchLine(fields)) == fields
  {
    var line := MatchLine(fields);
    assert line[..|MatchPrefix|] == MatchPrefix;
    assert line[|MatchPrefix|..] == Join(fields, ',');
    SplitJoin(fields, ',');
  }

  /** The lines of interest, in the order racer emitted them. */
  function MatchLines(lines: seq<string>): (r: seq<string>)
    ensures forall i :: 0 <= i < |r| ==> IsMatchLine(r[i])
  {
    if lines == [] then []
    else (if IsMatchLine(lines[0]) then [lines[0]] else []) + MatchLines(lines[1..])
  }

  /** Every MATCH line projected in order; the first projection that raises ends the
      scan with its exception, as an uncaught exception ends the Python loop. */
  function CollectMatches<T>(lines: seq<string>, project: seq<string> -> Result<T>): Result<seq<T>> {
    if lines == [] then Ok([])
    else if IsMatchLine(lines[0]) then
      match project(Fields(lines[0]))
      case Err(e) => Err(e)
      case Ok(x) =>
        match CollectMatches(lines[1..], project)
        case Err(e) => Err(e)
        case Ok(xs) => Ok([x] + xs)
    else CollectMatches(lines[1..], project)
  }

  /** Every MATCH line among `lines` has at least `n` fields. */
  predicate RecordsHaveFields(lines: seq<string>, n: nat) {
    var ms := MatchLines(lines);
    forall i :: 0 <= i < |ms| ==> |Fields(ms[i])| >= n
  }

  /** `prefix` followed by what `r` collects. */
  function Prepend<T>(prefix: seq<T>, r: Result<seq<T>>): Result<seq<T>> {
    match r
    case Err(e) => Err(e)
    case Ok(xs) => Ok(prefix + xs)
  }

  lemma PrependNothing<T>(r: Result<seq<T>>)
    ensures Prepend([], r) == r
  {
    if r.Ok? {
      assert [] + r.value == r.value;
    }
  }

  lemma PrependStep<T>(prefix: seq<T>, x: T, r: Result<seq<T>>)
    ensures Prepend(prefix, Prepend([x], r)) == Prepend(prefix + [x], r)
  {
    if r.Ok? {
      assert prefix + ([x] + r.value) == prefix + [x] + r.value;
    }
  }

  /** The scan succeeds exactly when every MATCH line projects; it then yields one
      record per MATCH line, in order. */
  lemma {:induction false} CollectMatchesSpec<T>(lines: seq<string>, project: seq<string> -> Result<T>)
    ensures var ms := MatchLines(lines);
      CollectMatches(lines, project).Ok? <==> forall i :: 0 <= i < |ms| ==> project(Fields(ms[i])).Ok?
    ensures var ms := MatchLines(lines); var r := CollectMatches(lines, project);
      r.Ok? ==> |r.value| == |ms| && forall i :: 0 <= i < |ms| ==> r.value[i] == project(Fields(ms[i])).value
  {
    if lines != [] {
      CollectMatchesSpec(lines[1..], project);
      var ms := MatchLines(lines);
      var rest := MatchLines(lines[1..]);
      if IsMatchLine(lines[0]) {
        assert ms == [lines[0]] + rest;
        assert ms[0] == lines[0];
        if forall i :: 0 <= i < |ms| ==> project(Fields(ms[i])).Ok? {
          forall i | 0 <= i < |rest| ensures project(Fields(rest[i])).Ok? {
            assert ms[i + 1] == rest[i];
          }
        }
      } else {
        assert ms == rest;
      }
    }
  }

  /** A scan whose projection only ever raises `e` raises nothing else. */
  lemma {:induction false} CollectMatchesError<T>(lines: seq<string>, project: seq<string> -> Result<T>, e: PyError)
    requires forall f :: project(f).Err? ==> project(f).error == e
    ensures CollectMatches(lines, project).Err? ==> CollectMatches(lines, project).error == e
  {
    if lines != [] {
      CollectMatchesError(lines[1..], project, e);
    }
  }

  /** Lines that do not start with `MATCH ` can be dropped without changing the result. */
  lemma {:induction false} OtherLinesIgnored<T>(a: seq<string>, x: string, b: seq<string>, project: seq<string> -> Result<T>)
    requires !IsMatchLine(x)
    ensures CollectMatches(a + [x] + b, project) == CollectMatches(a + b, project)
  {
    if a == [] {
      assert (a + [x] + b)[1..] == b;
      assert a + b == b;
    } else {
      assert (a + [x] + b)[1..] == a[1..] + [x] + b;
      assert (a + b)[1..] == a[1..] + b;
      OtherLinesIgnored(a[1..], x, b, project);
    }
  }

  // ----- completion (gracer.py) -----

  /** The 4-tuple `(text, type, path, line)` of a completion. */
  datatype Completion = Completion(text: string, kind: string, path: string, context: string)

  /** `(f[0], f[4], f[3], f[5])`; a record with fewer than six fields raises `IndexError`. */
  function CompletionOf(f: seq<string>): (r: Result<Completion>)
    ensures r.Ok? <==> |f| >= 6
    ensures r.Err? ==> r.error == IndexError
  {
    if |f| < 6 then Err(IndexError) else Ok(Completion(f[0], f[4], f[3], f[5]))
  }

  /** The completions `get_matches` builds from racer's output. */
  function Completions(output: string): Result<seq<Completion>> {
    CollectMatches(Split(output, '\n'), CompletionOf)
  }

  /** The loop of `Racer.get_matches` over racer's output. */
  method ParseCompletions(output: string) returns (r: Result<seq<Completion>>)
    ensures r == Completions(output)
  {
    var lines := Split(output, '\n');
    var completion: seq<Completion> := [];
    var i := 0;
    assert lines[0..] == lines;
    PrependNothing(CollectMatches(lines, CompletionOf));
    while i < |lines|
      invariant 0 <= i <= |lines|
      invariant Prepend(completion, CollectMatches(lines[i..], CompletionOf)) == CollectMatches(lines, CompletionOf)
    {
      var line := lines[i];
      assert lines[i..][1..] == lines[i + 1..];
      if StartsWith(line, MatchPrefix) {
        var items := Split(line[6..], ',');
        assert items == Fields(line);
        if |items| < 6 {
          assert CollectMatches(lines[i..], CompletionOf) == Err(IndexError);
          return Err(IndexError);
        }
        var c := Completion(items[0], items[4], items[3], items[5]);
        PrependStep(completion, c, CollectMatches(lines[i + 1..], CompletionOf));
        completion := completion + [c];
      }
      i := i + 1;
    }
    assert lines[i..] == [];
    assert completion + [] == completion;
    r := Ok(completion);
  }

  /** Completions: `[]` for empty output; otherwise one record per MATCH line, in order,
      projected from fields 0, 4, 3 and 5 — or `IndexError` when some MATCH line has
      fewer than six fields. */
  lemma CompletionsSpec(output: string)
    ensures output == "" ==> Completions(output) == Ok([])
    ensures Completions(output).Ok? <==> RecordsHaveFields(Split(output, '\n'), 6)
    ensures var ms := MatchLines(Split(output, '\n')); var r := Completions(output);
      r.Ok? ==> |r.value| == |ms| && forall i :: 0 <= i < |ms| ==>
        var f := Fields(ms[i]); r.value[i] == Completion(f[0], f[4], f[3], f[5])
    ensures Completions(output).Err? ==> Completions(output) == Err(IndexError)
  {
    var lines := Split(output, '\n');
    CollectMatchesSpec(lines, CompletionOf);
    CollectMatchesError(lines, CompletionOf, IndexError);
    var ms := MatchLines(lines);
    var project: seq<string> -> Result<Completion> := CompletionOf;
    forall i | 0 <= i < |ms| ensures project(Fields(ms[i])).Ok? <==> |Fields(ms[i])| >= 6 {
    }
    if output == "" {
      assert lines == [""];
      assert !IsMatchLine("");
    }
  }

  /** A reply made of one MATCH line of six comma-free fields yields exactly that
      completion, e.g. `MATCH foo,1,2,/tmp/a.rs,Function,let foo = 1;` gives
      `("foo", "Function", "/tmp/a.rs", "let foo = 1;")`. */
  lemma OneMatchLine(fs: seq<string>)
    requires |fs| == 6
    requires forall i :: 0 <= i < 6 ==> ',' !in fs[i] && '\n' !in fs[i]
    ensures Completions(MatchLine(fs)) == Ok([Completion(fs[0], fs[4], fs[3], fs[5])])
  {
    var line := MatchLine(fs);
    assert Split(line, '\n') == [line] by {
      JoinAvoids(fs, ',', '\n');
      assert '\n' !in MatchPrefix;
      SplitWithoutSep(line, '\n');
    }
    var c := Completion(fs[0], fs[4], fs[3], fs[5]);
    assert IsMatchLine(line) && CompletionOf(Fields(line)) == Ok(c) by {
      FieldsOfMatchLine(fs);
    }
    assert [line][1..] == [];
    assert CollectMatches([line], CompletionOf) == Ok([c] + []);
    assert [c] + [] == [c];
    assert Completions(line) == CollectMatches([line], CompletionOf);
  }

  /** With no escaping, a context line holding a comma loses everything after it. */
  lemma CommaTruncatesContext(fs: seq<string>, x: string, y: string)
    requires |fs| == 5
    requires forall i :: 0 <= i < 5 ==> ',' !in fs[i]
    requires ',' !in x && ',' !in y
    ensures var line := MatchLine(fs + [x + "," + y]);
      IsMatchLine(line) && CompletionOf(Fields(line)) == Ok(Completion(fs[0], fs[4], fs[3], x))
  {
    var all := fs + [x, y];
    assert Join(fs + [x + "," + y], ',') == Join(all, ',') by {
      JoinTail(fs, x, y);
    }
    FieldsOfMatchLine(all);
  }

  lemma {:induction false} JoinTail(fs: seq<string>, x: string, y: string)
    requires |fs| >= 1
    ensures Join(fs + [x + "," + y], ',') == Join(fs + [x, y], ',')
  {
    if |fs| == 1 {
      assert (fs + [x, y])[1..] == [x, y];
      assert (fs + [x + "," + y])[1..] == [x + "," + y];
    } else {
      assert (fs + [x, y])[1..] == fs[1..] + [x, y];
      assert (fs + [x + "," + y])[1..] == fs[1..] + [x + "," + y];
      JoinTail(fs[1..], x, y);
    }
  }

  // ----- definition (gracer.py) -----

  /** The 4-tuple `(line, char, file, str)` of a definition, fields as racer wrote them. */
  datatype Definition = Definition(line: string, column: string, file: string, context: string)

  /** `(f[1], f[2], f[3], f[5])`; fewer than six fields raise `IndexError`. */
  function DefinitionOf(f: seq<string>): (r: Result<Definition>)
    ensures r.Ok? <==> |f| >= 6
    ensures r.Err? ==> r.error == IndexError
  {
    if |f| < 6 then Err(IndexError) else Ok(Definition(f[1], f[2], f[3], f[5]))
  }

  /** The definition of the first MATCH line; `None` when there is none. */
  function FirstDefinition(lines: seq<string>): Result<Option<Definition>> {
    if lines == [] then Ok(None)
    else if IsMatchLine(lines[0]) then
      match DefinitionOf(Fields(lines[0]))
      case Err(e) => Err(e)
      case Ok(d) => Ok(Some(d))
    else FirstDefinition(lines[1..])
  }

  /** The loop of `Racer.get_definition`, which returns at the first MATCH line. */
  method ParseDefinition(output: string) returns (r: Result<Option<Definition>>)
    ensures r == FirstDefinition(Split(output, '\n'))
  {
    var lines := Split(output, '\n');
    var i := 0;
    while i < |lines|
      invariant 0 <= i <= |lines|
      invariant FirstDefinition(lines[i..]) == FirstDefinition(lines)
    {
      var line := lines[i];
      assert lines[i..][1..] == lines[i + 1..];
      if StartsWith(line, MatchPrefix) {
        var items := Split(line[6..], ',');
        if |items| < 6 {
          return Err(IndexError);
        }
        return Ok(Some(Definition(items[1], items[2], items[3], items[5])));
      }
      i := i + 1;
    }
    assert lines[i..] == [];
    r := Ok(None);
  }

  /** The definition is absent exactly when there is no MATCH line; otherwise it is
      projected from the first MATCH line alone. */
  lemma {:induction false} FirstDefinitionSpec(lines: seq<string>)
    ensures MatchLines(lines) == [] <==> FirstDefinition(lines) == Ok(None)
    ensures MatchLines(lines) != [] ==>
      FirstDefinition(lines) == match DefinitionOf(Fields(MatchLines(lines)[0]))
        case Err(e) => Err(e)
        case Ok(d) => Ok(Some(d))
  {
    if lines != [] {
      FirstDefinitionSpec(lines[1..]);
    }
  }

  /** Lines after the first MATCH line do not matter. */
  lemma {:induction false} LaterLinesIgnored(a: seq<string>, b: seq<string>)
    requires MatchLines(a) != []
    ensures FirstDefinition(a + b) == FirstDefinition(a)
  {
    assert (a + b)[1..] == a[1..] + b;
    if !IsMatchLine(a[0]) {
      LaterLinesIgnored(a[1..], b);
    }
  }
}
