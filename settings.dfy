/** The plugin's settings file: one `key=value` pair per line, no escaping. Reading the
    file from disk and writing it back are left to the caller; this module works on its
    content, `None` standing for a file that does not exist. */
module Settings {
  import opened Common
  import opened Text

  /** A Python dict in insertion order, as `save_settings` iterates it. */
  type Dict = seq<(string, string)>

  /** The lines `readlines()` yields, each stripped of its newline by `rstrip('\n')`:
      a final newline does not start one more (empty) line. */
  function FileLines(content: string): (r: seq<string>)
    ensures forall i :: 0 <= i < |r| ==> '\n' !in r[i]
  {
    var parts := Split(content, '\n');
    if parts[|parts| - 1] == [] then parts[..|parts| - 1] else parts
  }

  /** `_key, val = line.split("=")`: the unpacking fails unless there is exactly one `=`. */
  function ParseLine(line: string): (r: Result<(string, string)>)
    ensures r.Ok? <==> |Split(line, '=')| == 2
    ensures r.Err? ==> r.error == ValueError
  {
    var f := Split(line, '=');
    if |f| == 2 then Ok((f[0], f[1])) else Err(ValueError)
  }

  /** The dictionary `get_value` builds from the remaining lines, starting from `acc`. */
  function ParseFrom(lines: seq<string>, acc: map<string, string>): (r: Result<map<string, string>>)
    ensures r.Err? ==> r.error == ValueError
  {
    if lines == [] then Ok(acc)
    else
      match ParseLine(lines[0])
      case Err(e) => Err(e)
      case Ok(kv) => ParseFrom(lines[1..], acc[kv.0 := kv.1])
  }

  /** What `Settings.get_value(key, default)` returns, for a settings file with content `file`. */
  function Lookup(file: Option<string>, key: string, default: string): (r: Result<string>)
    ensures r.Err? ==> r.error == ValueError
  {
    match file
    case None => Ok(default)
    case Some(content) =>
      match ParseFrom(FileLines(content), map[])
      case Err(e) => Err(e)
      case Ok(m) => Ok(if key in m then m[key] else default)
  }

  /** `Settings.get_value`: fill a dictionary line by line, then look the key up. */
  method GetValue(file: Option<string>, key: string, default: string) returns (r: Result<string>)
    ensures r == Lookup(file, key, default)
  {
    if file.None? {
      return Ok(default);
    }
    var lines := FileLines(file.value);
    var settings: map<string, string> := map[];
    var i := 0;
    while i < |lines|
      invariant 0 <= i <= |lines|
      invariant ParseFrom(lines[i..], settings) == ParseFrom(lines, map[])
    {
      var kv := ParseLine(lines[i]);
      assert lines[i..][1..] == lines[i + 1..];
      if kv.Err? {
        return Err(ValueError);
      }
      settings := settings[kv.value.0 := kv.value.1];
      i := i + 1;
    }
    if key in settings {
      return Ok(settings[key]);
    }
    return Ok(default);
  }

  /** The content `save_settings` writes: `key=value\n` per entry, in order. */
  function Serialize(d: Dict): string {
    if d == [] then [] else d[0].0 + "=" + d[0].1 + "\n" + Serialize(d[1..])
  }

  /** The value a later entry gives `key`, overriding earlier ones; `default` if none. */
  function LastValue(d: Dict, key: string, default: string): string {
    if d == [] then default else LastValue(d[1..], key, if d[0].0 == key then d[0].1 else default)
  }

  /** The key and value of a well-formed line, in file order. */
  function Pairs(lines: seq<string>): (r: Dict)
    requires forall i :: 0 <= i < |lines| ==> ParseLine(lines[i]).Ok?
    ensures |r| == |lines|
    ensures forall i :: 0 <= i < |lines| ==> r[i] == ParseLine(lines[i]).value
  {
    if lines == [] then [] else [ParseLine(lines[0]).value] + Pairs(lines[1..])
  }

  /** Keys and values that `save_settings` can write without corrupting the file. */
  predicate Storable(d: Dict) {
    forall i :: 0 <= i < |d| ==>
      '=' !in d[i].0 && '\n' !in d[i].0 && '=' !in d[i].1 && '\n' !in d[i].1
  }

  lemma {:induction false} ParseFromWellFormed(lines: seq<string>, acc: map<string, string>, key: string)
    requires forall i :: 0 <= i < |lines| ==> ParseLine(lines[i]).Ok?
    ensures ParseFrom(lines, acc).Ok?
    ensures var m := ParseFrom(lines, acc).value;
      (if key in m then m[key] else "") ==
      LastValue(Pairs(lines), key, if key in acc then acc[key] else "")
    ensures var m := ParseFrom(lines, acc).value;
      key in m <==> (key in acc || exists i :: 0 <= i < |lines| && ParseLine(lines[i]).value.0 == key)
  {
    if lines != [] {
      var kv := ParseLine(lines[0]).value;
      ParseFromWellFormed(lines[1..], acc[kv.0 := kv.1], key);
      var m := ParseFrom(lines, acc).value;
      if key in m {
        if key !in acc && kv.0 != key {
          var j :| 0 <= j < |lines[1..]| && ParseLine(lines[1..][j]).value.0 == key;
          assert ParseLine(lines[1 + j]).value.0 == key;
        }
      }
      if exists i :: 0 <= i < |lines| && ParseLine(lines[i]).value.0 == key {
        var i :| 0 <= i < |lines| && ParseLine(lines[i]).value.0 == key;
        if i > 0 {
          assert ParseLine(lines[1..][i - 1]).value.0 == key;
        }
      }
    }
  }

  /** A file whose every line is `key=value` yields, for each key, the value of its last
      line, and the default for a key no line names. */
  lemma LookupWellFormed(content: string, key: string, default: string)
    requires forall i :: 0 <= i < |FileLines(content)| ==> ParseLine(FileLines(content)[i]).Ok?
    ensures Lookup(Some(content), key, default) == Ok(LastValue(Pairs(FileLines(content)), key, default))
  {
    var lines := FileLines(content);
    ParseFromWellFormed(lines, map[], key);
    var m := ParseFrom(lines, map[]).value;
    if key !in m {
      LastValueAbsent(Pairs(lines), key, default);
    } else {
      var i :| 0 <= i < |lines| && ParseLine(lines[i]).value.0 == key;
      assert Pairs(lines)[i].0 == key;
      LastValueDefaultIrrelevant(Pairs(lines), key, default, "");
    }
  }

  lemma {:induction false} LastValueAbsent(d: Dict, key: string, default: string)
    requires forall i :: 0 <= i < |d| ==> d[i].0 != key
    ensures LastValue(d, key, default) == default
  {
    if d != [] {
      LastValueAbsent(d[1..], key, default);
    }
  }

  lemma {:induction false} LastValueDefaultIrrelevant(d: Dict, key: string, x: string, y: string)
    requires exists i :: 0 <= i < |d| && d[i].0 == key
    ensures LastValue(d, key, x) == LastValue(d, key, y)
  {
    if d[0].0 != key {
      var i :| 0 <= i < |d| && d[i].0 == key;
      assert d[1..][i - 1].0 == key;
      LastValueDefaultIrrelevant(d[1..], key, x, y);
    } else if exists i :: 0 <= i < |d[1..]| && d[1..][i].0 == key {
      LastValueDefaultIrrelevant(d[1..], key, d[0].1, d[0].1);
    }
  }

  /** One line that is not exactly `key=value` makes `get_value` raise `ValueError`,
      whatever key is asked for. */
  lemma {:induction false} LookupMalformed(content: string, key: string, default: string, i: nat)
    requires i < |FileLines(content)| && ParseLine(FileLines(content)[i]).Err?
    ensures Lookup(Some(content), key, default) == Err(ValueError)
  {
    ParseFromMalformed(FileLines(content), map[], i);
  }

  lemma {:induction false} ParseFromMalformed(lines: seq<string>, acc: map<string, string>, i: nat)
    requires i < |lines| && ParseLine(lines[i]).Err?
    ensures ParseFrom(lines, acc) == Err(ValueError)
  {
    if i > 0 && ParseLine(lines[0]).Ok? {
      var kv := ParseLine(lines[0]).value;
      ParseFromMalformed(lines[1..], acc[kv.0 := kv.1], i - 1);
    }
  }

  lemma {:induction false} SerializedLines(d: Dict)
    requires Storable(d)
    ensures |FileLines(Serialize(d))| == |d|
    ensures forall i :: 0 <= i < |d| ==> FileLines(Serialize(d))[i] == d[i].0 + "=" + d[i].1
  {
    SplitSerialized(d);
  }

  lemma {:induction false} SplitSerialized(d: Dict)
    requires Storable(d)
    ensures var parts := Split(Serialize(d), '\n');
      |parts| == |d| + 1 && parts[|d|] == [] &&
      forall i :: 0 <= i < |d| ==> parts[i] == d[i].0 + "=" + d[i].1
  {
    if d != [] {
      SplitSerialized(d[1..]);
      var line := d[0].0 + "=" + d[0].1;
      assert Serialize(d) == line + ['\n'] + Serialize(d[1..]);
      assert '\n' !in line by {
        assert line == d[0].0 + ['='] + d[0].1;
      }
      SplitAtFirstSep(line, '\n', Serialize(d[1..]));
    }
  }

  lemma KeyValueLine(k: string, v: string)
    requires '=' !in k && '=' !in v
    ensures ParseLine(k + "=" + v) == Ok((k, v))
  {
    SplitAtFirstSep(k, '=', v);
    SplitWithoutSep(v, '=');
    assert k + "=" + v == k + ['='] + v;
  }

  /** Round trip: after `save_settings(d)`, `get_value(k, default)` returns the value `d`
      gives `k` (the default for a key it lacks), provided no key or value holds `=` or
      a newline. */
  lemma SaveThenGet(d: Dict, key: string, default: string)
    requires Storable(d)
    ensures Lookup(Some(Serialize(d)), key, default) == Ok(LastValue(d, key, default))
  {
    var lines := FileLines(Serialize(d));
    SerializedLines(d);
    forall i | 0 <= i < |lines| ensures ParseLine(lines[i]) == Ok(d[i]) {
      KeyValueLine(d[i].0, d[i].1);
    }
    LookupWellFormed(Serialize(d), key, default);
    assert Pairs(lines) == d;
  }

  /** The precondition of `SaveThenGet` is needed: a saved value holding `=` makes the
      next read raise `ValueError`. */
  lemma SavedEqualsSignBreaksReading(k: string, v: string, default: string)
    requires '=' !in k && '\n' !in k && '\n' !in v
    requires '=' in v
    ensures Lookup(Some(Serialize([(k, v)])), k, default) == Err(ValueError)
  {
    var line := k + "=" + v;
    assert Serialize([(k, v)]) == line + ['\n'] + [];
    assert line == k + ['='] + v;
    SplitAtFirstSep(line, '\n', []);
    SplitAtFirstSep(k, '=', v);
    assert FileLines(Serialize([(k, v)]))[0] == line;
    LookupMalformed(Serialize([(k, v)]), k, default, 0);
  }
}
