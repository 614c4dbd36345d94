/** How both versions of the plugin call racer: the argument vector, the child
    environment and what a finished call yields. */
module Request {
  import opened Common
  import opened Text

  /** The cursor as the text buffer reports it: zero-based line and byte index within it. */
  datatype Cursor = Cursor(line: nat, lineIndex: nat)

  /** How a `subprocess.check_output` call ends: its decoded standard output, or any
      exception (missing executable, non-zero exit status, undecodable output). */
  datatype Outcome = Completed(stdout: string) | Raised

  /** `(racer_path, subcommand, str(line + 1), str(line_index), temp_name)`: racer counts
      lines from 1 and takes the byte index unchanged. */
  function Argv(racer: string, subcommand: string, cursor: Cursor, tempName: string): (r: seq<string>)
    ensures |r| == 5 && r[0] == racer && r[1] == subcommand && r[4] == tempName
    ensures ParseInt(r[2]) == Some(cursor.line + 1)
    ensures ParseInt(r[3]) == Some(cursor.lineIndex)
  {
    ParseIntOfNatToString(cursor.line + 1);
    ParseIntOfNatToString(cursor.lineIndex);
    [racer, subcommand, NatToString(cursor.line + 1), NatToString(cursor.lineIndex), tempName]
  }

  const RustSrcVar := "RUST_SRC_PATH"

  /** `dict(os.environ, RUST_SRC_PATH=rust_src_path)`. */
  function ChildEnv(parent: map<string, string>, rustSrcPath: string): (r: map<string, string>)
    ensures RustSrcVar in r && r[RustSrcVar] == rustSrcPath
    ensures forall k :: k != RustSrcVar ==> (k in r <==> k in parent)
    ensures forall k :: k != RustSrcVar && k in parent ==> r[k] == parent[k]
  {
    parent[RustSrcVar := rustSrcPath]
  }

  /** The `init_racer` result: the output, or `""` when the call raised. */
  function OutputOf(outcome: Outcome): string {
    match outcome
    case Completed(out) => out
    case Raised => ""
  }
}
