/**
  The delivery capability and the cache file every tier keeps.

  A delivery attempt is one HTTP POST; the model only sees what came back: a
  status code, or an exception on the way. The network is an oracle that
  gives the response to each attempt of a retry tick, by attempt number.

  A cache file is a text file of lines, appended to on delivery failure and
  rewritten whole when lines leave it. It may not exist yet: nothing creates
  it before the first failed delivery, and reading a missing file throws.
*/
module CacheLog {

  /** What one POST produced: an HTTP status, or an exception on the way.
      `errorData` says whether the server sent a body with the status; for a
      status of 400 or above that body is what `getErrorStream()` returns. */
  datatype Response = Status(code: int, errorData: bool) | Thrown

  /** `sendData` and its siblings report success exactly for status 200;
      any other status and any exception is not an acknowledgement. */
  function Acked(r: Response): (ok: bool)
    ensures r.Thrown? ==> !ok
    ensures r.Status? ==> (ok <==> r.code == 200)
  {
    r.Status? && r.code == 200
  }

  /** The response to each attempt of one retry tick, by attempt number. */
  type Network = nat -> Response

  /** A cache file on disk, or its absence. */
  datatype CacheFile = Missing | Present(lines: seq<string>)

  /** The lines a reader sees; a missing file has none. */
  function Lines(f: CacheFile): seq<string>
  {
    match f
    case Missing => []
    case Present(lines) => lines
  }

  /** `new FileWriter(name, true)` then `println(line)`: the file is created
      if needed and `line` becomes its last line, the others untouched. */
  function AppendLine(f: CacheFile, line: string): (g: CacheFile)
    ensures g.Present?
    ensures |Lines(g)| == |Lines(f)| + 1
    ensures Lines(g)[..|Lines(f)|] == Lines(f)
    ensures Lines(g)[|Lines(f)|] == line
  {
    Present(Lines(f) + [line])
  }

  /** `deleteFirstLine`: read every line, skip the first, rewrite the rest in
      order. An empty file stays empty. */
  function DeleteFirstLine(lines: seq<string>): (rest: seq<string>)
    ensures |lines| == 0 ==> rest == []
    ensures |lines| > 0 ==> [lines[0]] + rest == lines
  {
    var kept: seq<string> := [];
    DeleteFrom(lines, 0, false, kept)
  }

  /** The read loop of `deleteFirstLine` from line `i` on: the first line is
      skipped, every later one is kept. */
  function DeleteFrom(lines: seq<string>, i: nat, skipped: bool, kept: seq<string>): (rest: seq<string>)
    requires i <= |lines|
    requires skipped <==> i > 0
    requires i > 0 ==> kept == lines[1..i]
    requires i == 0 ==> kept == []
    ensures |lines| == 0 ==> rest == []
    ensures |lines| > 0 ==> rest == lines[1..]
    decreases |lines| - i
  {
    if i == |lines| then kept
    else if !skipped then DeleteFrom(lines, i + 1, true, kept)
    else DeleteFrom(lines, i + 1, true, kept + [lines[i]])
  }

  /** `deleteFirstLine` called `k` times. */
  function DeleteFirstLines(lines: seq<string>, k: nat): seq<string>
  {
    if k == 0 then lines else DeleteFirstLines(DeleteFirstLine(lines), k - 1)
  }

  /** Deleting the first line `k` times removes exactly the `k` oldest lines,
      or all of them when there are fewer. */
  lemma {:induction false} DeleteFirstLinesDropsPrefix(lines: seq<string>, k: nat)
    ensures DeleteFirstLines(lines, k) == lines[if k <= |lines| then k else |lines|..]
  {
    if k > 0 {
      var rest := DeleteFirstLine(lines);
      DeleteFirstLinesDropsPrefix(rest, k - 1);
      if |lines| > 0 {
        assert rest == lines[1..];
        assert rest[if k - 1 <= |rest| then k - 1 else |rest|..]
            == lines[if k <= |lines| then k else |lines|..];
      }
    }
  }

  /** The lines `k` deletions remove, followed by what they leave, are the
      original lines. */
  lemma DeleteFirstLinesSplits(lines: seq<string>, k: nat)
    requires k <= |lines|
    ensures lines == lines[..k] + DeleteFirstLines(lines, k)
  {
    DeleteFirstLinesDropsPrefix(lines, k);
    assert lines == lines[..k] + lines[k..];
  }
}
