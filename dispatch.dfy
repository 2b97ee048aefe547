/**
 * `main`: one invocation of the tool.  A `--limit` other than the flag
 * default wins over `--take`, which wins over creating a stash from
 * standard input; an empty standard input is refused before anything is
 * written.  The terminal and the stash directory become the returned
 * `Outcome`.
 */
module Dispatch {
  import opened Text
  import opened Base
  import opened Store
  import opened Listing

  /** The value `flag` leaves in `limit` and `take` when they are not given. */
  const Unset: int := -1

  /** Flags and inputs of one run; `timestamp` is `time.Now()` in `time.DateTime` layout. */
  datatype Invocation = Invocation(limit: int, take: int, stdin: Content, timestamp: string)

  /** What the run printed, its exit status, and the stash directory afterwards. */
  datatype Outcome = Outcome(stdout: seq<Record>, stderr: string, exitCode: nat, dir: Directory)

  /** `fmt.Fprintln(os.Stderr, err)` followed by `os.Exit(1)`. */
  function Failed(e: Error, dir: Directory): (o: Outcome)
    ensures o.stdout == [] && o.exitCode == 1 && o.dir == dir
    ensures SplitLines(o.stderr) == [Message(e), []]
  {
    var m := Message(e);
    SplitAfterLine(m, []);
    assert m + "\n" + [] == m + "\n";
    Outcome([], m + "\n", 1, dir)
  }

  method Run(inv: Invocation, dir: Directory, entries: seq<DirEntry>, readLines: Content -> seq<string>)
    returns (o: Outcome)
    requires IsReadDir(dir, entries)
    // list mode
    ensures inv.limit != Unset ==>
      match ListSpec(dir, EntryNames(entries), inv.limit, readLines)
      case Ok(records) => o == Outcome(records, "", 0, dir)
      case Err(e) => o == Failed(e, dir)
    // take mode
    ensures inv.limit == Unset && inv.take != Unset ==>
      match TakeStash(dir, EntryNames(entries), inv.take)
      case Ok(content) => o == Outcome([Raw(content)], "", 0, dir)
      case Err(e) => o == Failed(e, dir)
    // create mode
    ensures inv.limit == Unset && inv.take == Unset && inv.stdin == [] ==>
      o == Failed(NoContent, dir)
    ensures inv.limit == Unset && inv.take == Unset && inv.stdin != [] ==>
      o == Outcome([Raw(inv.stdin + "\n")], "", 0, Create(dir, inv.timestamp, inv.stdin))
    // a failed run writes nothing; only creating a stash changes the directory
    ensures o.exitCode != 0 ==> o.dir == dir && o.stdout == []
    ensures o.dir != dir ==> inv.limit == Unset && inv.take == Unset && inv.stdin != []
  {
    if inv.limit != Unset {
      var names := StashesFiles(entries);
      StashesFilesListing(dir, entries, names);
      assert names == EntryNames(entries);
      var r := List(dir, names, inv.limit, readLines);
      match r
      case Ok(records) => return Outcome(records, "", 0, dir);
      case Err(e) => return Failed(e, dir);
    }
    if inv.take != Unset {
      var names := StashesFiles(entries);
      StashesFilesListing(dir, entries, names);
      assert names == EntryNames(entries);
      var r := TakeStash(dir, names, inv.take);
      match r
      case Ok(content) => return Outcome([Raw(content)], "", 0, dir);
      case Err(e) => return Failed(e, dir);
    }
    if |inv.stdin| == 0 {
      return Failed(NoContent, dir);
    }
    var dir' := Create(dir, inv.timestamp, inv.stdin);
    return Outcome([Raw(inv.stdin + "\n")], "", 0, dir');
  }
}
