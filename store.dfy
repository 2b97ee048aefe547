/**
 * The stash directory `~/.stashes`: a map from file name to content, and
 * the listing `os.ReadDir` gives of it, sorted by name.  Names are
 * `<timestamp>.txt`, so the last name in the listing is the newest stash
 * and reverse index 1 selects it.
 */
module Store {
  import opened Text
  import opened Base

  /** A file's bytes (each byte stands as one character). */
  type Content = string

  /** The files of the stash directory, by name. */
  type Directory = map<string, Content>

  /** What `os.ReadDir` yields per file; only the name is used. */
  datatype DirEntry = DirEntry(name: string)

  /** The extension `create` appends to the timestamp. */
  const Ext: string := ".txt"

  predicate StrictlySorted(names: seq<string>)
  {
    forall i, j :: 0 <= i < j < |names| ==> LexLess(names[i], names[j])
  }

  /** Every name refers to a file of `dir`. */
  predicate AllIn(names: seq<string>, dir: Directory)
  {
    forall i :: 0 <= i < |names| ==> names[i] in dir
  }

  /** `names` is the sorted listing of exactly the files in `dir`. */
  predicate IsListing(dir: Directory, names: seq<string>)
  {
    && StrictlySorted(names)
    && AllIn(names, dir)
    && (forall m :: m in dir ==> m in names)
  }

  function EntryNames(entries: seq<DirEntry>): seq<string>
  {
    seq(|entries|, i requires 0 <= i < |entries| => entries[i].name)
  }

  /** What `os.ReadDir` promises: its entries list `dir`, sorted by name. */
  predicate IsReadDir(dir: Directory, entries: seq<DirEntry>)
  {
    IsListing(dir, EntryNames(entries))
  }

  /** `stashesFiles`: copy the entries' names into a slice of the same length. */
  method StashesFiles(entries: seq<DirEntry>) returns (fileNames: seq<string>)
    ensures |fileNames| == |entries|
    ensures forall i :: 0 <= i < |entries| ==> fileNames[i] == entries[i].name
  {
    var names := new string[|entries|];
    for i := 0 to |entries|
      invariant forall k :: 0 <= k < i ==> names[k] == entries[k].name
    {
      names[i] := entries[i].name;
    }
    fileNames := names[..];
  }

  /** The listing `stashesFiles` returns for a directory is its sorted listing. */
  lemma StashesFilesListing(dir: Directory, entries: seq<DirEntry>, fileNames: seq<string>)
    requires IsReadDir(dir, entries)
    requires |fileNames| == |entries|
    requires forall i :: 0 <= i < |entries| ==> fileNames[i] == entries[i].name
    ensures IsListing(dir, fileNames)
  {
    assert fileNames == EntryNames(entries);
  }

  // ---------------------------------------------------------------------
  // create
  // ---------------------------------------------------------------------

  /** The file name `create` writes for a timestamp. */
  function StashName(ts: string): string
  {
    ts + Ext
  }

  /**
   * `create`: write `content` verbatim to `<ts>.txt`, replacing a file of
   * that name if one exists (two stashes in the same second).
   */
  function Create(dir: Directory, ts: string, content: Content): (dir': Directory)
    ensures StashName(ts) in dir' && dir'[StashName(ts)] == content
    ensures dir'.Keys == dir.Keys + {StashName(ts)}
    ensures forall m :: m in dir && m != StashName(ts) ==> dir'[m] == dir[m]
    ensures |dir'| == if StashName(ts) in dir then |dir| else |dir| + 1
  {
    var k := StashName(ts);
    var d := dir[k := content];
    assert k in dir ==> d.Keys == dir.Keys;
    assert k !in dir ==> |d.Keys| == |dir.Keys + {k}| == |dir.Keys| + 1;
    d
  }

  // ---------------------------------------------------------------------
  // takeStash
  // ---------------------------------------------------------------------

  /** `takeStash`: the content of the `n`th newest stash, or a range error. */
  function TakeStash(dir: Directory, names: seq<string>, n: int): (r: Result<Content>)
    requires AllIn(names, dir)
    ensures r.Err? <==> !InRange(n, |names|)
    ensures r.Err? ==> r.error == StashOutOfRange(n, |names|)
    ensures r.Ok? ==> names[|names| - n] in dir && r.value == dir[names[|names| - n]]
  {
    if n > |names| || n < 1 then Err(StashOutOfRange(n, |names|))
    else Ok(dir[names[|names| - n]])
  }

  /** Index 1 selects the newest stash: every other name sorts before it. */
  lemma TakeNewest(dir: Directory, names: seq<string>)
    requires IsListing(dir, names) && names != []
    ensures var newest := names[|names| - 1];
      && TakeStash(dir, names, 1) == Ok(dir[newest])
      && forall m :: m in dir && m != newest ==> LexLess(m, newest)
  {
  }

  /** Index `|names|` selects the oldest stash: every other name sorts after it. */
  lemma TakeOldest(dir: Directory, names: seq<string>)
    requires IsListing(dir, names) && names != []
    ensures var oldest := names[0];
      && TakeStash(dir, names, |names|) == Ok(dir[oldest])
      && forall m :: m in dir && m != oldest ==> LexLess(oldest, m)
  {
  }

  /**
   * A larger reverse index selects a strictly older name, so distinct
   * indices select distinct files.
   */
  lemma TakeOrder(dir: Directory, names: seq<string>, n1: int, n2: int)
    requires IsListing(dir, names)
    requires InRange(n1, |names|) && InRange(n2, |names|) && n1 < n2
    ensures LexLess(names[|names| - n2], names[|names| - n1])
    ensures names[|names| - n2] != names[|names| - n1]
  {
    LexLessIrreflexive(names[|names| - n1]);
  }

  /**
   * A stash created under a name that sorts after every other file is what
   * `take 1` returns next, whether the name was new or overwritten.
   */
  lemma CreateThenTakeNewest(dir: Directory, ts: string, content: Content, names': seq<string>)
    requires forall m :: m in dir && m != StashName(ts) ==> LexLess(m, StashName(ts))
    requires IsListing(Create(dir, ts, content), names')
    ensures TakeStash(Create(dir, ts, content), names', 1) == Ok(content)
  {
    var dir' := Create(dir, ts, content);
    var k := StashName(ts);
    assert k in names';
    TakeNewest(dir', names');
    var last := names'[|names'| - 1];
    if last != k {
      assert LexLess(k, last);
      assert last in dir && LexLess(last, k);
      LexLessAsymmetric(k, last);
      assert false;
    }
  }
}
