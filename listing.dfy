/**
 * `list -l N`: print the last N stashes of the listing in ascending name
 * order (oldest of the window first), each as a numbered header, its
 * preview, and a blank separator before the next entry.  The number on an
 * entry counts down from N and equals the reverse index `take` uses for
 * the same file.
 */
module Listing {
  import opened Text
  import opened Base
  import opened Store
  import opened Preview

  /** The label shown for a file: its name with every ".txt" removed. */
  function Title(name: string): string
  {
    RemoveAll(name, Ext)
  }

  /** `files[len(files)-limit:]`: the last `limit` names, in listing order. */
  function Window(names: seq<string>, limit: int): (window: seq<string>)
    requires InRange(limit, |names|)
    ensures |window| == limit
    ensures forall i :: 0 <= i < limit ==> window[i] == names[|names| - limit + i]
    ensures names == names[..|names| - limit] + window
  {
    names[|names| - limit..]
  }

  /** What one pass of the loop in `list` prints for `files[i]`. */
  function EntryRecords(files: seq<string>, i: nat, dir: Directory, readLines: Content -> seq<string>): seq<Record>
    requires i < |files| && AllIn(files, dir)
  {
    [Header(|files| - i, Title(files[i])), Body(Teaser(readLines(dir[files[i]])))]
      + (if i != |files| - 1 then [Separator] else [])
  }

  /** The entries the loop prints, one per file of the window. */
  function Entries(files: seq<string>, dir: Directory, readLines: Content -> seq<string>): (entries: seq<seq<Record>>)
    requires AllIn(files, dir)
    ensures |entries| == |files|
  {
    seq(|files|, i requires 0 <= i < |files| => EntryRecords(files, i, dir, readLines))
  }

  /** All the entries' records, one entry after the other. */
  function Concat<T>(parts: seq<seq<T>>): seq<T>
    decreases |parts|
  {
    if parts == [] then [] else Concat(parts[..|parts| - 1]) + parts[|parts| - 1]
  }

  function Render(files: seq<string>, dir: Directory, readLines: Content -> seq<string>): seq<Record>
    requires AllIn(files, dir)
  {
    Concat(Entries(files, dir, readLines))
  }

  /** What `list` produces: the rendered window, or the range error. */
  function ListSpec(dir: Directory, names: seq<string>, limit: int, readLines: Content -> seq<string>): (r: Result<seq<Record>>)
    requires AllIn(names, dir)
    ensures r.Err? <==> !InRange(limit, |names|)
    ensures r.Err? ==> r.error == LimitOutOfRange(limit, |names|)
  {
    if limit > |names| || limit < 1 then Err(LimitOutOfRange(limit, |names|))
    else Ok(Render(Window(names, limit), dir, readLines))
  }

  /** One pass of the loop in `list`: the header, the preview and, unless last, a separator. */
  method PrintEntry(files: seq<string>, i: nat, dir: Directory, readLines: Content -> seq<string>)
    returns (entry: seq<Record>)
    requires i < |files| && AllIn(files, dir)
    ensures entry == EntryRecords(files, i, dir, readLines)
  {
    var lines := readLines(dir[files[i]]);
    var body := Teaser(lines);
    entry := [Header(|files| - i, Title(files[i])), Body(body)];
    if i != |files| - 1 {
      entry := entry + [Separator];
    }
  }

  /** The loop of `list`: print every entry of the window, in window order. */
  method PrintWindow(files: seq<string>, dir: Directory, readLines: Content -> seq<string>)
    returns (out: seq<Record>)
    requires AllIn(files, dir)
    ensures out == Render(files, dir, readLines)
  {
    ghost var entries := Entries(files, dir, readLines);
    out := [];
    for i := 0 to |files|
      invariant out == Concat(entries[..i])
    {
      var entry := PrintEntry(files, i, dir, readLines);
      assert entries[..i + 1][..i] == entries[..i];
      out := out + entry;
    }
    assert entries[..|files|] == entries;
  }

  /** `list`: check the bounds, then print the window of the last `limit` names. */
  method List(dir: Directory, names: seq<string>, limit: int, readLines: Content -> seq<string>)
    returns (r: Result<seq<Record>>)
    requires AllIn(names, dir)
    ensures r.Err? <==> !InRange(limit, |names|)
    ensures r.Err? ==> r.error == LimitOutOfRange(limit, |names|)
    ensures r == ListSpec(dir, names, limit, readLines)
  {
    if limit > |names| || limit < 1 {
      return Err(LimitOutOfRange(limit, |names|));
    }
    var files := names[|names| - limit..];
    assert files == Window(names, limit);
    assert AllIn(files, dir);
    var out := PrintWindow(files, dir, readLines);
    return Ok(out);
  }

  // ---------------------------------------------------------------------
  // The shape of the output
  // ---------------------------------------------------------------------

  /** Every entry but the last is three records long. */
  predicate ThreeEach<T>(parts: seq<seq<T>>)
  {
    forall j :: 0 <= j < |parts| - 1 ==> |parts[j]| == 3
  }

  lemma {:induction false} ConcatLength<T>(parts: seq<seq<T>>)
    requires parts != [] && ThreeEach(parts)
    ensures |Concat(parts)| == 3 * (|parts| - 1) + |parts[|parts| - 1]|
    decreases |parts|
  {
    if |parts| > 1 {
      ConcatLength(parts[..|parts| - 1]);
    }
  }

  /** Record `t` of entry `j` is record `3 * j + t` of the whole. */
  lemma {:induction false} ConcatAt<T>(parts: seq<seq<T>>, j: nat, t: nat)
    requires j < |parts| && t < |parts[j]| && ThreeEach(parts)
    ensures 3 * j + t < |Concat(parts)| && Concat(parts)[3 * j + t] == parts[j][t]
    decreases |parts|
  {
    var init := parts[..|parts| - 1];
    if init != [] {
      ConcatLength(init);
    }
    if j < |parts| - 1 {
      ConcatAt(init, j, t);
    }
  }

  lemma {:induction false} ConcatCountOnes<T>(parts: seq<seq<T>>, x: T)
    requires forall j :: 0 <= j < |parts| ==> multiset(parts[j])[x] == 1
    ensures multiset(Concat(parts))[x] == |parts|
    decreases |parts|
  {
    if parts != [] {
      ConcatCountOnes(parts[..|parts| - 1], x);
    }
  }

  /** When every entry but the last holds `x` once and the last none, the whole holds it `|parts| - 1` times. */
  lemma ConcatCount<T>(parts: seq<seq<T>>, x: T)
    requires parts != []
    requires forall j :: 0 <= j < |parts| - 1 ==> multiset(parts[j])[x] == 1
    requires multiset(parts[|parts| - 1])[x] == 0
    ensures multiset(Concat(parts))[x] == |parts| - 1
  {
    ConcatCountOnes(parts[..|parts| - 1], x);
  }

  /** The records of one entry, and how many separators it holds. */
  lemma EntryShape(files: seq<string>, i: nat, dir: Directory, readLines: Content -> seq<string>)
    requires i < |files| && AllIn(files, dir)
    ensures var entry := EntryRecords(files, i, dir, readLines);
      && |entry| == (if i == |files| - 1 then 2 else 3)
      && entry[0] == Header(|files| - i, Title(files[i]))
      && entry[1] == Body(Teaser(readLines(dir[files[i]])))
      && (i < |files| - 1 ==> entry[2] == Separator)
      && multiset(entry)[Separator] == (if i == |files| - 1 then 0 else 1)
  {
  }

  lemma EntriesThreeEach(files: seq<string>, dir: Directory, readLines: Content -> seq<string>)
    requires AllIn(files, dir)
    ensures ThreeEach(Entries(files, dir, readLines))
  {
  }

  /**
   * Entry `i` of the output is header `|files| - i` with the title of
   * `files[i]`, then that file's preview, then (except after the last
   * entry) a separator: `3 * |files| - 1` records in all.
   */
  lemma RenderShape(files: seq<string>, i: nat, dir: Directory, readLines: Content -> seq<string>)
    requires i < |files| && AllIn(files, dir)
    ensures var rs := Render(files, dir, readLines);
      && |rs| == 3 * |files| - 1
      && rs[3 * i] == Header(|files| - i, Title(files[i]))
      && rs[3 * i + 1] == Body(Teaser(readLines(dir[files[i]])))
      && (i < |files| - 1 ==> rs[3 * i + 2] == Separator)
  {
    var entries := Entries(files, dir, readLines);
    EntriesThreeEach(files, dir, readLines);
    EntryShape(files, |files| - 1, dir, readLines);
    ConcatLength(entries);
    RenderEntry(files, i, dir, readLines);
  }

  /** Record `t` of entry `i` sits at position `3 * i + t` of the output. */
  lemma RenderEntry(files: seq<string>, i: nat, dir: Directory, readLines: Content -> seq<string>)
    requires i < |files| && AllIn(files, dir)
    ensures var rs := Render(files, dir, readLines);
      && 3 * i + 1 < |rs|
      && rs[3 * i] == Header(|files| - i, Title(files[i]))
      && rs[3 * i + 1] == Body(Teaser(readLines(dir[files[i]])))
      && (i < |files| - 1 ==> 3 * i + 2 < |rs| && rs[3 * i + 2] == Separator)
  {
    var entries := Entries(files, dir, readLines);
    EntriesThreeEach(files, dir, readLines);
    EntryShape(files, i, dir, readLines);
    ConcatAt(entries, i, 0);
    ConcatAt(entries, i, 1);
    if i < |files| - 1 {
      ConcatAt(entries, i, 2);
    }
  }

  /** The output holds exactly `limit - 1` separators, one between each two entries. */
  lemma ListSeparators(dir: Directory, names: seq<string>, limit: int, readLines: Content -> seq<string>)
    requires AllIn(names, dir) && InRange(limit, |names|)
    ensures ListSpec(dir, names, limit, readLines).Ok?
    ensures multiset(ListSpec(dir, names, limit, readLines).value)[Separator] == limit - 1
  {
    var window := Window(names, limit);
    assert AllIn(window, dir);
    var entries := Entries(window, dir, readLines);
    forall j | 0 <= j < limit
      ensures multiset(entries[j])[Separator] == if j == limit - 1 then 0 else 1
    {
      EntryShape(window, j, dir, readLines);
    }
    ConcatCount(entries, Separator);
  }

  /**
   * The entry that `list` labels `k` is the file `take k` returns: its
   * header shows that file's title and its body is the preview of exactly
   * the content `take k` yields.
   */
  lemma ListLabelIsTakeIndex(dir: Directory, names: seq<string>, limit: int, readLines: Content -> seq<string>, k: int)
    requires AllIn(names, dir) && InRange(limit, |names|) && 1 <= k <= limit
    ensures ListSpec(dir, names, limit, readLines).Ok?
    ensures TakeStash(dir, names, k).Ok?
    ensures var rs := ListSpec(dir, names, limit, readLines).value;
      && |rs| == 3 * limit - 1
      && rs[3 * (limit - k)] == Header(k, Title(names[|names| - k]))
      && rs[3 * (limit - k) + 1] == Body(Teaser(readLines(TakeStash(dir, names, k).value)))
  {
    var window := Window(names, limit);
    var i := limit - k;
    assert window[i] == names[|names| - k];
    assert AllIn(window, dir);
    RenderShape(window, i, dir, readLines);
    assert ListSpec(dir, names, limit, readLines).value == Render(window, dir, readLines);
    assert TakeStash(dir, names, k).value == dir[window[i]];
  }

  // ---------------------------------------------------------------------
  // Titles of the files `create` writes
  // ---------------------------------------------------------------------

  /** `create` names `<ts>.txt`; the title shown for it is `ts` again. */
  lemma {:induction false} TitleOfStashName(ts: string)
    requires !Contains(ts, Ext)
    ensures Title(StashName(ts)) == ts
    decreases |ts|
  {
    var s := ts + Ext;
    if ts == [] {
      assert s == Ext && s[4..] == [];
    } else {
      if |ts| >= 4 {
        assert s[..4] == ts[..4];
        assert !OccursAt(ts, Ext, 0);
      } else {
        assert s[|ts|] == '.';
        assert Ext[|ts|] != '.';
      }
      assert s[..4] != Ext;
      NoOccurrenceInTail(ts, Ext);
      assert s[1..] == StashName(ts[1..]);
      TitleOfStashName(ts[1..]);
      assert [ts[0]] + ts[1..] == ts;
    }
  }

  /** `time.DateTime`'s layout "2006-01-02 15:04:05": digits and separators. */
  predicate IsDateTime(ts: string)
  {
    && |ts| == 19
    && ts[4] == '-' && ts[7] == '-' && ts[10] == ' ' && ts[13] == ':' && ts[16] == ':'
    && forall i :: 0 <= i < 19 && i !in {4, 7, 10, 13, 16} ==> IsDigit(ts[i])
  }

  /** A stash created at a `time.DateTime` timestamp is listed under that timestamp. */
  lemma TitleOfTimestamp(ts: string)
    requires IsDateTime(ts)
    ensures Title(StashName(ts)) == ts
  {
    forall i | 0 <= i <= |ts|
      ensures !OccursAt(ts, Ext, i)
    {
      if i + 4 <= |ts| {
        assert ts[i..i + 4][0] == ts[i] != '.';
      }
    }
    TitleOfStashName(ts);
  }
}
