# go-stash, modelled in Dafny

`stash` is a command-line tool that keeps pieces of text in `~/.stashes`.
Piped into it with no flags, it writes its standard input to a
file named `<timestamp>.txt`. With `-l N` (or `--limit N`) it lists the N most
recent stashes, each with a preview of at most ten lines (a shorter file is shown whole). With `-t N` (or `--take N`) it
prints the N-th most recent stash in full. Stashes are addressed by a reverse
index, where `1` is the newest: the directory listing is sorted by name, and
the names begin with a `YYYY-MM-DD HH:MM:SS` timestamp.

The model keeps the logic of `main.go` and makes the filesystem and the
terminal abstract:

- The stash directory is a `map` from file name to content (`Store.Directory`).
- What `os.ReadDir` returns is a sequence of entries. The model requires, as
  `os.ReadDir` promises, that their names are strictly sorted and list exactly
  the directory's entries (`Store.IsReadDir`). Every entry of the map is a
  readable file.
- Standard output is a sequence of records (`Base.Record`): a numbered header,
  a preview body, a blank separator, or raw bytes. Standard error is a string,
  and the exit status is a number (`Dispatch.Outcome`).
- The clock is a parameter: the timestamp string of the invocation.
- `readLines` is a parameter of type `Content -> seq<string>`: the lines that
  `bufio.Scanner` yields for a file's content.

Modules:

- `Text`: the parts of Go's string library the tool relies on, each with its
  partner. Byte-wise string order, a strict total order. `strings.ReplaceAll` with an
  empty replacement, which is the identity when the pattern does not occur.
  `strings.Join` on newlines, with `strings.Split` as its inverse. `%d`, with
  reading back as its inverse.
- `Base`: error results, messages, the bounds check, output records.
- `Store`: `stashesFiles`, `create`, `takeStash`, and what the sorted listing
  implies about which file a reverse index selects.
- `Preview`: the teaser.
- `Listing`: `list`, as a loop method proved against the function `ListSpec`,
  plus the shape of its output.
- `Dispatch`: `main`.

Points where the code behaves in a way a reader might not expect, and the
model does what the code does:

- `list` prints the window in ascending name order. So the OLDEST stash of the
  window comes first and carries the highest number (main.go:73-91).
- Create mode prints only the content it stored, followed by a newline
  (main.go:55).
- In the code, `list` and `takeStash` each read the directory themselves.
  `Dispatch.Run` reads it once, in the branch that needs it. Nothing changes in
  between, so the result is the same.

## Model

| member | source | states |
|---|---|---|
| Text.LexLess | main.go:141 | the byte-wise order names are sorted by; `LexLessIrreflexive`, `LexLessAsymmetric`, `LexLessTransitive` and `LexLessTotal` show it is a strict total order |
| Text.LexLessIrreflexive | main.go:141 | no name sorts strictly before itself in the order `os.ReadDir` sorts by |
| Text.LexLessAsymmetric | main.go:141 | if name a sorts before b, then b does not sort before a |
| Text.LexLessTransitive | main.go:141 | if a sorts before b and b before c, then a sorts before c |
| Text.LexLessTotal | main.go:141 | of two different names, one sorts before the other |
| Text.RemoveAll | main.go:91 | `strings.ReplaceAll(s, pat, "")` never makes a string longer |
| Text.RemoveAllAbsent | main.go:91 | removing a pattern that does not occur in s returns s unchanged |
| Text.JoinLines | main.go:88 | `strings.Join(lines, "\n")`; `SplitJoinLines` shows `strings.Split` on "\n" undoes it for a non-empty sequence of newline-free lines, and `JoinLinesPrefix` that joining fewer lines gives a prefix |
| Text.SplitJoinLines | main.go:88 | `strings.Split` on "\n" gives back exactly the lines that `strings.Join(lines, "\n")` joined, for a non-empty sequence of lines none of which holds a newline (no lines join to "", which splits into one empty line) |
| Text.JoinLinesPrefix | main.go:88 | joining the first k lines gives a prefix of joining all of them |
| Text.NatToDecimal | main.go:70 | `%d` of a natural number is a non-empty string of decimal digits, with no leading zero when it has more than one digit |
| Text.IntToDecimal | main.go:107-110 | `%d` of an integer is one non-empty line that starts with a digit exactly when the integer is not negative; `IntDecimalRoundTrip` shows it reads back as that integer |
| Text.IntDecimalRoundTrip | main.go:107-110 | the number that `%d` prints in an error message reads back as that number, sign included |
| Store.StashesFiles | main.go:140-152 | the preallocated slice gets one name per directory entry, in entry order |
| Store.StashesFilesListing | main.go:140-152 | for a directory that `os.ReadDir` listed, the names are the strictly sorted listing of exactly its files |
| Store.StashName | main.go:59-60 | the name `create` writes is the timestamp followed by ".txt"; `Listing.TitleOfStashName` shows `list` shows it under the timestamp again |
| Store.Create | main.go:58-63 | `<ts>.txt` now holds the content verbatim; other files keep their content; the file set gains only that name; the count grows by one unless a file of that name was overwritten |
| Store.TakeStash | main.go:103-122 | an out-of-range error carrying n and the stash count exactly when n < 1 or n > count, so an empty store always errors; otherwise the content of `names[count - n]` |
| Store.TakeNewest | main.go:114 | index 1 returns the file whose name sorts after every other file, the newest |
| Store.TakeOldest | main.go:114 | index count returns the file whose name sorts before every other file, the oldest |
| Store.TakeOrder | main.go:114 | a larger reverse index selects a strictly earlier name, so distinct indices select distinct files |
| Store.CreateThenTakeNewest | main.go:58-63 | after a create whose name sorts after every other file, `take 1` on any listing of the new directory returns exactly the stashed content, also when a same-second file was overwritten |
| Preview.TeaserLines | main.go:81-86 | keeps min(line count, 10) lines as a prefix of the lines, and all of them when there are at most 10 |
| Preview.Teaser | main.go:81-88 | the kept lines joined by newlines; `TeaserIsPrefix` shows it is the start of the file's lines joined by newlines, and `TeaserSplitsIntoKeptLines` that, for a file with at least one line, it splits back into the kept lines |
| Preview.TeaserIsPrefix | main.go:81-88 | the preview text is a prefix of the file's lines joined by newlines, and equal to it when there are at most 10 lines |
| Preview.TeaserSplitsIntoKeptLines | main.go:81-88 | for a file with at least one line, none holding a newline, splitting the preview at newlines yields exactly the kept lines, min(line count, 10) of them (an empty file's preview is "", which splits into one empty line) |
| Base.Message | main.go:51-111 | the exact text of each error as `fmt.Errorf` or `main` words it, a non-empty string with no newline, so `fmt.Fprintln` writes it as exactly one line |
| Base.RangeMessage | main.go:106-111 | the wording both range errors share, "... is out of range: from 1 to <count>", a non-empty string with no newline |
| Listing.Title | main.go:91 | the file name with every ".txt" removed, `strings.ReplaceAll(fileName, ".txt", "")`; `TitleOfStashName` and `TitleOfTimestamp` show it gives back the timestamp `create` used |
| Listing.Window | main.go:73 | the window holds the last `limit` names, in their original order, and the listing is the rest followed by the window |
| Listing.List | main.go:66-101 | an out-of-range error carrying limit and the count exactly when limit < 1 or limit > count; otherwise the records the loop prints over the window, as `ListSpec` defines them |
| Listing.PrintWindow | main.go:75-98 | the loop appends one entry per file of the window, in window order, giving exactly `Render` of the window (invariant: the output so far is the first i entries concatenated) |
| Listing.PrintEntry | main.go:76-97 | one pass prints exactly `EntryRecords` for that file, whose records `EntryShape` gives position by position |
| Listing.EntryRecords | main.go:90-97 | what one pass of the loop prints for `files[i]`: header `len(files) - i` with the title, the preview, and a separator unless i is the last index; `EntryShape` states this position by position |
| Listing.Entries | main.go:75 | one entry per file of the window, in window order, as many entries as files |
| Listing.Concat | main.go:75-98 | the entries printed one after the other; `ConcatLength`, `ConcatAt` and `ConcatCount` give its length, where each entry's records sit, and how often a record occurs |
| Listing.Render | main.go:75-98 | the whole output of the loop, the concatenated entries; `RenderShape` states its length and every position |
| Listing.ListSpec | main.go:66-101 | an out-of-range error carrying limit and the count exactly when limit < 1 or limit > count, otherwise `Render` of the window; `List` is proved to compute it |
| Listing.ConcatLength | main.go:75-98 | when every entry but the last has three records, the output has 3·(entries − 1) plus the last entry's length records |
| Listing.ConcatAt | main.go:75-98 | with three records per entry, record t of entry j is record 3·j + t of the output |
| Listing.ConcatCount | main.go:95-97 | when every entry but the last holds a record once and the last none, the output holds it once per entry but one |
| Listing.EntryShape | main.go:90-97 | the entry for `files[i]` is the header, the preview and, unless i is last, a separator, and holds one separator or none accordingly |
| Listing.EntriesThreeEach | main.go:90-97 | every entry of the window except the last one has three records |
| Listing.RenderEntry | main.go:90-97 | the header of entry i sits at 3·i in the output, its preview at 3·i + 1, and its separator at 3·i + 2 unless i is the last entry |
| Listing.RenderShape | main.go:75-98 | entry i is header `len(window) - i` with the title of `window[i]`, then that file's preview, then a separator unless it is the last entry; 3·len − 1 records in all |
| Listing.ListSeparators | main.go:95-97 | a listing of `limit` entries holds exactly `limit - 1` separators |
| Listing.ListLabelIsTakeIndex | main.go:91 | the entry labelled k shows the title of the file `take k` selects, and its body is the preview of the content `take k` returns |
| Listing.TitleOfStashName | main.go:60 | the title shown for `<ts>.txt` is `ts`, when `ts` holds no ".txt" |
| Listing.TitleOfTimestamp | main.go:59-60 | a stash created at a `time.DateTime` timestamp is listed under that timestamp |
| Dispatch.Failed | main.go:31-53 | a failing run prints nothing to stdout, exits with status 1, leaves the directory unchanged, and writes to stderr exactly one line, the error's message |
| Dispatch.Run | main.go:18-56 | a limit other than -1 runs `list`; otherwise a take other than -1 runs `takeStash`; otherwise empty stdin fails with "no content to stash" and non-empty stdin is stored with `create` and echoed; every failure prints its message to stderr, exits 1, prints nothing to stdout and leaves the directory unchanged; only create mode changes the directory |

## Left out

- Filesystem calls (`os.ReadDir`, `os.ReadFile`, `os.WriteFile`, `os.Open`,
  `os.UserHomeDir`, `filepath.Join`, `stashesDir`) are not modelled. The
  directory is a map, and the listing comes with a precondition. Their failures
  end in `panic` in the code, and the model has no such path. This includes a
  subdirectory or other unreadable entry of `~/.stashes`: the code counts it in
  `len(files)` and panics when `list` or `take` selects it (main.go:76-79,
  main.go:116-119); the model's directory holds only readable files.
- `readLines` and its `bufio.Scanner` loop are not modelled: splitting lines,
  stripping `\r` and the token-size limit belong to the library. The lines
  are a parameter of `List` and `Run`.
- `time.Now().Format(time.DateTime)` is not modelled; the timestamp is an input.
  The claim that timestamp order is chronological order is not proved.
- `flag` parsing is not modelled: the flag values are inputs, and `-1` stands
  for "not given".
- Yellow headers (`color.Set`/`color.Unset`) are not modelled. A header is a
  `Header` record, and the exact bytes `fmt.Printf` writes are not produced.
- File content is a string of characters, each standing for one byte. Names are
  compared character by character, which matches Go's byte order for the
  ASCII names the tool writes.
- Two invocations racing on the same directory are not modelled: the code has
  no concurrency of its own.
