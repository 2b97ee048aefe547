/**
 * The preview `list` prints under each stash: at most the first
 * `TeaserLen` lines of the file, joined back with newlines.
 */
module Preview {
  import opened Text

  const TeaserLen: nat := 10

  /** The lines the preview keeps: a prefix of `min(|lines|, TeaserLen)` lines. */
  function TeaserLines(lines: seq<string>): (kept: seq<string>)
    ensures |kept| == if |lines| > TeaserLen then TeaserLen else |lines|
    ensures kept <= lines
    ensures |lines| <= TeaserLen ==> kept == lines
  {
    if |lines| > TeaserLen then lines[..TeaserLen] else lines
  }

  /** The preview text: the kept lines joined with "\n". */
  function Teaser(lines: seq<string>): string
  {
    JoinLines(TeaserLines(lines))
  }

  /**
   * The preview is the start of the file's lines joined back together, and
   * all of it when the file has no more than `TeaserLen` lines.
   */
  lemma TeaserIsPrefix(lines: seq<string>)
    ensures Teaser(lines) <= JoinLines(lines)
    ensures |lines| <= TeaserLen ==> Teaser(lines) == JoinLines(lines)
  {
    if |lines| > TeaserLen {
      JoinLinesPrefix(lines, TeaserLen);
    }
  }

  /**
   * Splitting the preview at its newlines gives back exactly the kept
   * lines (the scanner's lines hold no newline).
   */
  lemma TeaserSplitsIntoKeptLines(lines: seq<string>)
    requires lines != []
    requires forall i :: 0 <= i < |lines| ==> NoNewline(lines[i])
    ensures SplitLines(Teaser(lines)) == TeaserLines(lines)
    ensures |SplitLines(Teaser(lines))| == if |lines| > TeaserLen then TeaserLen else |lines|
  {
    var kept := TeaserLines(lines);
    assert forall i :: 0 <= i < |kept| ==> kept[i] == lines[i];
    SplitJoinLines(kept);
  }
}
