/**
 * Values shared by the stash tool's operations: the error results that
 * replace Go's `error` returns, the messages `fmt.Errorf` and `main` write
 * for them, the bounds check both `list` and `takeStash` apply, and the
 * records that stand for what the program writes to standard output.
 */
module Base {
  import opened Text

  datatype Error =
    | LimitOutOfRange(limit: int, count: nat)    // `list`, main.go:69-70
    | StashOutOfRange(number: int, count: nat)   // `takeStash`, main.go:106-111
    | NoContent                                  // empty stdin, main.go:50-52

  datatype Result<T> = Ok(value: T) | Err(error: Error)

  /** The one-line diagnostic written to standard error for `e`. */
  function Message(e: Error): (m: string)
    ensures m != [] && NoNewline(m)
  {
    match e
    case LimitOutOfRange(limit, count) => RangeMessage("limit ", limit, count)
    case StashOutOfRange(number, count) => RangeMessage("stash number ", number, count)
    case NoContent => "no content to stash"
  }

  /** "<what><n> is out of range: from 1 to <count>", as both range errors word it. */
  function RangeMessage(what: string, n: int, count: nat): (m: string)
    requires NoNewline(what)
    ensures m != [] && NoNewline(m)
  {
    var middle := " is out of range: from 1 to ";
    var a := IntToDecimal(n);
    var b := IntToDecimal(count);
    NoNewlineAppend(what, a);
    NoNewlineAppend(what + a, middle);
    NoNewlineAppend(what + a + middle, b);
    what + a + middle + b
  }

  /** The reverse index `n` names one of `count` stashes. */
  predicate InRange(n: int, count: nat)
  {
    1 <= n <= count
  }

  /** One piece of standard output. */
  datatype Record =
    | Header(number: int, title: string)  // "%d) %s\n", printed in yellow
    | Body(text: string)                  // "%s\n", the teaser
    | Separator                           // "\n" between two list entries
    | Raw(text: string)                   // bytes written verbatim
}
