/** Values shared by every part of the quiz tool's model. */
module Common {

  /** An absent value stands for Java's `null`. */
  datatype Option<+T> = None | Some(value: T)

  /**
   * One command-line argument, already tokenised. Argument 0 is the
   * command name. The source looks at a token in two ways:
   *  - `flag` is the text before the value (`-u` in `-u 'alice'`), which
   *    both `split(" ")[0]` and `split("'")[0].trim()` give;
   *  - `spaced` is whether `split(" ")` gives more than one piece, that is
   *    whether a space follows the flag;
   *  - `value` is `split("'")[1]`, present only when `split("'")` gives
   *    at least two pieces. Java drops trailing empty pieces, so an empty
   *    quote (`-u ''`) gives no value, though the token is spaced.
   */
  datatype Arg = Arg(flag: string, spaced: bool, value: Option<string>)

  /** The quote view: `split("'")[0].trim()` is `flag` and there is a quoted value. */
  predicate HasFlag(a: Arg, flag: string)
  {
    a.flag == flag && a.value.Some?
  }

  /** The space view: `split(" ")[0]` is `flag` and `split(" ")` gives more than one piece. */
  predicate SpacedFlag(a: Arg, flag: string)
  {
    a.flag == flag && a.spaced
  }

  /** Concatenation regroups freely; stated once so that callers need not reason element-wise. */
  lemma ConcatAssoc<T>(a: seq<T>, b: seq<T>, c: seq<T>)
    ensures (a + b) + c == a + (b + c)
  {
  }
}
