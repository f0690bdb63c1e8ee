/** Result and option types shared by every stage of the template engine. */
module Base {

  datatype Option<T> = None | Some(value: T)

  /** The fatal conditions of one render. Each stands for an exception the
      engine raises and does not recover from. */
  datatype Error =
    | MalformedBrackets      // `[` while inside a tag, or `]` while outside one
    | LoopEndBeforeStart     // `>` seen before any `<`
    | NestedLoop             // a second `<` seen inside an open loop
    | NoLoopStart            // no `<` after the anchor (the loop start is never bound)
    | DetachedAnchor         // the registered leaf's paragraph is no longer in the body
    | MissingNode            // a leaf reference with no leaf behind it
    | MissingSection(name: string)  // the lowercased section name is not a data key

  datatype Result<T> = Ok(value: T) | Err(error: Error)

  /** Empty sequences on either side of a concatenation change nothing. */
  lemma Framed<T>(x: seq<T>)
    ensures [] + x + [] == x
  {
  }

  lemma Halves<T>(x: seq<T>, m: nat)
    requires m <= |x|
    ensures x == x[..m] + x[m..]
  {
  }

  lemma SliceSnoc<T>(x: seq<T>, i: nat, k: nat, j: nat)
    requires i <= k && j == k + 1 && j <= |x|
    ensures x[i..j] == x[i..k] + [x[k]]
  {
  }

  /** Dropping the last element of a concatenation with a non-empty right
      part drops it from that part, and the last element comes from there. */
  lemma DropLast<T>(x: seq<T>, y: seq<T>)
    requires y != []
    ensures (x + y)[..|x + y| - 1] == x + y[..|y| - 1]
    ensures (x + y)[|x + y| - 1] == y[|y| - 1]
  {
  }
}
