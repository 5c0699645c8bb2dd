/** The values that flow between the parser, the retry loop and the board:
    the five-slot table of one category and the exceptions that end a game's
    generation. */
module Trivia {

  /** The exceptions the pipeline lets through. `IndexOutOfRange` is Python's
      `IndexError` from indexing past the end of a list. `UnboundOutput` is the
      `UnboundLocalError` of the model call: every exception of the request is
      reported and swallowed, and the response object that was never assigned
      is then read. */
  datatype Error = IndexOutOfRange | UnboundOutput

  datatype Result<T> = Ok(value: T) | Err(error: Error)

  datatype Option<T> = None | Some(value: T)

  /** One tier of a category's table. `Sentinel` is the placeholder list `[0]`;
      `Filled` is the two-element list `[clue, response]`. */
  datatype Slot = Sentinel | Filled(clue: string, response: string)

  /** The dollar amounts of the five tiers, as they are searched for in a line. */
  const Tiers: seq<string> := ["200", "400", "600", "800", "1000"]

  /** Five placeholders: the table before any line is parsed. */
  function EmptyTable(): (t: seq<Slot>)
    ensures |t| == 5
    ensures forall k :: 0 <= k < 5 ==> t[k] == Sentinel
  {
    [Sentinel, Sentinel, Sentinel, Sentinel, Sentinel]
  }

  /** No slot is the placeholder: the condition under which the retry loop stops.
      The retry rejects a slot shorter than two or whose first element is the
      number 0; a filled slot has two elements and a string first, so only the
      placeholder is rejected. */
  predicate Complete(t: seq<Slot>)
  {
    forall k :: 0 <= k < |t| ==> t[k].Filled?
  }
}
