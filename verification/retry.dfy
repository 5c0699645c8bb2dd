/** `retry_get_jeopardy_trivia`: ask for a category's table up to a number of
    times and keep the first complete one. What the model call gives on each
    attempt is a parameter (`None` for a request that raised); the pause
    before each request is left out. */
module RetryLoop {
  import opened Trivia
  import opened Parser

  /** The inner loop of the retry: `check` starts true and is cleared by every
      placeholder slot; there is no early exit. */
  method CheckComplete(table: seq<Slot>) returns (check: bool)
    ensures check <==> Complete(table)
  {
    check := true;
    for j := 0 to |table|
      invariant check <==> forall k :: 0 <= k < j ==> table[k].Filled?
    {
      if table[j].Sentinel? {
        check := false;
      }
    }
  }

  /** The retry loop over the remaining completions, `last` being the table of
      the previous attempt (the five placeholders before the first). A raising
      attempt ends the loop with its error, a complete table ends it with that
      table, and when no attempt is left the last table is returned. */
  function RetryFrom(completions: seq<Option<string>>, last: seq<Slot>): (r: Result<seq<Slot>>)
    ensures completions == [] ==> r == Ok(last)
    ensures |last| == 5 && r.Ok? ==> |r.value| == 5
    decreases |completions|
  {
    if completions == [] then Ok(last)
    else
      match Attempt(completions[0])
      case Err(e) => Err(e)
      case Ok(t) => if Complete(t) then Ok(t) else RetryFrom(completions[1..], t)
  }

  /** The outcome of `number_of_tries` attempts. */
  function Retry(completions: seq<Option<string>>, numberOfTries: nat): (r: Result<seq<Slot>>)
    requires numberOfTries <= |completions|
    ensures numberOfTries == 0 ==> r == Ok(EmptyTable())
    ensures r.Ok? ==> |r.value| == 5
  {
    RetryFrom(completions[..numberOfTries], EmptyTable())
  }

  /** `retry_get_jeopardy_trivia(category, number_of_tries)`, where the model
      call of attempt `i` gives `completions[i]`. */
  method RetryGetJeopardyTrivia(completions: seq<Option<string>>, numberOfTries: nat) returns (r: Result<seq<Slot>>)
    requires numberOfTries <= |completions|
    ensures r == Retry(completions, numberOfTries)
  {
    var triviaQuestions := EmptyTable();
    var tries := completions[..numberOfTries];
    for i := 0 to numberOfTries
      invariant RetryFrom(tries, EmptyTable()) == RetryFrom(tries[i..], triviaQuestions)
    {
      assert tries[i..][1..] == tries[i + 1..];
      var attempt := GetJeopardyTrivia(completions[i]);
      if attempt.Err? {
        return Err(attempt.error);
      }
      triviaQuestions := attempt.value;
      var check := CheckComplete(triviaQuestions);
      if check {
        return Ok(triviaQuestions);
      }
    }
    r := Ok(triviaQuestions);
  }

  // ---------------------------------------------------------------------------
  // Properties

  /** Attempt `i` ends the loop: it raises or yields a complete table, and
      every attempt before it yielded an incomplete table. */
  predicate EndsAt(completions: seq<Option<string>>, i: nat)
  {
    && i < |completions|
    && (Attempt(completions[i]).Err? || Complete(Attempt(completions[i]).value))
    && forall j :: 0 <= j < i ==> Attempt(completions[j]).Ok? && !Complete(Attempt(completions[j]).value)
  }

  /** The first attempt that raises or yields a complete table decides the
      outcome: its error or its table. */
  lemma {:induction false} FirstDecisiveAttemptWins(completions: seq<Option<string>>, last: seq<Slot>, i: nat)
    requires EndsAt(completions, i)
    ensures RetryFrom(completions, last) == Attempt(completions[i])
    decreases i
  {
    if i > 0 {
      assert Attempt(completions[0]).Ok? && !Complete(Attempt(completions[0]).value);
      var rest := completions[1..];
      assert forall j :: 0 <= j < i - 1 ==> rest[j] == completions[j + 1];
      FirstDecisiveAttemptWins(rest, Attempt(completions[0]).value, i - 1);
    }
  }

  /** When every attempt yields an incomplete table, the table of the last
      attempt is returned, incomplete as it is. */
  lemma {:induction false} AllIncompleteGivesLastTable(completions: seq<Option<string>>, last: seq<Slot>)
    requires completions != []
    requires forall j :: 0 <= j < |completions| ==>
      Attempt(completions[j]).Ok? && !Complete(Attempt(completions[j]).value)
    ensures RetryFrom(completions, last) == Attempt(completions[|completions| - 1])
    ensures !Complete(RetryFrom(completions, last).value)
    decreases |completions|
  {
    var rest := completions[1..];
    if rest != [] {
      assert forall j :: 0 <= j < |rest| ==> rest[j] == completions[j + 1];
      AllIncompleteGivesLastTable(rest, Attempt(completions[0]).value);
      assert rest[|rest| - 1] == completions[|completions| - 1];
    }
  }

  /** Whatever happens, a successful outcome is a complete table or the table
      of the last attempt (the placeholders when there was none); an error is
      raised only by an attempt that raised. */
  lemma {:induction false} RetryOutcome(completions: seq<Option<string>>, last: seq<Slot>)
    ensures RetryFrom(completions, last).Ok? ==>
      || Complete(RetryFrom(completions, last).value)
      || (completions == [] && RetryFrom(completions, last).value == last)
      || (completions != [] && RetryFrom(completions, last) == Attempt(completions[|completions| - 1]))
    ensures RetryFrom(completions, last).Err? ==>
      exists i :: 0 <= i < |completions| && Attempt(completions[i]).Err?
    decreases |completions|
  {
    if completions != [] {
      var rest := completions[1..];
      match Attempt(completions[0])
      case Err(_) =>
      case Ok(t) =>
        if !Complete(t) {
          RetryOutcome(rest, t);
          if rest != [] {
            assert rest[|rest| - 1] == completions[|completions| - 1];
          }
          if RetryFrom(rest, t).Err? {
            var i :| 0 <= i < |rest| && Attempt(rest[i]).Err?;
            assert rest[i] == completions[i + 1];
          }
        }
    }
  }
}
