/** The parsing half of `get_jeopardy_trivia`: one model completion for a
    category in, its five-slot table out. The model call itself stays outside;
    the completion is a parameter. */
module Parser {
  import opened PyStr
  import opened Trivia
  import opened Formatter

  /** A line the loop looks at: it starts with a dollar sign or a hyphen. */
  predicate IsCandidate(line: string)
  {
    StartsWith(line, "$") || StartsWith(line, "-")
  }

  /** The label removal applied to the "question : answer" part of a line,
      wherever the labels occur. */
  function StripLabels(s: string): (r: string)
    ensures |r| <= |s| && forall d :: d in r ==> d in s
    ensures ':' !in s ==> r == s
  {
    LabelRemoval(s);
    ReplaceAll(ReplaceAll(ReplaceAll(ReplaceAll(s, "Question:", ""), "question:", ""), "q:", ""), "Q:", "")
  }

  lemma LabelRemoval(s: string)
    ensures var r := ReplaceAll(ReplaceAll(ReplaceAll(ReplaceAll(s, "Question:", ""), "question:", ""), "q:", ""), "Q:", "");
      |r| <= |s| && (forall d :: d in r ==> d in s) && (':' !in s ==> r == s)
  {
    var a := ReplaceAll(s, "Question:", "");
    var b := ReplaceAll(a, "question:", "");
    var c := ReplaceAll(b, "q:", "");
    ReplaceAllDeletes(s, "Question:");
    ReplaceAllDeletes(a, "question:");
    ReplaceAllDeletes(b, "q:");
    ReplaceAllDeletes(c, "Q:");
    if ':' !in s {
      MissingLastCharNotContained(s, "Question:");
      ReplaceAllMissing(s, "Question:", "");
      MissingLastCharNotContained(a, "question:");
      ReplaceAllMissing(a, "question:", "");
      MissingLastCharNotContained(b, "q:");
      ReplaceAllMissing(b, "q:", "");
      MissingLastCharNotContained(c, "Q:");
      ReplaceAllMissing(c, "Q:", "");
    }
  }

  /** The removal of the words "answer" and "Answer", wherever they occur. */
  function DropAnswerWord(s: string): (r: string)
    ensures |r| <= |s| && forall d :: d in r ==> d in s
    ensures !Contains(s, "answer") && !Contains(s, "Answer") ==> r == s
  {
    AnswerWordRemoval(s);
    ReplaceAll(ReplaceAll(s, "answer", ""), "Answer", "")
  }

  lemma AnswerWordRemoval(s: string)
    ensures var r := ReplaceAll(ReplaceAll(s, "answer", ""), "Answer", "");
      |r| <= |s| && (forall d :: d in r ==> d in s)
      && (!Contains(s, "answer") && !Contains(s, "Answer") ==> r == s)
  {
    ReplaceAllDeletes(s, "answer");
    ReplaceAllDeletes(ReplaceAll(s, "answer", ""), "Answer");
    if !Contains(s, "answer") && !Contains(s, "Answer") {
      ReplaceAllMissing(s, "answer", "");
      ReplaceAllMissing(s, "Answer", "");
    }
  }

  /** The amount part of a line with its `$` and `-` characters removed. */
  function Amount(s: string): (r: string)
    ensures '$' !in r && '-' !in r
    ensures forall d :: d in r ==> d in s
  {
    ReplaceAllDeletes(s, "$");
    ReplaceAllDeletes(ReplaceAll(s, "$", ""), "-");
    ReplaceAll(ReplaceAll(s, "$", ""), "-", "")
  }

  /** The tier an amount is routed to: the first of "200", "400", "600", "800",
      "1000" that occurs in it, so "1200" goes to the 200 tier. */
  function TierOf(amount: string): (k: Option<nat>)
    ensures k.Some? ==> k.value < 5 && Contains(amount, Tiers[k.value])
    ensures k.Some? ==> forall j :: 0 <= j < k.value ==> !Contains(amount, Tiers[j])
    ensures k.None? <==> forall j :: 0 <= j < 5 ==> !Contains(amount, Tiers[j])
  {
    if Contains(amount, "200") then Some(0)
    else if Contains(amount, "400") then Some(1)
    else if Contains(amount, "600") then Some(2)
    else if Contains(amount, "800") then Some(3)
    else if Contains(amount, "1000") then Some(4)
    else None
  }

  /** A line the parser keeps: its tier and its cleaned question and answer. */
  datatype Entry = Entry(tier: nat, question: string, answer: string)

  /** What one line contributes, or `None` when the loop passes over it. */
  function LineEntry(line: string): (e: Option<Entry>)
    ensures e.Some? ==> e.value.tier < 5
  {
    if !IsCandidate(line) then None
    else
      var row := Split(line, "|");
      if |row| != 2 then None
      else
        var qa := Split(StripLabels(row[1]), ":");
        if |qa| != 2 then None
        else
          match TierOf(Amount(row[0]))
          case None => None
          case Some(k) => Some(Entry(k, Strip(DropAnswerWord(qa[0])), Strip(DropAnswerWord(qa[1]))))
  }

  /** The loop passes over a line that starts with neither `$` nor `-`, that
      does not split on `|` into exactly two parts, whose second part (labels
      removed) does not split on `:` into exactly two parts, or whose amount
      names no tier. */
  lemma PassedOverLines(line: string)
    ensures !IsCandidate(line) ==> LineEntry(line).None?
    ensures |Split(line, "|")| != 2 ==> LineEntry(line).None?
    ensures |Split(line, "|")| == 2 && |Split(StripLabels(Split(line, "|")[1]), ":")| != 2 ==> LineEntry(line).None?
    ensures |Split(line, "|")| == 2 && TierOf(Amount(Split(line, "|")[0])).None? ==> LineEntry(line).None?
  {
  }

  /** One iteration of the loop over lines. */
  function ApplyLine(table: seq<Slot>, line: string): (r: Result<seq<Slot>>)
    requires |table| == 5
    ensures r.Ok? ==> |r.value| == 5
    ensures r.Err? ==> r.error == IndexOutOfRange
  {
    match LineEntry(line)
    case None => Ok(table)
    case Some(e) =>
      match Format(e.question, e.answer)
      case Err(x) => Err(x)
      case Ok(s) => Ok(table[e.tier := s])
  }

  /** A passed-over line leaves the table alone. */
  lemma PassedOverLineKeepsTable(table: seq<Slot>, line: string)
    requires |table| == 5
    requires LineEntry(line).None?
    ensures ApplyLine(table, line) == Ok(table)
  {
  }

  /** A kept line raises exactly when its clue has too few words. */
  lemma KeptLineFails(table: seq<Slot>, line: string)
    requires |table| == 5
    requires LineEntry(line).Some?
    ensures ApplyLine(table, line).Err? <==> TooFewWords(LineEntry(line).value.question)
  {
  }

  /** A kept line that does not raise overwrites the slot of its tier with
      the formatted pair and no other slot. */
  lemma KeptLineOverwritesItsTier(table: seq<Slot>, line: string)
    requires |table| == 5
    requires LineEntry(line).Some? && ApplyLine(table, line).Ok?
    ensures var e := LineEntry(line).value;
      var t := ApplyLine(table, line).value;
      && Format(e.question, e.answer) == Ok(t[e.tier])
      && forall j :: 0 <= j < 5 && j != e.tier ==> t[j] == table[j]
  {
  }

  /** The loop over `lines`, starting from `table`. */
  function ParseLines(table: seq<Slot>, lines: seq<string>): (r: Result<seq<Slot>>)
    requires |table| == 5
    ensures r.Ok? ==> |r.value| == 5
    ensures r.Err? ==> r.error == IndexOutOfRange
    decreases |lines|
  {
    if lines == [] then Ok(table)
    else
      match ParseLines(table, lines[..|lines| - 1])
      case Err(x) => Err(x)
      case Ok(t) => ApplyLine(t, lines[|lines| - 1])
  }

  /** The whole parse of one completion; an empty completion gives five placeholders. */
  function Parse(response: string): (r: Result<seq<Slot>>)
    ensures r.Ok? ==> |r.value| == 5
    ensures r.Err? ==> r.error == IndexOutOfRange
    ensures response == "" ==> r == Ok(EmptyTable())
  {
    if response == "" then Ok(EmptyTable())
    else ParseLines(EmptyTable(), Split(response, "\n"))
  }

  /** Once an attempt has raised, later lines do not matter. */
  lemma {:induction false} ErrPersists(table: seq<Slot>, lines: seq<string>, i: nat)
    requires |table| == 5 && i <= |lines|
    requires ParseLines(table, lines[..i]).Err?
    ensures ParseLines(table, lines).Err?
    decreases |lines| - i
  {
    if i < |lines| {
      assert lines[..i + 1][..i] == lines[..i];
      ErrPersists(table, lines, i + 1);
    } else {
      assert lines[..i] == lines;
    }
  }

  /** The parse of one more line continues from the table of the lines before it. */
  lemma ParseLinesStep(table: seq<Slot>, lines: seq<string>, i: nat, t: seq<Slot>)
    requires |table| == 5 && i < |lines|
    requires ParseLines(table, lines[..i]) == Ok(t)
    ensures ParseLines(table, lines[..i + 1]) == ApplyLine(t, lines[i])
  {
    assert lines[..i + 1][..i] == lines[..i];
  }

  /** The outcome of one call of `get_jeopardy_trivia`, given what the model
      call gives: `None` when the request raised, so that the call itself
      raises `UnboundOutput`, or `Some` of the text it returns (an empty
      completion already replaced by its fixed error message). A parse never
      raises that error, so it marks exactly the failed requests. */
  function Attempt(reply: Option<string>): (r: Result<seq<Slot>>)
    ensures r == Err(UnboundOutput) <==> reply.None?
    ensures r.Ok? ==> |r.value| == 5
  {
    match reply
    case None => Err(UnboundOutput)
    case Some(response) => Parse(response)
  }

  /** `get_jeopardy_trivia`: the model call, then the loop over the lines of
      the completion, writing into the five-slot table in place. */
  method GetJeopardyTrivia(reply: Option<string>) returns (r: Result<seq<Slot>>)
    ensures reply.None? ==> r == Err(UnboundOutput)
    ensures reply.Some? ==> r == Parse(reply.value)
  {
    if reply.None? {
      return Err(UnboundOutput);
    }
    var response := reply.value;
    var triviaQuestions := EmptyTable();
    if response != "" {
      var lines := Split(response, "\n");
      for i := 0 to |lines|
        invariant |triviaQuestions| == 5
        invariant ParseLines(EmptyTable(), lines[..i]) == Ok(triviaQuestions)
      {
        var line := lines[i];
        ParseLinesStep(EmptyTable(), lines, i, triviaQuestions);
        PassedOverLines(line);
        if LineEntry(line).None? {
          PassedOverLineKeepsTable(triviaQuestions, line);
        }
        if StartsWith(line, "$") || StartsWith(line, "-") {
          var row := Split(line, "|");
          if |row| == 2 {
            var qa := Split(StripLabels(row[1]), ":");
            if |qa| == 2 {
              var amount := Amount(row[0]);
              var question := Strip(DropAnswerWord(qa[0]));
              var answer := Strip(DropAnswerWord(qa[1]));
              var tier := -1;
              if Contains(amount, "200") {
                tier := 0;
              } else if Contains(amount, "400") {
                tier := 1;
              } else if Contains(amount, "600") {
                tier := 2;
              } else if Contains(amount, "800") {
                tier := 3;
              } else if Contains(amount, "1000") {
                tier := 4;
              }
              if tier >= 0 {
                assert TierOf(amount) == Some(tier);
                assert LineEntry(line) == Some(Entry(tier, question, answer));
                var formatted := Format(question, answer);
                if formatted.Err? {
                  ErrPersists(EmptyTable(), lines, i + 1);
                  return Err(formatted.error);
                }
                triviaQuestions := triviaQuestions[tier := formatted.value];
              }
            }
          }
        }
      }
      assert lines[..|lines|] == lines;
    }
    r := Ok(triviaQuestions);
  }

  // ---------------------------------------------------------------------------
  // Properties

  /** The entry of the last line routed to tier `k`, or `None` when no line
      is routed there. */
  function LastEntry(lines: seq<string>, k: nat): (e: Option<Entry>)
    ensures e.Some? ==> e.value.tier == k
    decreases |lines|
  {
    if lines == [] then None
    else
      var e := LineEntry(lines[|lines| - 1]);
      if e.Some? && e.value.tier == k then e else LastEntry(lines[..|lines| - 1], k)
  }

  /** `LastEntry` is the last line routed to tier `k`: it is `None` exactly
      when no line is routed there, and otherwise the entry of a line routed
      there after which no line is. */
  lemma LastEntrySpec(lines: seq<string>, k: nat)
    ensures LastEntry(lines, k).None? <==> forall i :: 0 <= i < |lines| ==> !RoutedTo(lines[i], k)
    ensures LastEntry(lines, k).Some? ==>
      exists i :: 0 <= i < |lines| && LineEntry(lines[i]) == LastEntry(lines, k)
        && forall j :: i < j < |lines| ==> !RoutedTo(lines[j], k)
  {
    var routed := (line: string) => RoutedTo(line, k);
    LastEntryNone(lines, k);
    AnyFromEndExists(lines, routed);
    assert forall i :: 0 <= i < |lines| ==> routed(lines[i]) == RoutedTo(lines[i], k);
    if LastEntry(lines, k).Some? {
      var i := LastWhere(lines, routed);
      var after := lines[i + 1..];
      AnyFromEndExists(after, routed);
      LastEntryIs(lines, k, i);
      forall j | i < j < |lines|
        ensures !RoutedTo(lines[j], k)
      {
        assert after[j - i - 1] == lines[j];
      }
    }
  }

  lemma {:induction false} LastEntryNone(lines: seq<string>, k: nat)
    ensures LastEntry(lines, k).None? <==> !AnyFromEnd(lines, (line: string) => RoutedTo(line, k))
    decreases |lines|
  {
    if lines != [] {
      LastEntryNone(lines[..|lines| - 1], k);
      LastEntryStep(lines, k);
    }
  }

  /** The entry of a line routed to tier `k` with none routed there after it
      is the last entry of that tier. */
  lemma {:induction false} LastEntryIs(lines: seq<string>, k: nat, i: nat)
    requires i < |lines| && RoutedTo(lines[i], k)
    requires !AnyFromEnd(lines[i + 1..], (line: string) => RoutedTo(line, k))
    ensures LastEntry(lines, k) == LineEntry(lines[i])
    decreases |lines|
  {
    var n := |lines| - 1;
    if i == n {
      LastEntryStep(lines, k);
    } else {
      var prefix := lines[..n];
      NoneRoutedAfterDrop(lines, k, i);
      LastEntrySkip(lines, k);
      assert prefix[i] == lines[i];
      LastEntryIs(prefix, k, i);
    }
  }

  /** No line after the `i`-th is routed to tier `k`: then the final line is
      not, and the same holds of the lines before the final one. */
  lemma NoneRoutedAfterDrop(lines: seq<string>, k: nat, i: nat)
    requires i < |lines| - 1
    requires !AnyFromEnd(lines[i + 1..], (line: string) => RoutedTo(line, k))
    ensures !RoutedTo(lines[|lines| - 1], k)
    ensures !AnyFromEnd(lines[..|lines| - 1][i + 1..], (line: string) => RoutedTo(line, k))
  {
    var after := lines[i + 1..];
    assert after[|after| - 1] == lines[|lines| - 1];
    assert after[..|after| - 1] == lines[..|lines| - 1][i + 1..];
  }

  lemma LastEntrySkip(lines: seq<string>, k: nat)
    requires lines != [] && !RoutedTo(lines[|lines| - 1], k)
    ensures LastEntry(lines, k) == LastEntry(lines[..|lines| - 1], k)
  {
    LastEntryStep(lines, k);
  }

  /** The index of the last element of `xs` that satisfies `p`. */
  function LastWhere<T>(xs: seq<T>, p: T -> bool): (i: nat)
    requires AnyFromEnd(xs, p)
    ensures i < |xs| && p(xs[i]) && !AnyFromEnd(xs[i + 1..], p)
    decreases |xs|
  {
    var n := |xs| - 1;
    if p(xs[n]) then
      assert xs[n + 1..] == [];
      n
    else
      var i := LastWhere(xs[..n], p);
      var after := xs[i + 1..];
      assert after[..|after| - 1] == xs[..n][i + 1..];
      i
  }

  /** The line is kept and routed to tier `k`. */
  predicate RoutedTo(line: string, k: nat)
  {
    LineEntry(line).Some? && LineEntry(line).value.tier == k
  }

  /** What a slot holds after the lines: its starting content when no line
      is routed to its tier, otherwise the formatted pair of the last line
      routed there. */
  predicate SlotFrom(start: Slot, last: Option<Entry>, s: Slot)
  {
    match last
    case None => s == start
    case Some(e) => Format(e.question, e.answer) == Ok(s)
  }

  /** One more line: the slot of its tier now comes from that line, every
      other slot is as before. */
  lemma {:induction false} LastEntryStep(lines: seq<string>, k: nat)
    requires lines != []
    ensures var e := LineEntry(lines[|lines| - 1]);
      LastEntry(lines, k) == if e.Some? && e.value.tier == k then e else LastEntry(lines[..|lines| - 1], k)
  {
  }

  /** Last line wins: each slot of the result holds the formatted pair of the
      last line routed to its tier, and keeps its starting content when no
      line is routed there. */
  lemma {:induction false} ParseLinesLastWins(table: seq<Slot>, lines: seq<string>, t: seq<Slot>)
    requires |table| == 5
    requires ParseLines(table, lines) == Ok(t)
    ensures |t| == 5
    ensures forall k :: 0 <= k < 5 ==> SlotFrom(table[k], LastEntry(lines, k), t[k])
    decreases |lines|
  {
    if lines != [] {
      var init := lines[..|lines| - 1];
      var last := lines[|lines| - 1];
      var prev := ParseLines(table, init).value;
      ParseLinesLastWins(table, init, prev);
      assert ApplyLine(prev, last) == Ok(t);
      forall k | 0 <= k < 5
        ensures SlotFrom(table[k], LastEntry(lines, k), t[k])
      {
        LastEntryStep(lines, k);
        if LineEntry(last).None? {
          PassedOverLineKeepsTable(prev, last);
        } else {
          KeptLineOverwritesItsTier(prev, last);
        }
      }
    }
  }

  /** A line that breaks the formatter: kept, with a clue of too few words. */
  predicate Breaks(line: string)
  {
    LineEntry(line).Some? && TooFewWords(LineEntry(line).value.question)
  }

  /** One line raises on any table exactly when it breaks the formatter. */
  lemma LineFails(table: seq<Slot>, line: string)
    requires |table| == 5
    ensures ApplyLine(table, line).Err? <==> Breaks(line)
  {
    if LineEntry(line).Some? {
      KeptLineFails(table, line);
    } else {
      PassedOverLineKeepsTable(table, line);
    }
  }

  /** Some element of `xs` satisfies `p`, stated element by element from the end. */
  predicate AnyFromEnd<T>(xs: seq<T>, p: T -> bool)
    decreases |xs|
  {
    xs != [] && (AnyFromEnd(xs[..|xs| - 1], p) || p(xs[|xs| - 1]))
  }

  lemma {:induction false} AnyFromEndExists<T>(xs: seq<T>, p: T -> bool)
    ensures AnyFromEnd(xs, p) <==> exists i :: 0 <= i < |xs| && p(xs[i])
    decreases |xs|
  {
    if xs != [] {
      var init := xs[..|xs| - 1];
      AnyFromEndExists(init, p);
      if (exists i :: 0 <= i < |init| && p(init[i])) {
        var i :| 0 <= i < |init| && p(init[i]);
        assert xs[i] == init[i];
      }
      if (exists i :: 0 <= i < |xs| && p(xs[i])) {
        var i :| 0 <= i < |xs| && p(xs[i]);
        if i < |init| { assert init[i] == xs[i]; }
      }
    }
  }

  lemma {:induction false} ParseLinesFailsOnBreak(table: seq<Slot>, lines: seq<string>)
    requires |table| == 5
    ensures ParseLines(table, lines).Err? <==> AnyFromEnd(lines, Breaks)
    decreases |lines|
  {
    if lines != [] {
      var init := lines[..|lines| - 1];
      ParseLinesFailsOnBreak(table, init);
      if ParseLines(table, init).Ok? {
        LineFails(ParseLines(table, init).value, lines[|lines| - 1]);
      }
    }
  }

  /** An attempt raises exactly when one of its kept lines has a clue with too few words. */
  lemma ParseLinesFails(table: seq<Slot>, lines: seq<string>)
    requires |table| == 5
    ensures ParseLines(table, lines).Err? <==> exists i :: 0 <= i < |lines| && Breaks(lines[i])
  {
    ParseLinesFailsOnBreak(table, lines);
    AnyFromEndExists(lines, Breaks);
  }

  /** A line the loop passes over can be inserted at the end without changing
      the outcome of the parse. */
  lemma DroppedLineChangesNothing(table: seq<Slot>, lines: seq<string>, line: string)
    requires |table| == 5
    requires LineEntry(line).None?
    ensures ParseLines(table, lines + [line]) == ParseLines(table, lines)
  {
    assert (lines + [line])[..|lines|] == lines;
  }

  /** The table of a successful parse has five slots, each the placeholder or
      a formatted pair whose response ends with a question mark and is in
      upper case; a slot is the placeholder exactly when no line is routed to it. */
  lemma ParseSlots(response: string)
    requires Parse(response).Ok?
    ensures |Parse(response).value| == 5
    ensures response != "" ==> forall k :: 0 <= k < 5 ==>
      (Parse(response).value[k] == Sentinel <==> LastEntry(Split(response, "\n"), k).None?)
    ensures forall k :: 0 <= k < 5 ==>
      var s := Parse(response).value[k];
      s == Sentinel || (EndsWith(s.response, "?") && Upper(s.response) == s.response)
  {
    var t := Parse(response).value;
    if response != "" {
      var lines := Split(response, "\n");
      ParseLinesLastWins(EmptyTable(), lines, t);
      forall k | 0 <= k < 5
        ensures t[k] == Sentinel || (EndsWith(t[k].response, "?") && Upper(t[k].response) == t[k].response)
        ensures t[k] == Sentinel <==> LastEntry(lines, k).None?
      {
        assert SlotFrom(Sentinel, LastEntry(lines, k), t[k]);
      }
    }
  }
}
