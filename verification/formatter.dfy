/** `format_qa_response`: rewrites a generated (question, answer) pair into the
    quiz-show convention, where the clue is a statement and the response is
    phrased as a question. Straight-line code in the source, so pure functions here. */
module Formatter {
  import opened PyStr
  import opened Trivia

  const WhWords: seq<string> := ["who", "what", "when", "where", "why", "which"]
  const Copulas: seq<string> := ["is", "are", "was", "were"]

  /** The words of a text: hyphens and colons removed, outer whitespace
      stripped, split on single spaces (so empty words are kept). */
  function Words(text: string): (w: seq<string>)
    ensures |w| >= 1
  {
    Split(Strip(ReplaceAll(ReplaceAll(text, "-", ""), ":", "")), " ")
  }

  /** The word, lower-cased, is one of the six WH-words. */
  predicate IsWh(word: string)
  {
    Lower(word) in WhWords
  }

  /** The word, lower-cased, is a form of "to be". */
  predicate IsCopula(word: string)
  {
    Lower(word) in Copulas
  }

  /** The clues on which `format_qa_response` indexes past the end of its word
      list: a lone WH-word, or a WH-word and a copula with nothing after them. */
  predicate TooFewWords(question: string)
  {
    var w := Words(question);
    IsWh(w[0]) && (|w| == 1 || (IsCopula(w[1]) && |w| == 2))
  }

  /** The rewritten clue and the prefix recorded for the response. */
  datatype Rewrite = Rewrite(clue: string, prefix: string)

  /** The first stage: detect a leading WH-word, optionally followed by a
      copula, take it out of the clue and remember it for the response. */
  function RewriteClue(question: string): (r: Result<Rewrite>)
    ensures r.Err? <==> TooFewWords(question)
    ensures r.Err? ==> r.error == IndexOutOfRange
  {
    var w := Words(question);
    if IsWh(w[0]) then
      if |w| < 2 then Err(IndexOutOfRange)
      else if IsCopula(w[1]) then
        if |w| < 3 then Err(IndexOutOfRange)
        else
          var clue := ReplaceFirst(ReplaceFirst(ReplaceFirst(question, w[0], ""), w[1], ""), w[2], Capitalize(w[2]));
          Ok(Rewrite(Strip(clue), Capitalize(w[0]) + " " + Lower(w[1]) + " "))
      else if Lower(w[0]) == "who" then Ok(Rewrite(ReplaceFirst(question, w[0], "This person"), "Who is "))
      else if Lower(w[0]) == "what" then Ok(Rewrite(ReplaceFirst(question, w[0], "This"), "What is "))
      else Ok(Rewrite(question, ""))
    else Ok(Rewrite(question, ""))
  }

  /** The prefix rules. For a WH-word followed by a copula, the first
      occurrence of each is removed from the clue, the first occurrence of
      the third word in what remains is replaced by its capitalised form, and
      the prefix repeats the two words; a lone "who" or "what" becomes "This person" or
      "This" with the prefix "Who is " or "What is "; any other clue is kept
      and records no prefix. */
  lemma PrefixRules(question: string)
    requires !TooFewWords(question)
    ensures var w := Words(question); var rw := RewriteClue(question).value;
      && (!IsWh(w[0]) ==> rw == Rewrite(question, ""))
      && (IsWh(w[0]) ==> |w| >= 2)
      && (IsWh(w[0]) && IsCopula(w[1]) ==>
            rw.prefix == Capitalize(w[0]) + " " + Lower(w[1]) + " "
            && rw.clue == Strip(ReplaceFirst(ReplaceFirst(ReplaceFirst(question, w[0], ""), w[1], ""), w[2], Capitalize(w[2]))))
      && (IsWh(w[0]) && !IsCopula(w[1]) && Lower(w[0]) == "who" ==>
            rw == Rewrite(ReplaceFirst(question, w[0], "This person"), "Who is "))
      && (IsWh(w[0]) && !IsCopula(w[1]) && Lower(w[0]) == "what" ==>
            rw == Rewrite(ReplaceFirst(question, w[0], "This"), "What is "))
      && (IsWh(w[0]) && !IsCopula(w[1]) && Lower(w[0]) != "who" && Lower(w[0]) != "what" ==>
            rw == Rewrite(question, ""))
  {
  }

  /** The second stage: unless the answer itself opens with a WH-word, its
      first word is lower-cased in place and the recorded prefix put in front. */
  function PrefixResponse(answer: string, prefix: string): string
  {
    var w := Words(answer);
    if IsWh(w[0]) then answer
    else prefix + Strip(ReplaceFirst(answer, w[0], Lower(w[0])))
  }

  /** The clue's final question mark handling. */
  function TrimClue(clue: string): string
  {
    var s := Strip(clue);
    if EndsWith(s, "?") then RSplitHead(s, '?') else clue
  }

  /** A clue whose stripped form ends in a question mark is stripped and
      loses that final question mark; any other clue is left exactly as it
      was, not even stripped. */
  lemma TrimClueSpec(clue: string)
    ensures EndsWith(Strip(clue), "?") ==> TrimClue(clue) == Strip(clue)[..|Strip(clue)| - 1]
    ensures !EndsWith(Strip(clue), "?") ==> TrimClue(clue) == clue
  {
    var s := Strip(clue);
    if EndsWith(s, "?") {
      assert s[|s| - 1] == '?' by { assert s[|s| - 1..] == "?"; }
    }
  }

  /** The response's final punctuation handling. */
  function CloseResponse(answer: string): (r: string)
    ensures EndsWith(r, "?")
  {
    var s := Strip(answer);
    if EndsWith(s, "?") then s
    else
      var t := if EndsWith(s, ".") then RSplitHead(s, '.') else s;
      Strip(t) + "?"
  }

  /** A response already ending in a question mark only loses its outer
      whitespace; one ending in a full stop loses that one full stop (and the
      whitespace before it) and gains a question mark; any other gets a
      question mark appended. */
  lemma CloseResponseSpec(answer: string)
    ensures EndsWith(Strip(answer), "?") ==> CloseResponse(answer) == Strip(answer)
    ensures !EndsWith(Strip(answer), "?") && EndsWith(Strip(answer), ".") ==>
      CloseResponse(answer) == Strip(Strip(answer)[..|Strip(answer)| - 1]) + "?"
    ensures !EndsWith(Strip(answer), "?") && !EndsWith(Strip(answer), ".") ==>
      CloseResponse(answer) == Strip(answer) + "?"
  {
    var s := Strip(answer);
    if EndsWith(s, ".") {
      assert s[|s| - 1] == '.' by { assert s[|s| - 1..] == "."; }
    }
    StripSpec(answer);
  }

  /** `format_qa_response` on a (question, answer) pair. It fails only on a clue with
      too few words, whatever the answer; on success the response ends with a
      question mark and is in upper case. */
  function Format(question: string, answer: string): (r: Result<Slot>)
    ensures r.Err? <==> TooFewWords(question)
    ensures r.Err? ==> r.error == IndexOutOfRange
    ensures r.Ok? ==> r.value.Filled?
    ensures r.Ok? ==> EndsWith(r.value.response, "?") && Upper(r.value.response) == r.value.response
  {
    match RewriteClue(question)
    case Err(e) => Err(e)
    case Ok(rw) =>
      var response := CloseResponse(PrefixResponse(answer, rw.prefix));
      UpperLaws(response);
      UpperEndsWithQuestionMark(response);
      Ok(Filled(TrimClue(rw.clue), Upper(response)))
  }

  lemma UpperEndsWithQuestionMark(s: string)
    requires EndsWith(s, "?")
    ensures EndsWith(Upper(s), "?")
  {
    assert s[|s| - 1] == '?' by { assert s[|s| - 1..] == "?"; }
    assert Upper(s)[|s| - 1..] == [Upper(s)[|s| - 1]];
  }

  // ---------------------------------------------------------------------------
  // Properties

  /** An answer that already opens with a WH-word gets no prefix: its response
      is only closed with a question mark and upper-cased. */
  lemma AnswerWithWhWordKeepsItsWording(question: string, answer: string)
    requires !TooFewWords(question)
    requires IsWh(Words(answer)[0])
    ensures Format(question, answer).value.response == Upper(CloseResponse(answer))
  {
  }

  lemma WhWordsAreLowerLetters(s: string)
    requires s in WhWords
    ensures forall i :: 0 <= i < |s| ==> 'a' <= s[i] <= 'z'
  {
  }

  lemma LowerIdempotent(s: string)
    ensures Lower(Lower(s)) == Lower(s)
  {
  }

  lemma CapitalizeIgnoresCase(s: string)
    ensures Capitalize(s) == Capitalize(Lower(s))
  {
    if s != [] {
      assert Lower(s)[1..] == Lower(s[1..]);
      LowerIdempotent(s[1..]);
    }
  }

  /** The copula a recorded prefix carries: the clue's own, lower-cased, or
      "is" for a lone "who" or "what". */
  function PrefixCopula(question: string): string
    requires |Words(question)| >= 2
  {
    var w := Words(question);
    if IsCopula(w[1]) then Lower(w[1]) else "is"
  }

  /** A recorded prefix always reads "<Wh-word> <copula> ", with the clue's own
      WH-word capitalised: "Who is ", "What is ", or the clue's WH-word and copula. */
  lemma {:induction false} PrefixShape(question: string)
    requires RewriteClue(question).Ok?
    requires RewriteClue(question).value.prefix != ""
    ensures IsWh(Words(question)[0]) && |Words(question)| >= 2
    ensures PrefixCopula(question) in Copulas
    ensures RewriteClue(question).value.prefix
      == Capitalize(Words(question)[0]) + " " + PrefixCopula(question) + " "
  {
    var w := Words(question);
    PrefixRules(question);
    if !IsCopula(w[1]) {
      CapitalizeIgnoresCase(w[0]);
      WhoAndWhatPrefixes();
    }
  }

  lemma WhoAndWhatPrefixes()
    ensures Capitalize("who") + " " + "is" + " " == "Who is "
    ensures Capitalize("what") + " " + "is" + " " == "What is "
  {
    assert Lower("ho") == "ho";
    assert Lower("hat") == "hat";
  }

  /** Every character is an ASCII letter. */
  predicate IsLetters(w: string)
  {
    forall i :: 0 <= i < |w| ==> ('a' <= w[i] <= 'z' || 'A' <= w[i] <= 'Z')
  }

  /** A capitalised WH-word is a non-empty run of letters. */
  lemma CapitalizedWhWordIsLetters(word: string)
    requires IsWh(word)
    ensures Capitalize(word) != [] && IsLetters(Capitalize(word))
  {
    var l := Lower(word);
    WhWordsAreLowerLetters(l);
    forall i | 0 <= i < |word|
      ensures 'a' <= word[i] <= 'z' || 'A' <= word[i] <= 'Z'
    {
      assert LowerChar(word[i]) == l[i];
    }
    var c := Capitalize(word);
    forall i | 0 <= i < |c|
      ensures 'a' <= c[i] <= 'z' || 'A' <= c[i] <= 'Z'
    {
      if i > 0 { assert c[i] == LowerChar(word[i]); }
    }
  }

  lemma LettersAreNotSpaceOrStop(w: string)
    requires w != [] && IsLetters(w)
    ensures !IsSpace(w[0]) && !IsSpace(w[|w| - 1]) && w[|w| - 1] != '.'
  {
  }

  lemma UpperKeepsPrefix(s: string, w: string)
    requires StartsWith(s, w)
    ensures StartsWith(Upper(s), Upper(w))
  {
    assert Upper(s)[..|w|] == Upper(s[..|w|]);
  }

  lemma AppendKeepsPrefix(s: string, w: string, x: string)
    requires StartsWith(s, w)
    ensures StartsWith(s + x, w)
  {
    assert (s + x)[..|w|] == s[..|w|];
  }

  /** Dropping a final full stop and stripping keeps a leading word of letters. */
  lemma DropStopKeepsWord(t: string, w: string)
    requires StartsWith(t, w) && w != [] && IsLetters(w)
    requires t != [] && t[|t| - 1] == '.'
    ensures StartsWith(Strip(t[..|t| - 1]) + "?", w)
  {
    LettersAreNotSpaceOrStop(w);
    var u := t[..|t| - 1];
    assert StartsWith(u, w) by { assert u[..|w|] == t[..|w|]; }
    StripKeepsPrefix(u, w);
    AppendKeepsPrefix(Strip(u), w, "?");
  }

  /** `CloseResponse` keeps a leading word made of letters. */
  lemma CloseResponseKeepsWord(s: string, w: string)
    requires StartsWith(s, w) && w != [] && IsLetters(w)
    ensures StartsWith(CloseResponse(s), w)
  {
    LettersAreNotSpaceOrStop(w);
    var t := Strip(s);
    StripKeepsPrefix(s, w);
    CloseResponseSpec(s);
    if EndsWith(t, "?") {
    } else if EndsWith(t, ".") {
      assert t[|t| - 1] == '.' by { assert t[|t| - 1..] == "."; }
      DropStopKeepsWord(t, w);
    } else {
      AppendKeepsPrefix(t, w, "?");
    }
  }

  /** The response `Format` returns is the upper-cased, closed, prefixed answer. */
  lemma FormatResponse(question: string, answer: string)
    requires !TooFewWords(question)
    ensures Format(question, answer).value.response
      == Upper(CloseResponse(PrefixResponse(answer, RewriteClue(question).value.prefix)))
  {
  }

  /** An answer opening with a WH-word is left exactly as it is. Any other
      answer is stripped and put after the prefix: the result opens with the
      prefix and, ignoring case, is the prefix followed by the stripped
      answer. */
  lemma PrefixResponseSpec(answer: string, prefix: string)
    ensures IsWh(Words(answer)[0]) ==> PrefixResponse(answer, prefix) == answer
    ensures !IsWh(Words(answer)[0]) ==> StartsWith(PrefixResponse(answer, prefix), prefix)
    ensures !IsWh(Words(answer)[0]) ==>
      Lower(PrefixResponse(answer, prefix)) == Lower(prefix) + Strip(Lower(answer))
  {
    var w0 := Words(answer)[0];
    if !IsWh(w0) {
      var replaced := ReplaceFirst(answer, w0, Lower(w0));
      var rest := Strip(replaced);
      assert (prefix + rest)[..|prefix|] == prefix;
      LowerAppend(prefix, rest);
      LowerStrip(replaced);
      LowerReplaceFirstLower(answer, w0);
    }
  }

  lemma StartsWithTransitive(s: string, p: string, w: string)
    requires StartsWith(s, p) && StartsWith(p, w)
    ensures StartsWith(s, w)
  {
    assert s[..|w|] == p[..|w|];
  }

  /** A recorded prefix starts with the clue's capitalised WH-word. */
  lemma PrefixStartsWithWhWord(question: string)
    requires !TooFewWords(question)
    requires RewriteClue(question).value.prefix != ""
    ensures StartsWith(RewriteClue(question).value.prefix, Capitalize(Words(question)[0]))
  {
    var cap := Capitalize(Words(question)[0]);
    PrefixShape(question);
    var c := PrefixCopula(question);
    assert StartsWith(cap, cap);
    AppendKeepsPrefix(cap, cap, " ");
    AppendKeepsPrefix(cap + " ", cap, c);
    AppendKeepsPrefix(cap + " " + c, cap, " ");
  }

  /** When a prefix is recorded and the answer does not open with a WH-word,
      the response opens with the clue's first word, upper-cased. */
  lemma {:induction false} ResponseOpensWithClueWhWord(question: string, answer: string)
    requires !TooFewWords(question)
    requires RewriteClue(question).value.prefix != ""
    requires !IsWh(Words(answer)[0])
    ensures StartsWith(Format(question, answer).value.response, Upper(Words(question)[0]))
  {
    var w0 := Words(question)[0];
    var cap := Capitalize(w0);
    var a1 := PrefixResponse(answer, RewriteClue(question).value.prefix);
    var p := RewriteClue(question).value.prefix;
    PrefixShape(question);
    CapitalizedWhWordIsLetters(w0);
    PrefixStartsWithWhWord(question);
    PrefixResponseSpec(answer, p);
    StartsWithTransitive(a1, p, cap);
    CloseResponseKeepsWord(a1, cap);
    UpperKeepsPrefix(CloseResponse(a1), cap);
    UpperLaws(w0);
    FormatResponse(question, answer);
  }
}
