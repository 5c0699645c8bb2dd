# ChatGeoParT trivia pipeline in Dafny

ChatGeoParT builds a Jeopardy-style quiz. For each of six categories it asks a
language model for five question/answer lines, one per dollar tier ($200 to
$1000). It then parses the reply into a five-slot table, rewrites every pair
into quiz-show form (the clue as a statement, the response as an upper-case
question), retries a category whose table has gaps, and assembles a slide
deck: introduction slides, a board of 5 x 6 linked cells, and three slides
of clue and response per cell.

This project models that core in Dafny and proves properties of it:

- `pystr.dfy` (module `PyStr`): the Python `str` operations the pipeline
  relies on — `find`/`in`, `replace` (all, or the first occurrence), `split`,
  `join`, `strip`, ASCII `lower`/`upper`/`capitalize`, `rsplit(c, 1)[0]`.
- `trivia.dfy` (module `Trivia`): the five-slot table. A slot is the
  placeholder `[0]` (`Sentinel`) or a `[clue, response]` pair (`Filled`).
  Also the `Result` type, whose two errors are Python's `IndexError` and the
  `UnboundLocalError` of the model call.
- `formatter.dfy` (module `Formatter`): `format_qa_response`, straight-line
  code, modelled as pure functions.
- `parser.dfy` (module `Parser`): the parsing loop of `get_jeopardy_trivia`.
  It is a method over the lines of one completion that updates the table in
  place. It is proved equal to a left fold, `Parse`.
- `retry.dfy` (module `RetryLoop`): `retry_get_jeopardy_trivia` and its
  completeness check, as methods. The retry loop is proved equal to the
  recursive specification `Retry`, and the check to the predicate
  `Complete`.
- `board.dfy` (module `GameBoard`): the "New Game" action. It covers the
  introduction slides and `intro_offset`, the board cells with their values
  and links, the clue slides and answer file, and the category loop. The
  loop is modelled as written, keeping a table whose first slot is filled,
  and with the completeness test in its place (see Findings). A deck that
  is built is proved to be one where every link lands on the intended
  slide.

The language model is not called. The outcome of each attempt's request is
a parameter of type `Option<string>`: `Some(text)` is the completion attempt
`i` receives, and `None` is a request that raised. `query_ai` reports and
swallows that exception and then reads its never-assigned `output`, which
raises `UnboundLocalError`.

Two facts about the code shape the model:

- Neither the `IndexError` raised by `format_qa_response` nor the
  `UnboundLocalError` of `query_ai` is caught anywhere. Either one ends
  `get_jeopardy_trivia`, then the retry loop, which makes no further
  attempt, then the "New Game" action.
- On "Who is the capital of France" only the third word is capitalised. The
  clue becomes "The capital of France" and the response "WHO IS PARIS?".

## Model

All source cells refer to `ChatGeoParT_full_demo.py`.

| member | source | states |
|---|---|---|
| PyStr.Find | ChatGeoParT_full_demo.py:160-168 | `find` returns -1 or an index where the pattern occurs |
| PyStr.FindIsLeftmost | ChatGeoParT_full_demo.py:160-168 | no occurrence lies before the reported index, and none exists when -1 is reported; so the tier tests `"200" in amount` are exactly "occurs somewhere" |
| PyStr.Split | ChatGeoParT_full_demo.py:150-155 | `split` always yields at least one part |
| PyStr.SplitParts | ChatGeoParT_full_demo.py:150-155 | no part of a split contains the separator, and joining the parts with the separator gives back the string |
| PyStr.SplitJoin | ChatGeoParT_full_demo.py:150-155 | joining the parts of a split with the same separator gives back the string: no character is lost by the line and column splits |
| PyStr.ReplaceAllIsJoinOfSplit | ChatGeoParT_full_demo.py:155-159 | replacing every occurrence equals splitting on the pattern and joining with the replacement |
| PyStr.ReplaceAllDeletes | ChatGeoParT_full_demo.py:155-159 | replacing a pattern by "" never lengthens a string and adds no character; a one-character pattern is gone from the result |
| PyStr.ReplaceAllMissing | ChatGeoParT_full_demo.py:155-159 | replacing a pattern that does not occur leaves the string unchanged |
| PyStr.ReplaceFirstSpec | ChatGeoParT_full_demo.py:194-205 | `replace(p, n, 1)` swaps exactly the leftmost occurrence of `p` for `n` and keeps everything before and after it |
| PyStr.ReplaceFirstMissing | ChatGeoParT_full_demo.py:194-205 | `replace(p, n, 1)` with no occurrence of `p` leaves the string unchanged |
| PyStr.LStrip | ChatGeoParT_full_demo.py:158-159 | the result is a suffix that starts with a non-space, and everything removed is whitespace |
| PyStr.RStrip | ChatGeoParT_full_demo.py:158-159 | the result is a prefix that ends with a non-space, and everything removed is whitespace |
| PyStr.StripSpec | ChatGeoParT_full_demo.py:194 | a stripped string has no whitespace at either end, and stripping twice equals stripping once |
| PyStr.StripKeepsPrefix | ChatGeoParT_full_demo.py:205-212 | stripping keeps a leading word whose first and last characters are not whitespace |
| PyStr.LastIndexOf | ChatGeoParT_full_demo.py:207 | the index of the last occurrence of a character: that index holds it, no later index does, -1 when absent |
| PyStr.RSplitHead | ChatGeoParT_full_demo.py:207-211 | `rsplit(c, 1)[0]` drops a final `c`, and leaves a string without `c` unchanged |
| PyStr.CaseMappingSpec | ChatGeoParT_full_demo.py:193-214 | `lower`, `upper` and `capitalize` keep the length; `lower` leaves no capital and changes a character only from A-Z to its small letter, `upper` the reverse; `capitalize` leaves no small first letter and no capital after it, and agrees with `lower` up to case |
| PyStr.UpperLaws | ChatGeoParT_full_demo.py:195-214 | `upper` is idempotent and ignores an earlier `lower` or `capitalize` |
| PyStr.LowerStrip | ChatGeoParT_full_demo.py:205 | lower-casing and stripping commute |
| PyStr.LowerReplaceFirstLower | ChatGeoParT_full_demo.py:205 | replacing a word by its lower-case form changes nothing up to case |
| Trivia.EmptyTable | ChatGeoParT_full_demo.py:148 | the starting table has five slots, all placeholders |
| Formatter.Words | ChatGeoParT_full_demo.py:191 | the word list of a clue or answer is never empty, so the first-word tests cannot raise |
| Formatter.RewriteClue | ChatGeoParT_full_demo.py:191-202 | the clue rewrite raises exactly on a lone WH-word, or a WH-word and a copula with nothing after them |
| Formatter.PrefixRules | ChatGeoParT_full_demo.py:193-202 | WH-word + copula (the clue has too few words, `TooFewWords`, when nothing follows them): the first occurrence of the WH-word and then the first occurrence of the copula are removed from the clue, wherever they occur, the first occurrence of the third word in what remains is replaced by its capitalised form (an earlier occurrence of its text, even inside another word, is the one replaced: "Wh-o is o" becomes "Wh-O  o"), and the prefix is the capitalised WH-word, the lower-cased copula and spaces; a lone "who"/"what" becomes "This person"/"This" with prefix "Who is "/"What is "; anything else keeps the clue and records no prefix |
| Formatter.PrefixShape | ChatGeoParT_full_demo.py:193-202 | every non-empty prefix reads "<capitalised WH-word> <copula> ", with a copula from is/are/was/were |
| Formatter.PrefixStartsWithWhWord | ChatGeoParT_full_demo.py:193-202 | a recorded prefix opens with the clue's capitalised WH-word |
| Formatter.TrimClueSpec | ChatGeoParT_full_demo.py:206-207 | a clue whose stripped form ends in "?" becomes that stripped form minus the "?"; any other clue is untouched, not even stripped |
| Formatter.CloseResponse | ChatGeoParT_full_demo.py:208-212 | the closed response always ends with "?" |
| Formatter.CloseResponseSpec | ChatGeoParT_full_demo.py:208-212 | the answer is stripped first; one then ending in "?" is left at that (no "." dropped, no "?" added); one ending in "." loses that one full stop and the whitespace before it, then gets "?" appended ("Paris ." becomes "Paris?"); any other gets "?" appended |
| Formatter.CloseResponseKeepsWord | ChatGeoParT_full_demo.py:208-212 | closing keeps a leading word made of letters |
| Formatter.PrefixResponseSpec | ChatGeoParT_full_demo.py:203-205 | an answer that opens with a WH-word is kept as it is; any other answer is stripped and put after the prefix: the result opens with the prefix and equals, up to case, the prefix followed by the stripped answer (the in-place lower-casing of the answer's first word is not visible after the final upper-casing) |
| Formatter.AnswerWithWhWordKeepsItsWording | ChatGeoParT_full_demo.py:203-214 | an answer that opens with a WH-word gets no prefix and keeps its first word's case: it is only closed and upper-cased |
| Formatter.Format | ChatGeoParT_full_demo.py:186-214 | `format_qa_response` raises exactly when the clue has too few words, whatever the answer; otherwise it returns a pair whose response ends with "?" and is its own upper-casing |
| Formatter.UpperEndsWithQuestionMark | ChatGeoParT_full_demo.py:214 | upper-casing keeps the final "?" |
| Formatter.ResponseOpensWithClueWhWord | ChatGeoParT_full_demo.py:193-214 | when a prefix is recorded and the answer does not open with a WH-word, the response opens with the clue's first word, upper-cased |
| Parser.TierOf | ChatGeoParT_full_demo.py:157-169 | tier routing is first-match in the order 200, 400, 600, 800, 1000 (so "1200" goes to the $200 tier), and an amount containing none of them routes nowhere |
| Parser.LineEntry | ChatGeoParT_full_demo.py:152-159 | a kept line is routed to one of the five tiers |
| Parser.StripLabels | ChatGeoParT_full_demo.py:155 | removing the "Question:", "question:", "q:" and "Q:" labels never lengthens the text and adds no character; text without ":" is unchanged |
| Parser.Amount | ChatGeoParT_full_demo.py:157 | the amount keeps no "$" and no "-", and adds no character |
| Parser.DropAnswerWord | ChatGeoParT_full_demo.py:158-159 | removing "answer" and "Answer" never lengthens the text and adds no character; text without either word is unchanged |
| Parser.PassedOverLines | ChatGeoParT_full_demo.py:152-169 | a line is passed over (it is not a candidate, `IsCandidate`) when it starts with neither "$" nor "-", when it does not split on "|" into exactly two parts, when its label-stripped second part does not split on ":" into exactly two parts, or when its amount names no tier |
| Parser.ApplyLine | ChatGeoParT_full_demo.py:152-169 | one loop iteration keeps a five-slot table five slots long |
| Parser.PassedOverLineKeepsTable | ChatGeoParT_full_demo.py:152-169 | a passed-over line changes no slot |
| Parser.KeptLineFails | ChatGeoParT_full_demo.py:160-169 | a kept line raises exactly when its clue has too few words |
| Parser.KeptLineOverwritesItsTier | ChatGeoParT_full_demo.py:160-169 | a kept line overwrites the slot of its tier with the formatted pair, and no other slot |
| Parser.ParseLines | ChatGeoParT_full_demo.py:151-169 | the loop over any lines keeps the table five slots long |
| Parser.Parse | ChatGeoParT_full_demo.py:148-171 | the parse of a completion has five slots, and an empty completion gives five placeholders |
| Parser.ErrPersists | ChatGeoParT_full_demo.py:151-169 | once a line has raised, later lines cannot undo it |
| Parser.Attempt | ChatGeoParT_full_demo.py:97-146 | one call of `get_jeopardy_trivia` raises `UnboundLocalError` exactly when its request raised; otherwise it is the parse of the completion, five slots when it succeeds |
| Parser.GetJeopardyTrivia | ChatGeoParT_full_demo.py:145-171 | a request that raised ends the call with `UnboundLocalError`; otherwise the in-place loop of `get_jeopardy_trivia` returns exactly `Parse` of the completion |
| Parser.LastEntry | ChatGeoParT_full_demo.py:160-169 | reference definition of the entry of the last line routed to tier k, or `None` when no line is routed there; an entry it gives has tier k |
| Parser.LastEntrySpec | ChatGeoParT_full_demo.py:151-169 | `LastEntry` is `None` exactly when no line is routed to tier k, and otherwise it is the entry of a line routed to tier k after which no line is routed there |
| Parser.ParseLinesLastWins | ChatGeoParT_full_demo.py:151-169 | last line wins: each slot holds the formatted pair of the last line routed to its tier, or its starting content when no line is routed there |
| Parser.LineFails | ChatGeoParT_full_demo.py:152-169 | one line raises on any table exactly when it is kept and its clue has too few words |
| Parser.ParseLinesFailsOnBreak | ChatGeoParT_full_demo.py:151-169 | the loop raises exactly when some line, counted from the end, breaks the formatter |
| Parser.ParseLinesFails | ChatGeoParT_full_demo.py:151-169 | a completion's parse raises exactly when one of its kept lines has a clue with too few words (`TooFewWords`); this `IndexError` is the parse's only failure |
| Parser.DroppedLineChangesNothing | ChatGeoParT_full_demo.py:152-156 | a passed-over line can be added at the end without changing the outcome |
| Parser.ParseSlots | ChatGeoParT_full_demo.py:148-171 | a successful parse has five slots; a slot is the placeholder exactly when no line was routed to its tier; every filled slot's response ends with "?" and is in upper case |
| RetryLoop.CheckComplete | ChatGeoParT_full_demo.py:178-181 | the check flag ends true exactly when no slot is the placeholder (`Complete`) |
| RetryLoop.RetryFrom | ChatGeoParT_full_demo.py:175-184 | with no attempt left the last table is returned, and a five-slot table stays five slots |
| RetryLoop.Retry | ChatGeoParT_full_demo.py:173-184 | zero tries return the five placeholders, and every returned table has five slots |
| RetryLoop.RetryGetJeopardyTrivia | ChatGeoParT_full_demo.py:173-184 | the retry loop returns exactly `Retry` of its completions |
| RetryLoop.FirstDecisiveAttemptWins | ChatGeoParT_full_demo.py:175-183 | the first attempt that raises (in its request or in its parse) or yields a complete table decides the outcome: its error or its table; no later attempt is made |
| RetryLoop.AllIncompleteGivesLastTable | ChatGeoParT_full_demo.py:175-184 | when every attempt yields an incomplete table, the last attempt's table is returned, incomplete |
| RetryLoop.RetryOutcome | ChatGeoParT_full_demo.py:173-184 | a successful outcome is a complete table, or the last attempt's table, or the starting placeholders when there was no attempt; an error comes only from an attempt that raised, in its request or in its parse |
| GameBoard.Headers | ChatGeoParT_full_demo.py:279 | the board header lists every category upper-cased, in order |
| GameBoard.IntroSlides | ChatGeoParT_full_demo.py:220-271 | the welcome slide, the "categories are" slide and one title per category each link to the next slide; the titles are the upper-cased categories; `intro_offset` ends as 3 plus the number of categories |
| GameBoard.BoardRows | ChatGeoParT_full_demo.py:292-295 | the board has five rows of six cells; cell (row, column) shows (row+1)·200·multiplier and links to slide column·5 + row + intro_offset |
| GameBoard.Stacks | ChatGeoParT_full_demo.py:297-307 | the clue slides raise exactly when some slot of the six tables is a placeholder; otherwise there are 30 stacks and 30 answer-file entries |
| GameBoard.ClueStacks | ChatGeoParT_full_demo.py:299-307 | the nested column-by-column loop produces exactly `Stacks` |
| GameBoard.KeptTables | ChatGeoParT_full_demo.py:278-283 | the category loop keeps at most one table per category, each five slots and passing the filter: its first slot filled (`FirstSlotFilled`, the test at :282) or, for the corrected loop, complete |
| GameBoard.Passing | ChatGeoParT_full_demo.py:281-283 | reference filter: the tables a filter admits, in their order, each one of the given tables; it keeps them all exactly when every table passes |
| GameBoard.KeptTablesSpec | ChatGeoParT_full_demo.py:278-283 | the category loop raises exactly when some category's retry raises, with the error of the first one that does; otherwise it keeps exactly the retried tables that pass the filter, in category order, so it keeps one per category exactly when every retried table passes |
| GameBoard.KeptTablesErrPersists | ChatGeoParT_full_demo.py:278-283 | once a category's retry has raised, the later categories do not matter: the loop raises that same error |
| GameBoard.CollectTables | ChatGeoParT_full_demo.py:278-283 | the category loop, with either filter, returns exactly `KeptTables`, with the header of all categories |
| GameBoard.FiltersDifferOnlyInKeptTables | ChatGeoParT_full_demo.py:278-283 | the first-slot test and the completeness test raise on the same completions, and the completeness test never keeps more tables |
| GameBoard.BuildGame | ChatGeoParT_full_demo.py:291-307 | building the deck from the kept tables raises `IndexError` exactly when six tables are kept and one of them holds a placeholder; it builds a deck exactly when six tables are kept, and that deck is `Playable` |
| GameBoard.GenerateGame | ChatGeoParT_full_demo.py:264-307 | "New Game" as written (first-slot test at :282) raises exactly when the category loop raises, which by `KeptTablesSpec` is when some retry raises, or when six tables are kept and one is incomplete; otherwise it builds a game exactly when all six tables are kept, and that deck is `Playable` |
| GameBoard.GenerateCompleteGame | ChatGeoParT_full_demo.py:264-307 | "New Game" with the completeness test in place of :282 raises exactly when the category loop raises, which by `KeptTablesSpec` is when some retry raises; it builds a game exactly when six tables are kept, which by `KeptTablesSpec` is when every category's retried table is complete; that deck is `Playable` |
| GameBoard.PlayableDeck | ChatGeoParT_full_demo.py:267-307 | the pieces, concatenated, form a deck where the intro slides chain up to the board, and every cell links to the stack of its own category and value. That stack holds that tier's clue and response and links back to the board. The answer file lists the same pairs |
| GameBoard.CellTargetsAreDistinct | ChatGeoParT_full_demo.py:295 | different cells link to different slides, all at or after `intro_offset` |
| GameBoard.CellTargetInverse | ChatGeoParT_full_demo.py:295 | a cell's row and column can be read back from its link target |
| GameBoard.CellValuesIncrease | ChatGeoParT_full_demo.py:295 | lower rows are worth more, by 200 times the multiplier per row |
| GameBoard.FirstSlotCheckAdmitsIncompleteTable | ChatGeoParT_full_demo.py:282 | a completion with a $200 line and no $400 line parses into a table that passes the first-slot check and is not complete |
| GameBoard.FirstSlotCheckLetsStacksRaise | ChatGeoParT_full_demo.py:282-304 | six tables that pass the first-slot check, one of them incomplete, make the clue-slide loop raise |
| GameBoard.CompleteTablesBuildStacks | ChatGeoParT_full_demo.py:297-307 | six complete tables never make the clue-slide loop raise |

## Left out

- The request inside `query_ai`, its prompt, the global message history and
  the printed error report are network and console I/O. Each attempt's
  outcome is a parameter: a completion, or `None` for a request that raised.
  The "Error: No response from AI." reply to an empty completion is a
  completion like any other.
- Token counting with tiktoken and the token and cost metrics are foreign
  calls and floating-point display.
- The pause before each request and the timing message are wall-clock glue.
- The Streamlit interface is not modelled: the sidebar, the session state,
  the tag input, the expander, the code editor and the slide widget. The
  "New Game" button's guard is kept as the precondition of exactly six
  categories.
- The markdown text of the deck is not modelled: transitions, background
  image, separators, the answer-file text layout, and the CSS and
  JavaScript. The deck is modelled as structured slides with their text
  fields and links.
- The zip download and the file reads and writes are I/O.
- The new-game key from `uuid` is randomness.
- ChatGeoParT.py is not part of this model. It is the game viewer: directory
  listing, file I/O and widget calls.
- PyStr.Lower: case mapping covers ASCII letters only. Python also maps
  other Unicode letters (and expands some, such as "ß" to "SS" in `upper`).
- PyStr.Split: `split` and `replace` require a non-empty separator or
  pattern. Python raises `ValueError` for an empty `split` separator, and the
  core only ever passes fixed non-empty ones.

## Findings

| source | as written | input that shows it | evidently intended | confidence | as-written member | corrected member |
|---|---|---|---|---|---|---|
| ChatGeoParT_full_demo.py:282 | a category's table is kept when its first slot is filled; the other four slots are not looked at, so an incomplete table is kept, and the clue-slide loop at :304 then reads the response of a placeholder `[0]` and raises `IndexError` | six categories, one of whose completions on both attempts holds a $200 line such as "$200 \| Capital of France : Paris" and no $400 line, the other five complete | keep a category's table only when every slot is filled, as the retry's own check does, so the board is built only from complete tables | not executed | GameBoard.GenerateGame | GameBoard.GenerateCompleteGame |
