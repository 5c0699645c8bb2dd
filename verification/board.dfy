/** The game deck the main app assembles once six categories are entered:
    the introduction slides, the board whose cells link to the clue slides,
    and one stack of clue slides per cell. Slides are numbered as the
    presentation numbers them (horizontally, from 0); only the structure and
    the links of the deck are modelled, not its markdown text. */
module GameBoard {
  import opened PyStr
  import opened Trivia
  import opened RetryLoop

  /** The welcome slide, the "categories are" slide and the board itself. */
  const NumIntroSlides: nat := 3
  /** The board has six columns; the app only offers a new game for six categories. */
  const NumCategories: nat := 6
  const NumTiers: nat := 5
  /** The main app calls the retry with its default number of attempts. */
  const DefaultTries: nat := 2

  /** A board cell: its dollar label and the slide it links to. */
  datatype Cell = Cell(value: nat, target: nat)

  datatype Slide =
    /** A title slide linking to the slide numbered `link`. */
    | Title(text: string, link: nat)
    | Board(header: seq<string>, rows: seq<seq<Cell>>)
    /** The three vertical slides of a cell at slide `index`: the category and
        value (linking down to the clue), the clue (shown for `autoslideMs`,
        linking down to the response) and the response (linking back to `back`). */
    | ClueStack(category: string, value: nat, index: nat, autoslideMs: nat,
                clue: string, response: string, back: nat)

  /** One entry of the answer file. */
  datatype AnswerEntry = AnswerEntry(category: string, value: nat, clue: string, response: string)

  datatype Game = Game(deck: seq<Slide>, answers: seq<AnswerEntry>)

  /** The dollar label of a row: 200 per row, counted from 1, times the multiplier. */
  function CellValue(row: nat, multiplier: nat): nat
  {
    (row + 1) * 200 * multiplier
  }

  /** The slide a cell links to: five per column, one per row, after the introduction. */
  function CellTarget(row: nat, column: nat, introOffset: nat): nat
  {
    column * NumTiers + row + introOffset
  }

  /** The category names as the board header and the clue slides show them. */
  function Headers(categories: seq<string>): (h: seq<string>)
    ensures |h| == |categories|
    ensures forall i :: 0 <= i < |categories| ==> h[i] == Upper(categories[i])
  {
    seq(|categories|, i requires 0 <= i < |categories| => Upper(categories[i]))
  }

  // ---------------------------------------------------------------------------
  // Introduction slides and the board

  /** The welcome slide, the "categories are" slide and one title per
      category, each linking to the next slide; `intro_offset` ends as the
      number of the first slide after the board. */
  method IntroSlides(categories: seq<string>) returns (deck: seq<Slide>, introOffset: nat)
    ensures introOffset == NumIntroSlides + |categories|
    ensures |deck| == introOffset - 1
    ensures deck[0] == Title("Welcome to Chat GeoParT!", 1)
    ensures deck[1] == Title("The categories are ... ", 2)
    ensures forall i :: 0 <= i < |categories| ==> deck[2 + i] == Title(Upper(categories[i]), NumIntroSlides + i)
    ensures forall i :: 0 <= i < |deck| ==> deck[i].Title? && deck[i].link == i + 1
  {
    deck := [Title("Welcome to Chat GeoParT!", 1)];
    introOffset := NumIntroSlides;
    deck := deck + [Title("The categories are ... ", 2)];
    for i := 0 to |categories|
      invariant introOffset == NumIntroSlides + i
      invariant |deck| == 2 + i
      invariant deck[0] == Title("Welcome to Chat GeoParT!", 1)
      invariant deck[1] == Title("The categories are ... ", 2)
      invariant forall j :: 0 <= j < i ==> deck[2 + j] == Title(Upper(categories[j]), NumIntroSlides + j)
      invariant forall j :: 0 <= j < |deck| ==> deck[j].Title? && deck[j].link == j + 1
    {
      deck := deck + [Title(Upper(categories[i]), introOffset)];
      introOffset := introOffset + 1;
    }
  }

  /** The five rows of six cells of the board. */
  method BoardRows(multiplier: nat, introOffset: nat) returns (rows: seq<seq<Cell>>)
    ensures |rows| == NumTiers
    ensures forall r :: 0 <= r < NumTiers ==> |rows[r]| == NumCategories
    ensures forall r, c :: 0 <= r < NumTiers && 0 <= c < NumCategories ==>
      rows[r][c] == Cell(CellValue(r, multiplier), CellTarget(r, c, introOffset))
  {
    rows := [];
    for rowIndex := 0 to NumTiers
      invariant |rows| == rowIndex
      invariant forall r :: 0 <= r < rowIndex ==> |rows[r]| == NumCategories
      invariant forall r, c :: 0 <= r < rowIndex && 0 <= c < NumCategories ==>
        rows[r][c] == Cell(CellValue(r, multiplier), CellTarget(r, c, introOffset))
    {
      var row := [];
      for columnIndex := 0 to NumCategories
        invariant |row| == columnIndex
        invariant forall c :: 0 <= c < columnIndex ==>
          row[c] == Cell(CellValue(rowIndex, multiplier), CellTarget(rowIndex, c, introOffset))
      {
        row := row + [Cell(CellValue(rowIndex, multiplier), CellTarget(rowIndex, columnIndex, introOffset))];
      }
      rows := rows + [row];
    }
  }

  // ---------------------------------------------------------------------------
  // Clue slides

  /** Six tables of five slots each. */
  predicate WellShaped(tables: seq<seq<Slot>>)
  {
    |tables| == NumCategories && forall c :: 0 <= c < NumCategories ==> |tables[c]| == NumTiers
  }

  /** Some slot of some table is the placeholder `[0]`. */
  predicate HasPlaceholder(tables: seq<seq<Slot>>)
    requires WellShaped(tables)
  {
    exists c, k :: 0 <= c < NumCategories && 0 <= k < NumTiers && tables[c][k].Sentinel?
  }

  function StackAt(categories: seq<string>, tables: seq<seq<Slot>>, column: nat, row: nat,
                   multiplier: nat, questionTimer: nat, introOffset: nat): Slide
    requires |categories| == NumCategories && WellShaped(tables)
    requires column < NumCategories && row < NumTiers && tables[column][row].Filled?
    requires introOffset >= 1
  {
    var s := tables[column][row];
    ClueStack(Upper(categories[column]), CellValue(row, multiplier), CellTarget(row, column, introOffset),
              questionTimer * 1000, s.clue, s.response, introOffset - 1)
  }

  function AnswerAt(categories: seq<string>, tables: seq<seq<Slot>>, column: nat, row: nat, multiplier: nat): AnswerEntry
    requires |categories| == NumCategories && WellShaped(tables)
    requires column < NumCategories && row < NumTiers && tables[column][row].Filled?
  {
    var s := tables[column][row];
    AnswerEntry(Upper(categories[column]), CellValue(row, multiplier), s.clue, s.response)
  }

  /** The clue slides and answer file of six tables, column by column. Reading
      the response of a placeholder slot (`[0][1]`) raises, so any placeholder
      makes the whole step raise. */
  function Stacks(categories: seq<string>, tables: seq<seq<Slot>>, multiplier: nat,
                  questionTimer: nat, introOffset: nat): (r: Result<(seq<Slide>, seq<AnswerEntry>)>)
    requires |categories| == NumCategories && WellShaped(tables) && introOffset >= 1
    ensures r.Err? <==> HasPlaceholder(tables)
    ensures r.Ok? ==> |r.value.0| == NumCategories * NumTiers && |r.value.1| == NumCategories * NumTiers
  {
    if HasPlaceholder(tables) then Err(IndexOutOfRange)
    else
      Ok((seq(NumCategories * NumTiers, i requires 0 <= i < NumCategories * NumTiers =>
            StackAt(categories, tables, i / NumTiers, i % NumTiers, multiplier, questionTimer, introOffset)),
          seq(NumCategories * NumTiers, i requires 0 <= i < NumCategories * NumTiers =>
            AnswerAt(categories, tables, i / NumTiers, i % NumTiers, multiplier))))
  }

  /** The nested loop that appends the three slides of every cell, column by
      column, and the answer file alongside. */
  method ClueStacks(categories: seq<string>, tables: seq<seq<Slot>>, multiplier: nat,
                    questionTimer: nat, introOffset: nat) returns (r: Result<(seq<Slide>, seq<AnswerEntry>)>)
    requires |categories| == NumCategories && WellShaped(tables) && introOffset >= 1
    ensures r == Stacks(categories, tables, multiplier, questionTimer, introOffset)
  {
    var stacks: seq<Slide> := [];
    var answers: seq<AnswerEntry> := [];
    for column := 0 to NumCategories
      invariant |stacks| == |answers| == column * NumTiers
      invariant forall c, k :: 0 <= c < column && 0 <= k < NumTiers ==> tables[c][k].Filled?
      invariant forall i :: 0 <= i < |stacks| ==>
        && i / NumTiers < column && tables[i / NumTiers][i % NumTiers].Filled?
        && stacks[i] == StackAt(categories, tables, i / NumTiers, i % NumTiers, multiplier, questionTimer, introOffset)
        && answers[i] == AnswerAt(categories, tables, i / NumTiers, i % NumTiers, multiplier)
    {
      for row := 0 to NumTiers
        invariant |stacks| == |answers| == column * NumTiers + row
        invariant forall k :: 0 <= k < row ==> tables[column][k].Filled?
        invariant forall i :: 0 <= i < |stacks| ==>
          && i / NumTiers <= column && tables[i / NumTiers][i % NumTiers].Filled?
          && stacks[i] == StackAt(categories, tables, i / NumTiers, i % NumTiers, multiplier, questionTimer, introOffset)
          && answers[i] == AnswerAt(categories, tables, i / NumTiers, i % NumTiers, multiplier)
      {
        if tables[column][row].Sentinel? {
          assert HasPlaceholder(tables);
          return Err(IndexOutOfRange);
        }
        assert (column * NumTiers + row) / NumTiers == column && (column * NumTiers + row) % NumTiers == row;
        stacks := stacks + [StackAt(categories, tables, column, row, multiplier, questionTimer, introOffset)];
        answers := answers + [AnswerAt(categories, tables, column, row, multiplier)];
      }
    }
    assert !HasPlaceholder(tables);
    var expected := Stacks(categories, tables, multiplier, questionTimer, introOffset).value;
    assert stacks == expected.0 && answers == expected.1;
    r := Ok((stacks, answers));
  }

  // ---------------------------------------------------------------------------
  // The whole game

  /** The test the main app applies to a retried table before keeping it
      (`qa_array[0][0] != 0`): only the first slot is looked at. */
  predicate FirstSlotFilled(table: seq<Slot>)
    requires |table| == NumTiers
  {
    table[0].Filled?
  }

  /** Which retried tables the category loop keeps: `FirstSlot` is the main
      app's test, `EverySlot` keeps only complete tables, the condition the
      retry itself stops on. */
  datatype Filter = FirstSlot | EverySlot

  predicate Keeps(filter: Filter, table: seq<Slot>)
    requires |table| == NumTiers
  {
    match filter
    case FirstSlot => FirstSlotFilled(table)
    case EverySlot => Complete(table)
  }

  /** The category loop: one retry per category, in order; an error raised by
      a retry ends the app; a retried table is kept when the filter admits it. */
  function KeptTables(completions: seq<seq<Option<string>>>, filter: Filter): (r: Result<seq<seq<Slot>>>)
    requires forall i :: 0 <= i < |completions| ==> |completions[i]| >= DefaultTries
    ensures r.Ok? ==> |r.value| <= |completions|
    ensures r.Ok? ==> forall c :: 0 <= c < |r.value| ==> |r.value[c]| == NumTiers && Keeps(filter, r.value[c])
    decreases |completions|
  {
    if completions == [] then Ok([])
    else
      match KeptTables(completions[..|completions| - 1], filter)
      case Err(e) => Err(e)
      case Ok(kept) =>
        match Retry(completions[|completions| - 1], DefaultTries)
        case Err(e) => Err(e)
        case Ok(t) => Ok(if Keeps(filter, t) then kept + [t] else kept)
  }

  /** A deck that plays: the introduction slides link one to the next up to
      the board; every cell of the board links to the clue slides of its
      category and value, which hold that tier's clue and response and link
      back to the board; the answer file lists the same pairs. */
  predicate Playable(categories: seq<string>, tables: seq<seq<Slot>>, game: Game, multiplier: nat)
    requires |categories| == NumCategories && WellShaped(tables)
  {
    var deck := game.deck;
    var board := NumIntroSlides + NumCategories - 1;
    && |deck| == board + 1 + NumCategories * NumTiers
    && (forall i :: 0 <= i < board ==> deck[i].Title? && deck[i].link == i + 1)
    && deck[board].Board?
    && deck[board].header == Headers(categories)
    && |deck[board].rows| == NumTiers
    && (forall r :: 0 <= r < NumTiers ==> |deck[board].rows[r]| == NumCategories)
    && (forall r, c :: 0 <= r < NumTiers && 0 <= c < NumCategories ==>
          var cell := deck[board].rows[r][c];
          && cell.value == CellValue(r, multiplier)
          && board < cell.target < |deck|
          && deck[cell.target].ClueStack?
          && deck[cell.target].category == Upper(categories[c])
          && deck[cell.target].value == cell.value
          && deck[cell.target].index == cell.target
          && tables[c][r].Filled?
          && deck[cell.target].clue == tables[c][r].clue
          && deck[cell.target].response == tables[c][r].response
          && deck[cell.target].back == board)
    && |game.answers| == NumCategories * NumTiers
    && (forall r, c :: 0 <= r < NumTiers && 0 <= c < NumCategories ==>
          && tables[c][r].Filled?
          && game.answers[c * NumTiers + r] == AnswerEntry(Upper(categories[c]), CellValue(r, multiplier),
                                                          tables[c][r].clue, tables[c][r].response))
  }

  /** The category loop of the "New Game" action: the board header grows by
      each category name, each category is retried, and its table is kept
      when the filter admits it. */
  method CollectTables(categories: seq<string>, completions: seq<seq<Option<string>>>, filter: Filter)
    returns (header: seq<string>, r: Result<seq<seq<Slot>>>)
    requires |completions| == |categories|
    requires forall i :: 0 <= i < |completions| ==> |completions[i]| >= DefaultTries
    ensures r == KeptTables(completions, filter)
    ensures r.Ok? ==> header == Headers(categories)
  {
    header := [];
    var jeopardySet: seq<seq<Slot>> := [];
    for i := 0 to |categories|
      invariant header == Headers(categories[..i])
      invariant KeptTables(completions[..i], filter) == Ok(jeopardySet)
    {
      HeadersStep(categories, i);
      header := header + [Upper(categories[i])];
      var qaArray := RetryGetJeopardyTrivia(completions[i], DefaultTries);
      KeptTablesStep(completions, filter, i, jeopardySet);
      if qaArray.Err? {
        KeptTablesErrPersists(completions, filter, i + 1);
        return header, Err(qaArray.error);
      }
      var keep: bool;
      if filter == FirstSlot {
        keep := qaArray.value[0].Filled?;
      } else {
        keep := CheckComplete(qaArray.value);
      }
      if keep {
        jeopardySet := jeopardySet + [qaArray.value];
      }
    }
    assert completions[..|categories|] == completions;
    assert categories[..|categories|] == categories;
    r := Ok(jeopardySet);
  }

  lemma HeadersStep(categories: seq<string>, i: nat)
    requires i < |categories|
    ensures Headers(categories[..i + 1]) == Headers(categories[..i]) + [Upper(categories[i])]
  {
  }

  lemma KeptTablesStep(completions: seq<seq<Option<string>>>, filter: Filter, i: nat, kept: seq<seq<Slot>>)
    requires forall j :: 0 <= j < |completions| ==> |completions[j]| >= DefaultTries
    requires i < |completions| && KeptTables(completions[..i], filter) == Ok(kept)
    ensures var a := Retry(completions[i], DefaultTries);
      KeptTables(completions[..i + 1], filter) ==
        if a.Err? then Err(a.error) else Ok(if Keeps(filter, a.value) then kept + [a.value] else kept)
  {
    assert completions[..i + 1][..i] == completions[..i];
  }

  /** Six kept tables, one of which has a placeholder slot. */
  predicate BreaksClueSlides(tables: seq<seq<Slot>>)
  {
    WellShaped(tables) && HasPlaceholder(tables)
  }

  /** What the "New Game" action builds from the kept tables: nothing (no
      game is stored) when fewer than six are kept; otherwise the deck, unless
      a kept table has a placeholder, on which the clue-slide loop raises. */
  method BuildGame(categories: seq<string>, header: seq<string>, tables: seq<seq<Slot>>,
                   multiplier: nat, questionTimer: nat)
    returns (r: Result<Option<Game>>)
    requires |categories| == NumCategories && header == Headers(categories)
    requires forall c :: 0 <= c < |tables| ==> |tables[c]| == NumTiers
    ensures r.Err? <==> BreaksClueSlides(tables)
    ensures r.Err? ==> r.error == IndexOutOfRange
    ensures r.Ok? ==> (r.value.Some? <==> |tables| == NumCategories)
    ensures r.Ok? && r.value.Some? ==> WellShaped(tables) && Playable(categories, tables, r.value.value, multiplier)
  {
    var intro, introOffset := IntroSlides(categories);
    var rows := BoardRows(multiplier, introOffset);
    if |tables| != NumCategories {
      return Ok(None);
    }
    var stacks := ClueStacks(categories, tables, multiplier, questionTimer, introOffset);
    if stacks.Err? {
      return Err(stacks.error);
    }
    var game := Game(intro + [Board(header, rows)] + stacks.value.0, stacks.value.1);
    PlayableDeck(categories, tables, intro, rows, stacks.value.0, game, multiplier, questionTimer);
    r := Ok(Some(game));
  }

  /** The "New Game" action as the main app performs it: a table is kept when
      its first slot is filled. It raises when a retry raises, and also when
      six tables are kept and one of them still has a placeholder; it stores
      no game when fewer than six are kept; otherwise the game plays. */
  method GenerateGame(categories: seq<string>, completions: seq<seq<Option<string>>>, multiplier: nat, questionTimer: nat)
    returns (r: Result<Option<Game>>)
    requires |categories| == NumCategories && |completions| == NumCategories
    requires forall i :: 0 <= i < |completions| ==> |completions[i]| >= DefaultTries
    ensures r.Err? <==>
      || KeptTables(completions, FirstSlot).Err?
      || BreaksClueSlides(KeptTables(completions, FirstSlot).value)
    ensures r.Ok? ==> (r.value.Some? <==> |KeptTables(completions, FirstSlot).value| == NumCategories)
    ensures r.Ok? && r.value.Some? ==>
      WellShaped(KeptTables(completions, FirstSlot).value)
      && Playable(categories, KeptTables(completions, FirstSlot).value, r.value.value, multiplier)
  {
    var header, kept := CollectTables(categories, completions, FirstSlot);
    if kept.Err? {
      return Err(kept.error);
    }
    r := BuildGame(categories, header, kept.value, multiplier, questionTimer);
  }

  /** The "New Game" action with only complete tables kept: it raises exactly
      when a retry raises, never at the clue slides. */
  method GenerateCompleteGame(categories: seq<string>, completions: seq<seq<Option<string>>>, multiplier: nat, questionTimer: nat)
    returns (r: Result<Option<Game>>)
    requires |categories| == NumCategories && |completions| == NumCategories
    requires forall i :: 0 <= i < |completions| ==> |completions[i]| >= DefaultTries
    ensures r.Err? <==> KeptTables(completions, EverySlot).Err?
    ensures r.Ok? ==> (r.value.Some? <==> |KeptTables(completions, EverySlot).value| == NumCategories)
    ensures r.Ok? && r.value.Some? ==>
      WellShaped(KeptTables(completions, EverySlot).value)
      && Playable(categories, KeptTables(completions, EverySlot).value, r.value.value, multiplier)
  {
    var header, kept := CollectTables(categories, completions, EverySlot);
    if kept.Err? {
      return Err(kept.error);
    }
    var tables := kept.value;
    if |tables| == NumCategories {
      CompleteTablesBuildStacks(categories, tables, multiplier, questionTimer, NumIntroSlides + NumCategories);
    }
    r := BuildGame(categories, header, tables, multiplier, questionTimer);
  }

  /** Once a retry has raised, the later categories do not matter: the
      action raises that same error. */
  lemma {:induction false} KeptTablesErrPersists(completions: seq<seq<Option<string>>>, filter: Filter, i: nat)
    requires forall j :: 0 <= j < |completions| ==> |completions[j]| >= DefaultTries
    requires i <= |completions| && KeptTables(completions[..i], filter).Err?
    ensures KeptTables(completions, filter) == KeptTables(completions[..i], filter)
    decreases |completions| - i
  {
    if i < |completions| {
      assert completions[..i + 1][..i] == completions[..i];
      KeptTablesErrPersists(completions, filter, i + 1);
    } else {
      assert completions[..i] == completions;
    }
  }

  /** The filter decides only which tables are kept: both raise on the same
      completions, and the complete-table filter keeps no more tables than
      the first-slot test. */
  lemma {:induction false} FiltersDifferOnlyInKeptTables(completions: seq<seq<Option<string>>>)
    requires forall j :: 0 <= j < |completions| ==> |completions[j]| >= DefaultTries
    ensures KeptTables(completions, FirstSlot).Err? <==> KeptTables(completions, EverySlot).Err?
    ensures KeptTables(completions, EverySlot).Ok? ==>
      |KeptTables(completions, EverySlot).value| <= |KeptTables(completions, FirstSlot).value|
    decreases |completions|
  {
    if completions != [] {
      FiltersDifferOnlyInKeptTables(completions[..|completions| - 1]);
    }
  }

  /** The tables the retries of the categories return, in category order,
      when none of them raised. */
  function RetriedTables(completions: seq<seq<Option<string>>>): (r: seq<seq<Slot>>)
    requires forall i :: 0 <= i < |completions| ==> |completions[i]| >= DefaultTries
    requires forall i :: 0 <= i < |completions| ==> Retry(completions[i], DefaultTries).Ok?
    ensures |r| == |completions|
    ensures forall i :: 0 <= i < |r| ==> r[i] == Retry(completions[i], DefaultTries).value
  {
    if completions == [] then []
    else
      RetriedTables(completions[..|completions| - 1])
      + [Retry(completions[|completions| - 1], DefaultTries).value]
  }

  /** The tables a filter admits, in their order: the reference for what the
      category loop keeps. */
  function Passing(tables: seq<seq<Slot>>, filter: Filter): (r: seq<seq<Slot>>)
    requires forall i :: 0 <= i < |tables| ==> |tables[i]| == NumTiers
    ensures |r| <= |tables|
    ensures forall k :: 0 <= k < |r| ==> r[k] in tables && |r[k]| == NumTiers && Keeps(filter, r[k])
    ensures |r| == |tables| <==> forall i :: 0 <= i < |tables| ==> Keeps(filter, tables[i])
  {
    if tables == [] then []
    else
      var rest := Passing(tables[1..], filter);
      if Keeps(filter, tables[0]) then
        [tables[0]] + rest
      else
        assert !(forall i :: 0 <= i < |tables| ==> Keeps(filter, tables[i]));
        rest
  }

  lemma {:induction false} PassingAppend(tables: seq<seq<Slot>>, t: seq<Slot>, filter: Filter)
    requires forall i :: 0 <= i < |tables| ==> |tables[i]| == NumTiers
    requires |t| == NumTiers
    ensures Passing(tables + [t], filter) == Passing(tables, filter) + (if Keeps(filter, t) then [t] else [])
    decreases |tables|
  {
    if tables == [] {
      assert [] + [t] == [t];
      assert [t][1..] == [];
    } else {
      assert (tables + [t])[1..] == tables[1..] + [t];
      PassingAppend(tables[1..], t, filter);
    }
  }

  /** When the category loop raises: exactly when some category's retry
      raises, and then with the error of the first one that does. */
  lemma {:induction false} KeptTablesRaises(completions: seq<seq<Option<string>>>, filter: Filter)
    requires forall i :: 0 <= i < |completions| ==> |completions[i]| >= DefaultTries
    ensures KeptTables(completions, filter).Err? <==>
      exists i :: 0 <= i < |completions| && Retry(completions[i], DefaultTries).Err?
    ensures KeptTables(completions, filter).Err? ==>
      exists i :: 0 <= i < |completions| && Retry(completions[i], DefaultTries).Err?
        && KeptTables(completions, filter).error == Retry(completions[i], DefaultTries).error
        && forall j :: 0 <= j < i ==> Retry(completions[j], DefaultTries).Ok?
    decreases |completions|
  {
    if completions != [] {
      var n := |completions| - 1;
      var prefix := completions[..n];
      KeptTablesRaises(prefix, filter);
      assert forall i :: 0 <= i < n ==> prefix[i] == completions[i];
      if KeptTables(prefix, filter).Err? {
        var i :| 0 <= i < n && Retry(prefix[i], DefaultTries).Err?
          && KeptTables(prefix, filter).error == Retry(prefix[i], DefaultTries).error
          && forall j :: 0 <= j < i ==> Retry(prefix[j], DefaultTries).Ok?;
        assert Retry(completions[i], DefaultTries).Err?;
      } else if Retry(completions[n], DefaultTries).Err? {
        assert forall j :: 0 <= j < n ==> Retry(completions[j], DefaultTries).Ok?;
      } else {
        forall i | 0 <= i <= n
          ensures Retry(completions[i], DefaultTries).Ok?
        {
          if i < n {
            assert Retry(prefix[i], DefaultTries).Ok?;
          }
        }
      }
    }
  }

  /** What the category loop keeps when it does not raise: the retried
      tables the filter admits, in category order. */
  lemma {:induction false} KeptTablesKeeps(completions: seq<seq<Option<string>>>, filter: Filter)
    requires forall i :: 0 <= i < |completions| ==> |completions[i]| >= DefaultTries
    requires forall i :: 0 <= i < |completions| ==> Retry(completions[i], DefaultTries).Ok?
    ensures KeptTables(completions, filter) == Ok(Passing(RetriedTables(completions), filter))
    decreases |completions|
  {
    if completions != [] {
      var n := |completions| - 1;
      var prefix := completions[..n];
      assert forall i :: 0 <= i < n ==> prefix[i] == completions[i];
      KeptTablesKeeps(prefix, filter);
      var last := Retry(completions[n], DefaultTries).value;
      var retried := RetriedTables(prefix);
      var kept := Passing(retried, filter);
      assert RetriedTables(completions) == retried + [last];
      assert KeptTables(completions, filter) == Ok(if Keeps(filter, last) then kept + [last] else kept);
      PassingAppend(retried, last, filter);
      if !Keeps(filter, last) {
        assert kept + [] == kept;
      }
    }
  }

  /** What the category loop computes: it raises exactly when some category's
      retry raises, with the error of the first one that does; otherwise it
      keeps, in category order, exactly the retried tables the filter admits,
      so it keeps one table per category exactly when every retried table
      passes. */
  lemma KeptTablesSpec(completions: seq<seq<Option<string>>>, filter: Filter)
    requires forall i :: 0 <= i < |completions| ==> |completions[i]| >= DefaultTries
    ensures KeptTables(completions, filter).Err? <==>
      exists i :: 0 <= i < |completions| && Retry(completions[i], DefaultTries).Err?
    ensures KeptTables(completions, filter).Err? ==>
      exists i :: 0 <= i < |completions| && Retry(completions[i], DefaultTries).Err?
        && KeptTables(completions, filter).error == Retry(completions[i], DefaultTries).error
        && forall j :: 0 <= j < i ==> Retry(completions[j], DefaultTries).Ok?
    ensures KeptTables(completions, filter).Ok? ==>
      KeptTables(completions, filter).value == Passing(RetriedTables(completions), filter)
    ensures KeptTables(completions, filter).Ok? ==>
      (|KeptTables(completions, filter).value| == |completions| <==>
       forall i :: 0 <= i < |completions| ==> Keeps(filter, Retry(completions[i], DefaultTries).value))
  {
    KeptTablesRaises(completions, filter);
    if KeptTables(completions, filter).Ok? {
      KeptTablesKeeps(completions, filter);
    }
  }

  /** The pieces the main app concatenates form a playable deck. */
  lemma PlayableDeck(categories: seq<string>, tables: seq<seq<Slot>>, intro: seq<Slide>, rows: seq<seq<Cell>>,
                     stacks: seq<Slide>, game: Game, multiplier: nat, questionTimer: nat)
    requires |categories| == NumCategories && WellShaped(tables) && !HasPlaceholder(tables)
    requires |intro| == NumIntroSlides + NumCategories - 1
    requires forall i :: 0 <= i < |intro| ==> intro[i].Title? && intro[i].link == i + 1
    requires |rows| == NumTiers && forall r :: 0 <= r < NumTiers ==> |rows[r]| == NumCategories
    requires forall r, c :: 0 <= r < NumTiers && 0 <= c < NumCategories ==>
      rows[r][c] == Cell(CellValue(r, multiplier), CellTarget(r, c, NumIntroSlides + NumCategories))
    requires Stacks(categories, tables, multiplier, questionTimer, NumIntroSlides + NumCategories) == Ok((stacks, game.answers))
    requires game.deck == intro + [Board(Headers(categories), rows)] + stacks
    ensures Playable(categories, tables, game, multiplier)
  {
    var off := NumIntroSlides + NumCategories;
    forall r, c | 0 <= r < NumTiers && 0 <= c < NumCategories
      ensures game.deck[CellTarget(r, c, off)] == StackAt(categories, tables, c, r, multiplier, questionTimer, off)
      ensures game.answers[c * NumTiers + r] == AnswerAt(categories, tables, c, r, multiplier)
    {
      var i := c * NumTiers + r;
      assert i / NumTiers == c && i % NumTiers == r;
      assert game.deck[CellTarget(r, c, off)] == stacks[i];
    }
  }

  // ---------------------------------------------------------------------------
  // Properties of the board arithmetic

  /** Different cells link to different slides, all after the board. */
  lemma CellTargetsAreDistinct(r1: nat, c1: nat, r2: nat, c2: nat, introOffset: nat)
    requires r1 < NumTiers && r2 < NumTiers
    ensures CellTarget(r1, c1, introOffset) >= introOffset
    ensures CellTarget(r1, c1, introOffset) == CellTarget(r2, c2, introOffset) ==> r1 == r2 && c1 == c2
  {
    if c1 < c2 {
      assert c1 * NumTiers + NumTiers <= c2 * NumTiers;
    } else if c2 < c1 {
      assert c2 * NumTiers + NumTiers <= c1 * NumTiers;
    }
  }

  /** A cell's row and column can be read back from the slide it links to. */
  lemma CellTargetInverse(row: nat, column: nat, introOffset: nat)
    requires row < NumTiers
    ensures (CellTarget(row, column, introOffset) - introOffset) / NumTiers == column
    ensures (CellTarget(row, column, introOffset) - introOffset) % NumTiers == row
  {
  }

  /** Lower rows are worth more, by 200 times the multiplier per row. */
  lemma CellValuesIncrease(r1: nat, r2: nat, multiplier: nat)
    requires r1 < r2 && multiplier >= 1
    ensures CellValue(r1, multiplier) < CellValue(r2, multiplier)
    ensures CellValue(r2, multiplier) - CellValue(r1, multiplier) == (r2 - r1) * 200 * multiplier
  {
    calc {
      CellValue(r2, multiplier) - CellValue(r1, multiplier);
      (r2 + 1) * 200 * multiplier - (r1 + 1) * 200 * multiplier;
      (r2 - r1) * (200 * multiplier);
    }
  }

  // ---------------------------------------------------------------------------
  // The check the main app applies to a retried table

  /** A completion that routes a line to the $200 tier but none to the $400
      tier parses into a table that passes the first-slot check and is not
      complete. */
  lemma FirstSlotCheckAdmitsIncompleteTable(response: string)
    requires response != "" && Parser.Parse(response).Ok?
    requires Parser.LastEntry(Split(response, "\n"), 0).Some?
    requires Parser.LastEntry(Split(response, "\n"), 1).None?
    ensures FirstSlotFilled(Parser.Parse(response).value)
    ensures !Complete(Parser.Parse(response).value)
  {
    Parser.ParseSlots(response);
  }

  /** Six tables that pass the first-slot check, one of them incomplete, make
      the clue-slide loop raise on reading the response of a placeholder. */
  lemma FirstSlotCheckLetsStacksRaise(categories: seq<string>, tables: seq<seq<Slot>>, multiplier: nat,
                                      questionTimer: nat, introOffset: nat, c: nat)
    requires |categories| == NumCategories && WellShaped(tables) && introOffset >= 1
    requires forall k :: 0 <= k < NumCategories ==> FirstSlotFilled(tables[k])
    requires c < NumCategories && !Complete(tables[c])
    ensures Stacks(categories, tables, multiplier, questionTimer, introOffset) == Err(IndexOutOfRange)
  {
    var k :| 0 <= k < |tables[c]| && !tables[c][k].Filled?;
    assert tables[c][k].Sentinel?;
  }

  /** Six complete tables never make the clue-slide loop raise. */
  lemma CompleteTablesBuildStacks(categories: seq<string>, tables: seq<seq<Slot>>, multiplier: nat,
                                  questionTimer: nat, introOffset: nat)
    requires |categories| == NumCategories && WellShaped(tables) && introOffset >= 1
    requires forall k :: 0 <= k < NumCategories ==> Complete(tables[k])
    ensures Stacks(categories, tables, multiplier, questionTimer, introOffset).Ok?
  {
  }
}
