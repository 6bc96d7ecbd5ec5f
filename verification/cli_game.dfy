/**
  The terminal game's `PokemonGridGame`: one object holding the catalog, the
  drawn categories, the answer set of every cell, the player's picks and the
  pick counts the object holds. Each operation is a function from the old state to the
  new one.
 */
module Cli {

  import opened Seqs
  import opened Dict
  import opened Catalog
  import opened Grid
  import opened Scoring

  /** A grid cell as the game keys it: `(row, col)`. */
  type Cell = (int, int)

  datatype Game = Game(
    catalog: Catalog,
    rowCategories: seq<Category>,
    colCategories: seq<Category>,
    gridAnswers: map<Cell, set<string>>,
    userPicks: Dict<Cell, string>,
    pickCounts: Counts)

  /** The answer set of `cell` is exactly the names qualifying for its row and column. */
  ghost predicate CellHolds(catalog: Catalog, rows: seq<Category>, cols: seq<Category>, answers: map<Cell, set<string>>, cell: Cell)
  {
    && cell in answers
    && 0 <= cell.0 < |rows| && 0 <= cell.1 < |cols|
    && forall n :: n in answers[cell] <==> Qualifies(catalog, rows[cell.0].criterion, cols[cell.1].criterion, n)
  }

  /** A grid has been generated: three rows, three columns, and all nine cells answered correctly. */
  ghost predicate GridReady(g: Game)
  {
    && |g.rowCategories| == 3 && |g.colCategories| == 3
    && g.gridAnswers.Keys == AllCells()
    && forall cell :: cell in g.gridAnswers ==> CellHolds(g.catalog, g.rowCategories, g.colCategories, g.gridAnswers, cell)
  }

  /**
    What every reachable state satisfies: picks and answers are keyed by grid
    cells, and every picked name has been counted at least once.
   */
  ghost predicate Consistent(g: Game)
  {
    && DistinctKeys(g.userPicks)
    && g.gridAnswers.Keys <= AllCells()
    && KeySet(g.userPicks) <= AllCells()
    && forall cell :: cell in ToMap(g.userPicks) ==> CountOf(g.pickCounts, ToMap(g.userPicks)[cell]) >= 1
  }

  /** `PokemonGridGame()`: the catalog loaded, no grid yet, nothing picked or counted. */
  function NewGame(): (g: Game)
    ensures g.catalog == CliCatalog()
    ensures g.userPicks == [] && g.pickCounts == map[]
    ensures forall row, col, name :: !IsValidAnswer(g, row, col, name)
    ensures Consistent(g)
  {
    Game(CliCatalog(), [], [], map[], [], map[])
  }

  /** The loop over `pokemon_data.items()` that collects one cell's valid names. */
  method ValidPokemon(catalog: Catalog, row: Criterion, col: Criterion) returns (valid: set<string>)
    ensures valid == AnswerSet(catalog, row, col)
  {
    valid := {};
    var i := 0;
    while i < |catalog|
      invariant 0 <= i <= |catalog|
      invariant valid == AnswerSet(catalog[..i], row, col)
    {
      var (name, pokemon) := catalog[i];
      assert catalog[..i + 1] == catalog[..i] + [catalog[i]];
      MatchingNamesSnoc(catalog[..i], catalog[i], row, col);
      if Holds(row, pokemon) && Holds(col, pokemon) {
        valid := valid + {name};
      }
      i := i + 1;
    }
    assert catalog[..i] == catalog;
  }

  /**
    The cells before `(row, col)` in row-major order hold the set `want`
    gives them, and no other cell is present.
   */
  ghost predicate CellsFilled(answers: map<Cell, set<string>>, want: Cell -> set<string>, row: int, col: int)
  {
    && (forall cell :: cell in answers <==> 0 <= cell.0 < 3 && 0 <= cell.1 < 3 && (cell.0 < row || (cell.0 == row && cell.1 < col)))
    && forall cell :: cell in answers ==> answers[cell] == want(cell)
  }

  /**
    `generate_daily_grid`: the first three drawn categories become the rows,
    the next three the columns, and every cell gets the set of qualifying
    names. Picks and counts are left as they were.
   */
  method GenerateDailyGrid(g: Game, draw: seq<nat>) returns (g': Game)
    requires IsDraw(draw, |CliRegistry()|)
    ensures GridReady(g')
    ensures forall i :: 0 <= i < 3 ==> g'.rowCategories[i] == CliRegistry()[draw[i]]
    ensures forall i :: 0 <= i < 3 ==> g'.colCategories[i] == CliRegistry()[draw[3 + i]]
    ensures Distinct(g'.rowCategories + g'.colCategories)
    ensures g'.catalog == g.catalog && g'.userPicks == g.userPicks && g'.pickCounts == g.pickCounts
    ensures Consistent(g) ==> Consistent(g')
  {
    var selection := SelectCategories(CliRegistry(), draw).value;
    var rows, cols := selection.rows, selection.cols;
    var answers := CellAnswers(g.catalog, rows, cols);
    g' := g.(rowCategories := rows, colCategories := cols, gridAnswers := answers);
  }

  /** The nested loops of `generate_daily_grid`: every cell gets the set of its qualifying names. */
  method CellAnswers(catalog: Catalog, rows: seq<Category>, cols: seq<Category>) returns (answers: map<Cell, set<string>>)
    requires |rows| == 3 && |cols| == 3
    ensures answers.Keys == AllCells()
    ensures forall cell :: cell in answers ==> CellHolds(catalog, rows, cols, answers, cell)
  {
    ghost var want := (cell: Cell) =>
      if 0 <= cell.0 < 3 && 0 <= cell.1 < 3 then AnswerSet(catalog, rows[cell.0].criterion, cols[cell.1].criterion) else {};
    answers := map[];
    var row := 0;
    while row < 3
      invariant 0 <= row <= 3
      invariant CellsFilled(answers, want, row, 0)
    {
      var col := 0;
      while col < 3
        invariant 0 <= col <= 3
        invariant CellsFilled(answers, want, row, col)
      {
        var valid := ValidPokemon(catalog, rows[row].criterion, cols[col].criterion);
        assert valid == want((row, col));
        CellsFilledStep(answers, want, row, col);
        answers := answers[(row, col) := valid];
        col := col + 1;
      }
      CellsFilledRow(answers, want, row);
      row := row + 1;
    }
    GridFromFilled(catalog, rows, cols, answers, want);
  }

  lemma CellsFilledStep(answers: map<Cell, set<string>>, want: Cell -> set<string>, row: int, col: int)
    requires 0 <= row < 3 && 0 <= col < 3
    requires CellsFilled(answers, want, row, col)
    ensures CellsFilled(answers[(row, col) := want((row, col))], want, row, col + 1)
  {
  }

  lemma CellsFilledRow(answers: map<Cell, set<string>>, want: Cell -> set<string>, row: int)
    requires 0 <= row < 3
    requires CellsFilled(answers, want, row, 3)
    ensures CellsFilled(answers, want, row + 1, 0)
  {
  }

  /** A fully filled grid of answer sets is a generated grid. */
  lemma GridFromFilled(catalog: Catalog, rows: seq<Category>, cols: seq<Category>, answers: map<Cell, set<string>>, want: Cell -> set<string>)
    requires |rows| == 3 && |cols| == 3
    requires CellsFilled(answers, want, 3, 0)
    requires forall cell: Cell :: 0 <= cell.0 < 3 && 0 <= cell.1 < 3 ==> want(cell) == AnswerSet(catalog, rows[cell.0].criterion, cols[cell.1].criterion)
    ensures answers.Keys == AllCells()
    ensures forall cell :: cell in answers ==> CellHolds(catalog, rows, cols, answers, cell)
  {
  }

  /** `is_valid_answer`: membership in the cell's set, an empty set for a cell the grid lacks. */
  function IsValidAnswer(g: Game, row: int, col: int, name: string): bool
  {
    (row, col) in g.gridAnswers && name in g.gridAnswers[(row, col)]
  }

  /** On a generated grid an answer is valid exactly when the cell exists and the name qualifies for it. */
  lemma IsValidAnswerExactly(g: Game, row: int, col: int, name: string)
    requires GridReady(g)
    ensures IsValidAnswer(g, row, col, name)
        <==> 0 <= row < 3 && 0 <= col < 3
             && Qualifies(g.catalog, g.rowCategories[row].criterion, g.colCategories[col].criterion, name)
  {
    if 0 <= row < 3 && 0 <= col < 3 {
      assert CellHolds(g.catalog, g.rowCategories, g.colCategories, g.gridAnswers, (row, col));
    }
  }

  /** In any reachable state, before or after generation, a cell outside the grid accepts nothing. */
  lemma IsValidAnswerOutsideGrid(g: Game, row: int, col: int, name: string)
    requires Consistent(g)
    requires !(0 <= row < 3 && 0 <= col < 3)
    ensures !IsValidAnswer(g, row, col, name)
    ensures !SubmitAnswer(g, row, col, name).accepted && SubmitAnswer(g, row, col, name).game == g
  {
  }

  datatype Outcome = Outcome(game: Game, accepted: bool)

  /**
    `submit_answer`: a valid answer is recorded for its cell (replacing any
    earlier pick there) and its count goes up by one; anything else
    leaves the game untouched.
   */
  function SubmitAnswer(g: Game, row: int, col: int, name: string): (r: Outcome)
    ensures r.accepted <==> IsValidAnswer(g, row, col, name)
    ensures r.accepted ==>
      && ToMap(r.game.userPicks) == ToMap(g.userPicks)[(row, col) := name]
      && r.game.pickCounts == Bump(g.pickCounts, name)
      && r.game.catalog == g.catalog
      && r.game.rowCategories == g.rowCategories && r.game.colCategories == g.colCategories
      && r.game.gridAnswers == g.gridAnswers
    ensures !r.accepted ==> r.game == g
  {
    if IsValidAnswer(g, row, col, name) then
      var picks := Put(g.userPicks, (row, col), name);
      Outcome(g.(userPicks := picks, pickCounts := Bump(g.pickCounts, name)), true)
    else
      Outcome(g, false)
  }

  /** Submitting keeps every reachable-state property. */
  lemma SubmitPreservesConsistent(g: Game, row: int, col: int, name: string)
    requires Consistent(g)
    ensures Consistent(SubmitAnswer(g, row, col, name).game)
  {
    var r := SubmitAnswer(g, row, col, name);
    if r.accepted {
      var g' := r.game;
      assert (row, col) in g.gridAnswers;
      forall cell | cell in ToMap(g'.userPicks) ensures CountOf(g'.pickCounts, ToMap(g'.userPicks)[cell]) >= 1 {
        if cell != (row, col) {
          assert ToMap(g'.userPicks)[cell] == ToMap(g.userPicks)[cell];
        }
      }
    }
  }

  /**
    The game itself does not refuse a second answer for a filled cell: it
    replaces the pick and counts the new name once more.
   */
  lemma ResubmissionOverwrites(g: Game, row: int, col: int, first: string, second: string)
    requires IsValidAnswer(g, row, col, first) && IsValidAnswer(g, row, col, second)
    ensures var once := SubmitAnswer(g, row, col, first);
            var twice := SubmitAnswer(once.game, row, col, second);
            && once.accepted && twice.accepted
            && ToMap(twice.game.userPicks) == ToMap(g.userPicks)[(row, col) := second]
            && CountOf(twice.game.pickCounts, second) == CountOf(g.pickCounts, second) + (if first == second then 2 else 1)
            && CountOf(twice.game.pickCounts, first) == CountOf(g.pickCounts, first) + (if first == second then 2 else 1)
  {
    var once := SubmitAnswer(g, row, col, first);
    assert IsValidAnswer(once.game, row, col, second);
    ResubmittedPicks(g, once.game, row, col, first, second);
    BumpTwice(g.pickCounts, first, second);
  }

  lemma ResubmittedPicks(g: Game, once: Game, row: int, col: int, first: string, second: string)
    requires IsValidAnswer(g, row, col, first) && once == SubmitAnswer(g, row, col, first).game
    requires IsValidAnswer(once, row, col, second)
    ensures ToMap(SubmitAnswer(once, row, col, second).game.userPicks) == ToMap(g.userPicks)[(row, col) := second]
  {
    var cell := (row, col);
    assert once.userPicks == Put(g.userPicks, cell, first);
    assert SubmitAnswer(once, row, col, second).game.userPicks == Put(once.userPicks, cell, second);
    PutTwice(g.userPicks, cell, first, second);
  }

  /** `calculate_rarity_score`: the step function of the name's current count. */
  function CalculateRarityScore(g: Game, name: string): (score: nat)
    ensures score == Rarity(CountOf(g.pickCounts, name))
    ensures name !in g.pickCounts ==> score == 1
  {
    RarityOf(g.pickCounts, name)
  }

  /**
    `calculate_total_score`: the rarity scores of all picks, each read from the
    current counts, summed in pick order.
   */
  method CalculateTotalScore(g: Game) returns (total: nat)
    ensures total == TotalOf(Values(g.userPicks), g.pickCounts)
    ensures Consistent(g) ==> |g.userPicks| <= 9 && 5 * |g.userPicks| <= total <= 100 * |g.userPicks|
  {
    var names := Values(g.userPicks);
    total := 0;
    var i := 0;
    while i < |names|
      invariant 0 <= i <= |names|
      invariant total == TotalOf(names[..i], g.pickCounts)
    {
      assert names[..i + 1][..i] == names[..i];
      total := total + CalculateRarityScore(g, names[i]);
      i := i + 1;
    }
    assert names[..i] == names;
    if Consistent(g) {
      PicksBounded(g);
    }
  }

  /** In a reachable state at most nine cells are filled, each worth 5 to 100 points. */
  lemma PicksBounded(g: Game)
    requires Consistent(g)
    ensures |g.userPicks| <= 9
    ensures 5 * |g.userPicks| <= TotalOf(Values(g.userPicks), g.pickCounts) <= 100 * |g.userPicks|
  {
    KeyCount(g.userPicks);
    assert |KeySet(g.userPicks)| <= |AllCells()| by {
      SubsetCardinality(KeySet(g.userPicks), AllCells());
    }
    var names := Values(g.userPicks);
    forall i | 0 <= i < |names| ensures CountOf(g.pickCounts, names[i]) >= 1 {
      assert names[i] == ToMap(g.userPicks)[g.userPicks[i].0];
    }
    TotalOfCountedBounds(names, g.pickCounts);
  }
}
