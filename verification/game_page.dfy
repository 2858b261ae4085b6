/** The page-level handlers (src/pages/GamePage.jsx): entering a digit into
    the selected cell, clearing it, clearing the whole grid together with the
    validation state, and the filled-cell counter. */
module GamePage {
  import opened Wrappers
  import opened Seqs
  import opened Constants
  import opened Board
  import opened Validators
  import opened PuzzleUtils
  import opened SpiralGenerator
  import opened GameValidation
  import opened GameState

  /** The state the page holds: the game hook's state and the validation
      hook's state. */
  datatype Page = Page(game: Game, validation: Validation)

  /** The selected cell of `game` is set to `v` in the user grid and nothing
      else of the game changes. With no selection the game is unchanged. */
  function EditSelected(game: Game, v: int): (game': Game)
    requires Valid(game)
    ensures Valid(game')
    ensures game.selectedCell.None? ==> game' == game
    ensures game.selectedCell.Some? ==>
              && Get(game'.userGrid, game.selectedCell.value) == v
              && (forall d :: InBounds(d) && d != game.selectedCell.value ==>
                    Get(game'.userGrid, d) == Get(game.userGrid, d))
    ensures game'.(userGrid := game.userGrid) == game
  {
    match game.selectedCell
    case None => game
    case Some(c) => game.(userGrid := Update(game.userGrid, c, v))
  }

  /** The outcome of an edit of the selected cell to `v`: with no selection
      nothing changes; otherwise the user grid is edited, validation is rerun
      on the new grid, completion is only ever switched on, and nothing else
      changes. */
  ghost predicate EditedTo(page: Page, page': Page, v: int)
    requires Valid(page.game)
  {
    if page.game.selectedCell.None? then page' == page
    else
      var game' := EditSelected(page.game, v);
      && page'.game == game'.(isComplete := page'.game.isComplete)
      && IsValidationOf(page'.validation, game'.userGrid, game'.spirals)
      && (page'.game.isComplete <==>
            page.game.isComplete || Won(game'.userGrid, game'.solution, game'.spirals))
  }

  /** Spirals of a valid game lie inside the grid. */
  lemma ValidSpiralsInBounds(game: Game)
    requires Valid(game)
    ensures SpiralsInBounds(game.spirals)
  {
    forall s | 0 <= s < |game.spirals| ensures AllInBounds(game.spirals[s].cells) {
      assert SpiralOk(game.spirals[s], game.solution);
    }
  }

  /** Writes `v` into the selected cell and revalidates. */
  method EditAndValidate(page: Page, v: int) returns (page': Page)
    requires Valid(page.game)
    ensures Valid(page'.game)
    ensures EditedTo(page, page', v)
  {
    if page.game.selectedCell.None? {
      return page;
    }
    var game' := EditSelected(page.game, v);
    ValidSpiralsInBounds(game');
    var validation, isComplete := ValidateGrid(game'.userGrid, game'.spirals, game'.solution, game'.isComplete);
    page' := Page(game'.(isComplete := isComplete), validation);
  }

  /** `handleNumberInput`. There is no check against given cells: a given
      digit can be overwritten. */
  method HandleNumberInput(page: Page, num: int) returns (page': Page)
    requires Valid(page.game)
    ensures Valid(page'.game)
    ensures EditedTo(page, page', num)
  {
    page' := EditAndValidate(page, num);
  }

  /** `handleClear`: the selected cell becomes empty. */
  method HandleClear(page: Page) returns (page': Page)
    requires Valid(page.game)
    ensures Valid(page'.game)
    ensures EditedTo(page, page', 0)
  {
    page' := EditAndValidate(page, 0);
  }

  /** `handleClearAllWithValidation`: the game is cleared and every completed
      unit and conflict is forgotten. */
  function HandleClearAllWithValidation(page: Page): (page': Page)
    requires Valid(page.game)
    ensures Valid(page'.game)
    ensures page'.game.userGrid == page.game.puzzle && page'.game.selectedCell.None? && !page'.game.isComplete
    ensures page'.validation.conflicts == {}
    ensures page'.validation.completed == Completion([], [], [], [])
  {
    Page(HandleClearAll(page.game), ResetValidation())
  }

  /** The New Game button (the current difficulty) and the difficulty
      buttons (the chosen one): a new game replaces the old, but the
      validation state is not reset, so the previous game's conflicts and
      completed units stay on the page until the next edit. */
  method HandleNewGame(page: Page, difficultyLevel: string) returns (page': Page)
    requires DifficultyLevel(difficultyLevel).Some?
    ensures Valid(page'.game)
    ensures page'.game.userGrid == page'.game.puzzle && page'.game.selectedCell.None? && !page'.game.isComplete
    ensures page'.game.difficulty == difficultyLevel
    ensures page'.validation == page.validation
  {
    var game, attempts := GenerateNewPuzzle(difficultyLevel);
    page' := Page(game, page.validation);
  }

  /** Entering a digit and then clearing it leaves an empty cell as it was. */
  lemma ClearUndoesInput(game: Game, num: int)
    requires Valid(game)
    requires game.selectedCell.Some? && Get(game.userGrid, game.selectedCell.value) == 0
    ensures EditSelected(EditSelected(game, num), 0) == game
  {
    var c := game.selectedCell.value;
    UpdateTwice(game.userGrid, c, num, 0);
    UpdateSameValue(game.userGrid, c);
  }

  /** Only the last of two edits of the same cell counts. */
  lemma SecondEditWins(game: Game, v: int, w: int)
    requires Valid(game)
    ensures EditSelected(EditSelected(game, v), w) == EditSelected(game, w)
  {
    if game.selectedCell.Some? {
      UpdateTwice(game.userGrid, game.selectedCell.value, v, w);
    }
  }

  /** Number of non-zero entries, as `filter(cell => cell !== 0).length`. */
  function NonZeroCount(s: seq<int>): nat {
    if |s| == 0 then 0
    else NonZeroCount(s[..|s| - 1]) + (if s[|s| - 1] != 0 then 1 else 0)
  }

  /** Every entry is either zero or non-zero. */
  lemma {:induction false} NonZeroCountComplement(s: seq<int>)
    ensures NonZeroCount(s) + Count(s, 0) == |s|
  {
    if |s| > 0 {
      NonZeroCountComplement(s[..|s| - 1]);
    }
  }

  /** `filledCells`: the number of filled cells of the grid. */
  function FilledCells(g: Grid): (n: nat)
    requires IsGrid(g)
    ensures n == |NonZeroCells(g)|
    ensures n <= GridSize * GridSize
  {
    FlattenIndex(g);
    CountFlattenIsCells(g, 0);
    NonZeroCountComplement(Flatten(g));
    ZeroAndNonZeroPartition(g);
    NonZeroCount(Flatten(g))
  }
}
