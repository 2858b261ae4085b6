/** Mouse and keyboard controls (src/hooks/useGameControls.js): a click
    selects a cell; a key press enters a digit, clears the cell or moves the
    selection, and is ignored while nothing is selected. */
module GameControls {
  import opened Wrappers
  import opened Constants
  import opened Board
  import opened GameState
  import opened GamePage

  /** What a key press asks for. */
  datatype Action = Input(num: int) | ClearCell | Move(target: Cell) | Ignore

  /** JavaScript's `a < b` on strings: the first differing character
      decides, and a proper prefix is smaller. */
  predicate StringLess(a: string, b: string) {
    && |b| > 0
    && (|a| == 0 || a[0] < b[0] || (a[0] == b[0] && StringLess(a[1..], b[1..])))
  }

  predicate StringAtMost(a: string, b: string) {
    a == b || StringLess(a, b)
  }

  predicate IsDecimalDigit(ch: char) {
    '0' <= ch <= '9'
  }

  /** `parseInt` on a string that starts with a digit: the value of the
      longest run of leading digits, accumulated onto `acc`. */
  function LeadingValue(s: string, acc: int): int
    decreases |s|
  {
    if |s| > 0 && IsDecimalDigit(s[0]) then LeadingValue(s[1..], 10 * acc + (s[0] - '0') as int)
    else acc
  }

  /** The source's digit test `e.key >= '1' && e.key <= '9'`. */
  predicate DigitKey(key: string) {
    StringAtMost("1", key) && StringAtMost(key, "9")
  }

  /** The string comparison lets through exactly the keys that start with
      '1'..'8', and the key "9". */
  lemma DigitKeyIff(key: string)
    ensures DigitKey(key) <==> (|key| > 0 && '1' <= key[0] <= '8') || key == "9"
  {
    var one, nine := "1", "9";
    assert |one| == 1 && one[0] == '1' && one[1..] == "";
    assert |nine| == 1 && nine[0] == '9' && nine[1..] == "";
    if |key| > 0 {
      assert StringLess(key, nine) <==> key[0] < '9';
      if key[0] == '1' && key != one {
        assert |key| > 1;
        assert StringLess(one, key);
      }
    }
  }

  /** A leading run of digits has a value at least the accumulator's, scaled
      once per digit. */
  lemma {:induction false} LeadingValueAtLeast(s: string, acc: int)
    requires acc >= 1
    ensures LeadingValue(s, acc) >= acc
    decreases |s|
  {
    if |s| > 0 && IsDecimalDigit(s[0]) {
      LeadingValueAtLeast(s[1..], 10 * acc + (s[0] - '0') as int);
    }
  }

  function ClampDown(x: int): int { if x - 1 < 0 then 0 else x - 1 }
  function ClampUp(x: int): int { if x + 1 > 8 then 8 else x + 1 }

  /** The key dispatch of `handleKeyPress`, given the selection. */
  function KeyAction(selected: Option<Cell>, key: string): (a: Action)
    ensures selected.None? ==> a == Ignore
  {
    match selected
    case None => Ignore
    case Some(c) =>
      if DigitKey(key) then Input(LeadingValue(key, 0))
      else if key == "Backspace" || key == "Delete" || key == "0" then ClearCell
      else if key == "ArrowUp" then Move(Cell(ClampDown(c.row), c.col))
      else if key == "ArrowDown" then Move(Cell(ClampUp(c.row), c.col))
      else if key == "ArrowLeft" then Move(Cell(c.row, ClampDown(c.col)))
      else if key == "ArrowRight" then Move(Cell(c.row, ClampUp(c.col)))
      else Ignore
  }

  /** A one-character key '1'..'9' enters that digit, and every digit the
      keyboard can enter is positive. */
  lemma DigitKeysEnterTheirDigit(c: Cell, key: string)
    ensures forall n :: 1 <= n <= 9 ==> KeyAction(Some(c), [('0' as int + n) as char]) == Input(n)
    ensures KeyAction(Some(c), key).Input? ==> KeyAction(Some(c), key).num >= 1
  {
    forall n | 1 <= n <= 9 ensures KeyAction(Some(c), [('0' as int + n) as char]) == Input(n) {
      OneDigitKey(c, n);
    }
    if KeyAction(Some(c), key).Input? {
      DigitKeyValue(key);
    }
  }

  /** A key that passes the digit test has a positive leading value. */
  lemma DigitKeyValue(key: string)
    requires DigitKey(key)
    ensures LeadingValue(key, 0) >= 1
  {
    DigitKeyIff(key);
    var d := (key[0] - '0') as int;
    assert LeadingValue(key, 0) == LeadingValue(key[1..], d);
    LeadingValueAtLeast(key[1..], d);
  }

  lemma OneDigitKey(c: Cell, n: int)
    requires 1 <= n <= 9
    ensures KeyAction(Some(c), [('0' as int + n) as char]) == Input(n)
  {
    var k := [('0' as int + n) as char];
    DigitKeyIff(k);
    assert k[1..] == [] && |k| == 1;
    assert LeadingValue(k, 0) == LeadingValue(k[1..], n);
  }

  /** Backspace, Delete and '0' clear the selected cell. */
  lemma ClearKeys(c: Cell)
    ensures KeyAction(Some(c), "Backspace") == ClearCell
    ensures KeyAction(Some(c), "Delete") == ClearCell
    ensures KeyAction(Some(c), "0") == ClearCell
  {
    DigitKeyIff("Backspace");
    DigitKeyIff("Delete");
    DigitKeyIff("0");
  }

  /** An arrow key moves one step, clamped to the grid: the selection stays
      inside, up and down change only the row, left and right only the
      column, and the move is by at most one. */
  lemma ArrowsStayInGrid(c: Cell, key: string)
    requires InBounds(c)
    ensures KeyAction(Some(c), key).Move? ==>
              var t := KeyAction(Some(c), key).target;
              && InBounds(t)
              && (key == "ArrowUp" ==>
                    t.col == c.col && c.row - 1 <= t.row <= c.row && (t.row == c.row ==> c.row == 0))
              && (key == "ArrowDown" ==>
                    t.col == c.col && c.row <= t.row <= c.row + 1 && (t.row == c.row ==> c.row == 8))
              && (key == "ArrowLeft" ==>
                    t.row == c.row && c.col - 1 <= t.col <= c.col && (t.col == c.col ==> c.col == 0))
              && (key == "ArrowRight" ==>
                    t.row == c.row && c.col <= t.col <= c.col + 1 && (t.col == c.col ==> c.col == 8))
  {
    DigitKeyIff(key);
  }

  /** `handleCellClick`: the selection becomes exactly the clicked cell. */
  function HandleCellClick(game: Game, row: int, col: int): (game': Game)
    ensures game'.selectedCell == Some(Cell(row, col))
    ensures game'.(selectedCell := game.selectedCell) == game
    ensures Valid(game) && InBounds(Cell(row, col)) ==> Valid(game')
  {
    game.(selectedCell := Some(Cell(row, col)))
  }

  /** `handleKeyPress`: dispatch on the key. */
  method HandleKeyPress(page: Page, key: string) returns (page': Page)
    requires Valid(page.game)
    ensures Valid(page'.game)
    ensures page.game.selectedCell.None? ==> page' == page
    ensures match KeyAction(page.game.selectedCell, key)
            case Input(n) => EditedTo(page, page', n)
            case ClearCell => EditedTo(page, page', 0)
            case Move(t) => page' == page.(game := page.game.(selectedCell := Some(t)))
            case Ignore => page' == page
  {
    match KeyAction(page.game.selectedCell, key)
    case Input(n) =>
      page' := HandleNumberInput(page, n);
    case ClearCell =>
      page' := HandleClear(page);
    case Move(t) =>
      ArrowsStayInGrid(page.game.selectedCell.value, key);
      page' := page.(game := page.game.(selectedCell := Some(t)));
    case Ignore =>
      page' := page;
  }
}
