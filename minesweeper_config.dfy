/** Board sizes: the three presets, the custom-size dialog's validation, and the name a
    finished game is filed under on the leaderboard. */
module MinesweeperConfig {
  import opened Grid
  import opened JavaLang

  /** A board configuration: its name, its grid size and its number of mines. */
  datatype Difficulty = Difficulty(name: string, rows: int, cols: int, mines: int)

  const Beginner: Difficulty := Difficulty("Beginner", 9, 9, 10)
  const Intermediate: Difficulty := Difficulty("Intermediate", 16, 16, 40)
  const Expert: Difficulty := Difficulty("Expert", 16, 30, 99)

  /** What the custom-size dialog does with its three text fields. */
  datatype CustomOutcome =
    | Cancelled            // the dialog was closed without OK
    | NotInteger           // a field did not parse: "Enter integer values."
    | InvalidValues        // the values were refused: "Invalid values."
    | Accepted(d: Difficulty)

  /** Mine placement keeps the clipped 3x3 window around the first click free, so it can
      finish for a click at (a, b) only if the tiles outside that window can hold every
      mine. */
  predicate PlaceableAt(d: Difficulty, a: int, b: int)
  {
    d.mines <= d.rows * d.cols - WindowSize(d.rows, d.cols, a, b)
  }

  /** Every first click on the board leaves room for all the mines. */
  predicate Placeable(d: Difficulty)
  {
    forall a, b :: 0 <= a < d.rows && 0 <= b < d.cols ==> PlaceableAt(d, a, b)
  }

  /** The custom-size dialog as written: the three trimmed fields must parse as ints,
      and rows, cols and mines must be positive with mines below the (32-bit) product
      rows * cols. */
  function CustomSizeAsWritten(ok: bool, rowsText: string, colsText: string, minesText: string): (o: CustomOutcome)
    ensures o.Accepted? ==> o.d.rows > 0 && o.d.cols > 0 && o.d.mines > 0 && o.d.name == "Custom"
    ensures o.Accepted? ==> ParseInt(Trim(rowsText)) == Some(o.d.rows) && ParseInt(Trim(colsText)) == Some(o.d.cols)
                            && ParseInt(Trim(minesText)) == Some(o.d.mines)
    ensures o == NotInteger <==> ok && (ParseInt(Trim(rowsText)).None? || ParseInt(Trim(colsText)).None?
                                        || ParseInt(Trim(minesText)).None?)
    ensures o.Accepted? ==> o.d.mines < Wrap(o.d.rows * o.d.cols)
    ensures o == Cancelled <==> !ok
    ensures ok && ParseInt(Trim(rowsText)).Some? && ParseInt(Trim(colsText)).Some? && ParseInt(Trim(minesText)).Some? ==>
      var r, c, m := ParseInt(Trim(rowsText)).value, ParseInt(Trim(colsText)).value, ParseInt(Trim(minesText)).value;
      (o.Accepted? <==> r > 0 && c > 0 && m > 0 && m < Wrap(r * c))
  {
    if !ok then Cancelled
    else
      var nr, nc, nm := ParseInt(Trim(rowsText)), ParseInt(Trim(colsText)), ParseInt(Trim(minesText));
      if nr.None? || nc.None? || nm.None? then NotInteger
      else if nr.value <= 0 || nc.value <= 0 || nm.value <= 0 || nm.value >= Wrap(nr.value * nc.value) then InvalidValues
      else Accepted(Difficulty("Custom", nr.value, nc.value, nm.value))
  }

  /** The validation the game needs: besides positive sizes, the mines must fit outside
      the largest clipped window a first click can have, min(3, rows) * min(3, cols)
      tiles; the product is taken over the integers. */
  function CustomSize(ok: bool, rowsText: string, colsText: string, minesText: string): (o: CustomOutcome)
    ensures o.Accepted? ==> o.d.rows > 0 && o.d.cols > 0 && o.d.mines > 0 && o.d.name == "Custom"
    ensures o.Accepted? ==> ParseInt(Trim(rowsText)) == Some(o.d.rows) && ParseInt(Trim(colsText)) == Some(o.d.cols)
                            && ParseInt(Trim(minesText)) == Some(o.d.mines)
    ensures o == NotInteger <==> ok && (ParseInt(Trim(rowsText)).None? || ParseInt(Trim(colsText)).None?
                                        || ParseInt(Trim(minesText)).None?)
    ensures o == Cancelled <==> !ok
    ensures ok && ParseInt(Trim(rowsText)).Some? && ParseInt(Trim(colsText)).Some? && ParseInt(Trim(minesText)).Some? ==>
      var r, c, m := ParseInt(Trim(rowsText)).value, ParseInt(Trim(colsText)).value, ParseInt(Trim(minesText)).value;
      (o.Accepted? <==> r > 0 && c > 0 && m > 0 && m <= r * c - Min(3, r) * Min(3, c))
  {
    if !ok then Cancelled
    else
      var nr, nc, nm := ParseInt(Trim(rowsText)), ParseInt(Trim(colsText)), ParseInt(Trim(minesText));
      if nr.None? || nc.None? || nm.None? then NotInteger
      else if nr.value <= 0 || nc.value <= 0 || nm.value <= 0
              || nm.value > nr.value * nc.value - Min(3, nr.value) * Min(3, nc.value) then InvalidValues
      else Accepted(Difficulty("Custom", nr.value, nc.value, nm.value))
  }

  /** The largest clipped window of a non-empty grid is reached at (min(1, rows - 1),
      min(1, cols - 1)). */
  lemma FullestWindow(rows: int, cols: int)
    requires rows > 0 && cols > 0
    ensures WindowSize(rows, cols, Min(1, rows - 1), Min(1, cols - 1)) == Min(3, rows) * Min(3, cols)
  {
  }

  /** A configuration is placeable exactly when its mines fit outside the largest window. */
  lemma PlaceableIff(d: Difficulty)
    requires d.rows > 0 && d.cols > 0
    ensures Placeable(d) <==> d.mines <= d.rows * d.cols - Min(3, d.rows) * Min(3, d.cols)
  {
    if d.mines <= d.rows * d.cols - Min(3, d.rows) * Min(3, d.cols) {
      forall a, b | 0 <= a < d.rows && 0 <= b < d.cols ensures PlaceableAt(d, a, b) {
        WindowSizeBound(d.rows, d.cols, a, b);
      }
    } else {
      FullestWindow(d.rows, d.cols);
      assert !PlaceableAt(d, Min(1, d.rows - 1), Min(1, d.cols - 1));
    }
  }

  /** The corrected dialog accepts a well-formed size exactly when every first click can
      be served. */
  lemma CustomSizeAcceptsPlaceable(ok: bool, rowsText: string, colsText: string, minesText: string)
    ensures CustomSize(ok, rowsText, colsText, minesText).Accepted? ==> Placeable(CustomSize(ok, rowsText, colsText, minesText).d)
    ensures ok && ParseInt(Trim(rowsText)).Some? && ParseInt(Trim(colsText)).Some? && ParseInt(Trim(minesText)).Some? ==>
      var d := Difficulty("Custom", ParseInt(Trim(rowsText)).value, ParseInt(Trim(colsText)).value, ParseInt(Trim(minesText)).value);
      (CustomSize(ok, rowsText, colsText, minesText).Accepted? <==> d.rows > 0 && d.cols > 0 && d.mines > 0 && Placeable(d))
  {
    var o := CustomSize(ok, rowsText, colsText, minesText);
    if ok && ParseInt(Trim(rowsText)).Some? && ParseInt(Trim(colsText)).Some? && ParseInt(Trim(minesText)).Some? {
      var d := Difficulty("Custom", ParseInt(Trim(rowsText)).value, ParseInt(Trim(colsText)).value, ParseInt(Trim(minesText)).value);
      if d.rows > 0 && d.cols > 0 {
        PlaceableIff(d);
      }
    }
  }

  /** The dialog as written accepts a 3 x 3 board with one mine, yet a first click on its
      centre leaves no tile outside the window for that mine: placeMines never ends. */
  lemma CustomSizeAsWrittenAcceptsUnplaceable()
    ensures CustomSizeAsWritten(true, "3", "3", "1") == Accepted(Difficulty("Custom", 3, 3, 1))
    ensures !PlaceableAt(Difficulty("Custom", 3, 3, 1), 1, 1)
    ensures CustomSize(true, "3", "3", "1") == InvalidValues
  {
    var three, one := "3", "1";
    assert Trim(three) == three;
    assert Trim(one) == one;
    assert DigitsValue(three) == 3 by { assert three[..0] == []; }
    assert DigitsValue(one) == 1 by { assert one[..0] == []; }
  }

  /** The three presets leave room for their mines whatever the first click. */
  lemma PresetsPlaceable()
    ensures Placeable(Beginner) && Placeable(Intermediate) && Placeable(Expert)
  {
    PlaceableIff(Beginner);
    PlaceableIff(Intermediate);
    PlaceableIff(Expert);
  }

  /** getSelectedDifficultyName: the combo box's selection, or "Custom" when nothing
      (or an empty name) is selected, as after a custom size. */
  function SelectedDifficultyName(choice: Option<string>): (name: string)
    ensures name != []
    ensures choice.Some? && choice.value != [] ==> name == choice.value
    ensures (choice.None? || choice.value == []) ==> name == "Custom"
  {
    if choice.None? || choice.value == [] then "Custom" else choice.value
  }
}
