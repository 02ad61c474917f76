/**
 * Clients of `OverlayCursor` that walk through the layer's intended use on a
 * three-row, two-column result set, using only the operations' contracts.
 */
module OverlayScenarios {
  import opened JavaNumbers
  import opened OverlayCursors

  function TextCell(s: string, n: Int16): Cell {
    Cell(s, n, n, n, n as real)
  }

  /** The rows ("a", "1"), ("b", "2"), ("c", "3"). */
  function Letters(): (t: Table)
    ensures WellFormed(t) && |t.rows| == 3 && t.columnCount == 2
  {
    Table(2, [[TextCell("a", 0), TextCell("1", 1)],
              [TextCell("b", 0), TextCell("2", 2)],
              [TextCell("c", 0), TextCell("3", 3)]])
  }

  /** Before the first row, even a null value or a bad column is ignored. */
  method WriteBeforeFirstRow() {
    var cursor := new OverlayCursor(Letters(), -1, 0);
    var r := cursor.AddOverlay(7, Null);
    assert r == Ok(()) && cursor.View() == map[];
  }

  /** An overlay at row 1 is read back there, typed, and nowhere else. */
  method PatchAndMove() {
    var cursor := new OverlayCursor(Letters(), 1, 0);
    var r := cursor.AddOverlay(1, Text("99"));
    assert r == Ok(());
    assert cursor.GetString(1) == Ok("99");
    assert ToDecimal(99) == "99";
    IntegerValueOfRoundTrip(99);
    assert cursor.GetInt(1) == Ok(99);

    var moved := cursor.MoveToPosition(0);
    LookupWrite(map[], 1, 1, "99", 0, 1);
    assert cursor.GetString(1) == Ok("1");
    moved := cursor.MoveToPosition(1);
    assert cursor.GetString(1) == Ok("99");

    cursor.Close();
    assert cursor.GetString(1) == Ok("2");
  }

  /** Refused writes change nothing. */
  method RefusedWrites() {
    var cursor := new OverlayCursor(Letters(), 2, 0);
    var r := cursor.AddOverlay(0, Null);
    assert r == Err(IllegalArgument) && cursor.View() == map[];
    r := cursor.AddOverlay(2, Text("x"));
    assert r == Err(IndexOutOfBounds) && cursor.View() == map[];
  }

  /** A later write to the same cell wins. */
  method ReplaceOverlay() {
    var cursor := new OverlayCursor(Letters(), 2, 0);
    var r := cursor.AddOverlay(1, Integral(70000));
    r := cursor.AddOverlay(1, Integral(-5));
    assert ToDecimal(-5) == "-5";
    IntegerValueOfRoundTrip(-5);
    ShortValueOfRoundTrip(-5);
    assert cursor.GetInt(1) == Ok(-5);
    assert cursor.GetShort(1) == Ok(-5);
  }

  /** An overlay that is not a number fails the typed reads; they do not fall back. */
  method MalformedOverlay() {
    var cursor := new OverlayCursor(Letters(), 0, 0);
    var r := cursor.AddOverlay(0, Text("abc"));
    MalformedLead("abc");
    assert cursor.GetInt(0) == Err(NumberFormat);
    assert cursor.GetShort(0) == Err(NumberFormat);
    assert cursor.GetString(0) == Ok("abc");
  }

  /** A negative column is not refused, and its overlay shadows a cell the wrapped cursor lacks. */
  method NegativeColumn() {
    var cursor := new OverlayCursor(Letters(), 0, 0);
    var r := cursor.AddOverlay(-1, Text("neg"));
    assert r == Ok(());
    assert cursor.GetString(-1) == Ok("neg");
  }

  /** Two cursors keep separate tables: a write through one leaves the other's alone. */
  method TwoCursors() {
    var a := new OverlayCursor(Letters(), 0, 0);
    var b := new OverlayCursor(Letters(), 0, 0);
    var r := b.AddOverlay(1, Text("x"));
    ghost var seen := b.View();
    r := a.AddOverlay(1, Text("y"));
    assert b.View() == seen;
    assert b.GetString(1) == Ok("x");
  }
}
