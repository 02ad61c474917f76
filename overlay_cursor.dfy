/**
 * A cursor wrapper that lets a caller patch single cells, addressed by the
 * wrapped cursor's current position and a column index, without touching the
 * wrapped result set. Reads consult the patch table first and fall back to
 * the wrapped cursor.
 *
 * The wrapped cursor is an immutable table of typed cells plus a position.
 * Java exceptions become `Err` results of the operation that throws them.
 */
module OverlayCursors {
  import opened JavaNumbers

  /** The exceptions the layer raises or lets through. */
  datatype Error =
    | IllegalArgument          // a null overlay value
    | IndexOutOfBounds         // an overlay column at or past the column count
    | NumberFormat             // an overlay that does not parse as the requested type
    | CursorIndexOutOfBounds   // a read of the wrapped cursor outside its rows or columns

  datatype Result<T> = Ok(value: T) | Err(error: Error)

  /** What a caller may hand to `addOverlay`: Java's null, a string, or a boxed Short, Integer or Long. */
  datatype Value = Null | Text(s: string) | Integral(n: Int64)

  /** `value.toString()` for a non-null value. */
  function ToText(v: Value): (r: string)
    requires !v.Null?
    ensures v.Text? ==> r == v.s
    ensures v.Integral? ==> ParseDecimal(r) == Some(v.n as int)
  {
    match v
    case Text(s) => s
    case Integral(n) => DecimalRoundTrip(n); ToDecimal(n)
  }

  // ---------------------------------------------------------------------------
  // The wrapped cursor
  // ---------------------------------------------------------------------------

  /** One cell as the wrapped cursor's typed getters see it. */
  datatype Cell = Cell(text: string, asShort: Int16, asInt: Int32, asLong: Int64, asFloat: real)

  /** The wrapped result set: a column count and rows of cells. */
  datatype Table = Table(columnCount: nat, rows: seq<seq<Cell>>)

  ghost predicate WellFormed(t: Table) {
    forall r :: 0 <= r < |t.rows| ==> |t.rows[r]| == t.columnCount
  }

  predicate InTable(t: Table, pos: int, col: int) {
    0 <= pos < |t.rows| && 0 <= col < |t.rows[pos]|
  }

  function WrappedString(t: Table, pos: int, col: int): Result<string> {
    if InTable(t, pos, col) then Ok(t.rows[pos][col].text) else Err(CursorIndexOutOfBounds)
  }

  function WrappedShort(t: Table, pos: int, col: int): Result<Int16> {
    if InTable(t, pos, col) then Ok(t.rows[pos][col].asShort) else Err(CursorIndexOutOfBounds)
  }

  function WrappedInt(t: Table, pos: int, col: int): Result<Int32> {
    if InTable(t, pos, col) then Ok(t.rows[pos][col].asInt) else Err(CursorIndexOutOfBounds)
  }

  function WrappedLong(t: Table, pos: int, col: int): Result<Int64> {
    if InTable(t, pos, col) then Ok(t.rows[pos][col].asLong) else Err(CursorIndexOutOfBounds)
  }

  function WrappedFloat(t: Table, pos: int, col: int): Result<real> {
    if InTable(t, pos, col) then Ok(t.rows[pos][col].asFloat) else Err(CursorIndexOutOfBounds)
  }

  /** A failed parse of an overlay is a NumberFormatException; it never falls back to the wrapped cell. */
  function Parsed<T>(o: Option<T>): (r: Result<T>)
    ensures r.Err? <==> o.None?
    ensures r.Err? ==> r.error == NumberFormat
    ensures r.Ok? ==> r.value == o.value
  {
    match o
    case Some(v) => Ok(v)
    case None => Err(NumberFormat)
  }

  // ---------------------------------------------------------------------------
  // The overlay table as a value: position -> column -> string
  // ---------------------------------------------------------------------------

  type OverlayTable = map<int, map<int, string>>

  /** The overlay string at (position, column), if there is one. */
  function Lookup(t: OverlayTable, pos: int, col: int): (r: Option<string>)
    ensures pos !in t ==> r == None
    ensures r.Some? ==> pos in t && col in t[pos] && t[pos][col] == r.value
    ensures pos in t && col in t[pos] ==> r.Some?
  {
    if pos in t && col in t[pos] then Some(t[pos][col]) else None
  }

  /** Set or replace the overlay at (position, column), creating the row's record on its first write. */
  function Write(t: OverlayTable, pos: int, col: int, s: string): (r: OverlayTable)
    ensures Lookup(r, pos, col) == Some(s)
  {
    var row := if pos in t then t[pos] else map[];
    t[pos := row[col := s]]
  }

  /** A write is read back at its own cell and changes no other cell. */
  lemma LookupWrite(t: OverlayTable, pos: int, col: int, s: string, p: int, c: int)
    ensures Lookup(Write(t, pos, col, s), p, c) == if p == pos && c == col then Some(s) else Lookup(t, p, c)
  {
  }

  /** Writing the same cell twice keeps only the second value. */
  lemma WriteReplaces(t: OverlayTable, pos: int, col: int, s1: string, s2: string)
    ensures Write(Write(t, pos, col, s1), pos, col, s2) == Write(t, pos, col, s2)
  {
    var row := if pos in t then t[pos] else map[];
    assert row[col := s1][col := s2] == row[col := s2];
  }

  /** Writes to different cells commute. */
  lemma WriteCommutes(t: OverlayTable, pos1: int, col1: int, s1: string, pos2: int, col2: int, s2: string)
    requires pos1 != pos2 || col1 != col2
    ensures Write(Write(t, pos1, col1, s1), pos2, col2, s2) == Write(Write(t, pos2, col2, s2), pos1, col1, s1)
  {
    var row1 := if pos1 in t then t[pos1] else map[];
    var row2 := if pos2 in t then t[pos2] else map[];
    if pos1 == pos2 {
      assert row1[col1 := s1][col2 := s2] == row1[col2 := s2][col1 := s1];
    } else {
      var a := t[pos1 := row1[col1 := s1]][pos2 := row2[col2 := s2]];
      var b := t[pos2 := row2[col2 := s2]][pos1 := row1[col1 := s1]];
      assert Write(Write(t, pos1, col1, s1), pos2, col2, s2) == a;
      assert Write(Write(t, pos2, col2, s2), pos1, col1, s1) == b;
      assert a == b;
    }
  }

  /** A write is the put into the row's record once that record has been found or created. */
  lemma WriteThroughRecord(t: OverlayTable, found: OverlayTable, pos: int, col: int, s: string)
    requires found == t[pos := if pos in t then t[pos] else map[]]
    ensures Write(t, pos, col, s) == found[pos := found[pos][col := s]]
  {
  }

  /**
   * A position gets one record, created by its first write; a column gets one
   * entry, created by its first write. Rewriting a cell grows neither count.
   */
  lemma WriteCounts(t: OverlayTable, pos: int, col: int, s: string)
    ensures |Write(t, pos, col, s)| == |t| + (if pos in t then 0 else 1)
    ensures |Write(t, pos, col, s)[pos]| == (if pos in t then |t[pos]| else 0) + (if Lookup(t, pos, col).Some? then 0 else 1)
  {
  }

  // ---------------------------------------------------------------------------
  // Overlays: the column overlays of one row
  // ---------------------------------------------------------------------------

  class Overlays {
    var columnOverlays: map<int, string>

    constructor ()
      ensures columnOverlays == map[]
    {
      columnOverlays := map[];
    }

    /** Set or replace the overlay of one column. */
    method Add(column: int, value: string)
      modifies this
      ensures columnOverlays == old(columnOverlays)[column := value]
      ensures NumberOfOverlays() == old(NumberOfOverlays()) + (if old(HasOverlay(column)) then 0 else 1)
    {
      columnOverlays := columnOverlays[column := value];
    }

    function HasOverlay(column: int): (r: bool)
      reads this
      ensures r <==> GetOverlay(column).Some?
    {
      column in columnOverlays
    }

    /** The stored string, or `None` where Java returns null. */
    function GetOverlay(column: int): (r: Option<string>)
      reads this
      ensures r.Some? <==> column in columnOverlays
      ensures r.Some? ==> r.value == columnOverlays[column]
    {
      if column in columnOverlays then Some(columnOverlays[column]) else None
    }

    function NumberOfOverlays(): (r: nat)
      reads this
      ensures r == |columnOverlays.Keys|
      ensures r == 0 <==> columnOverlays == map[]
    {
      |columnOverlays|
    }
  }

  // ---------------------------------------------------------------------------
  // OverlayCursor
  // ---------------------------------------------------------------------------

  class OverlayCursor {
    /** The wrapped cursor's rows; the layer never changes them. */
    const wrapped: Table
    /** Recorded at construction and not otherwise used. */
    const keyColumn: int
    /** The wrapped cursor's position: -1 before the first row, the row count after the last. */
    var position: int
    /** Position -> the Overlays record of that row. */
    var positionOverlays: map<int, Overlays>
    /** The objects this cursor's overlays live in: itself and its row records. */
    ghost var Repr: set<object>

    ghost predicate Valid()
      reads this
    {
      && this in Repr
      && positionOverlays.Values <= Repr
      && WellFormed(wrapped)
      && -1 <= position <= |wrapped.rows|
      && (forall p, q :: p in positionOverlays && q in positionOverlays && p != q ==>
            positionOverlays[p] != positionOverlays[q])
    }

    /** The overlay table as a value. */
    ghost function View(): OverlayTable
      reads this, positionOverlays.Values
    {
      map p | p in positionOverlays :: positionOverlays[p].columnOverlays
    }

    constructor (parent: Table, parentPosition: int, keyColumn: int)
      requires WellFormed(parent) && -1 <= parentPosition <= |parent.rows|
      ensures Valid()
      ensures wrapped == parent && position == parentPosition && this.keyColumn == keyColumn
      ensures positionOverlays == map[] && fresh(Repr)
    {
      wrapped := parent;
      position := parentPosition;
      this.keyColumn := keyColumn;
      positionOverlays := map[];
      Repr := {this};
    }

    /**
     * The wrapped cursor's absolute positioning: past the end parks after the
     * last row, a negative target parks before the first. Overlays stay put.
     */
    method MoveToPosition(target: int) returns (moved: bool)
      requires Valid()
      modifies this
      ensures Valid() && positionOverlays == old(positionOverlays) && View() == old(View())
      ensures Repr == old(Repr)
      ensures moved <==> 0 <= target < |wrapped.rows|
      ensures position == if target >= |wrapped.rows| then |wrapped.rows| else if target < 0 then -1 else target
    {
      if target >= |wrapped.rows| {
        position := |wrapped.rows|;
        return false;
      }
      if target < 0 {
        position := -1;
        return false;
      }
      position := target;
      return true;
    }

    /** The overlay at the current position and `column`, if any. */
    function OverlayAt(column: int): (r: Option<string>)
      reads this, positionOverlays.Values
      ensures r == Lookup(View(), position, column)
    {
      if position in positionOverlays && positionOverlays[position].HasOverlay(column)
      then positionOverlays[position].GetOverlay(column)
      else None
    }

    /**
     * Patch `column` of the current row with `value.toString()`. Before the
     * first row this does nothing; otherwise a null value and then a column at
     * or past the column count are refused, in that order, and nothing changes.
     * A negative column is accepted.
     */
    method AddOverlay(column: int, value: Value) returns (r: Result<()>)
      requires Valid()
      modifies this, positionOverlays.Values
      ensures Valid() && position == old(position)
      ensures fresh(positionOverlays.Values - old(positionOverlays.Values))
      ensures old(Repr) <= Repr && fresh(Repr - old(Repr))
      ensures old(position) < 0 ==> r == Ok(()) && View() == old(View())
      ensures old(position) >= 0 && value.Null? ==> r == Err(IllegalArgument) && View() == old(View())
      ensures old(position) >= 0 && !value.Null? && column >= wrapped.columnCount ==>
                r == Err(IndexOutOfBounds) && View() == old(View())
      ensures old(position) >= 0 && !value.Null? && column < wrapped.columnCount ==>
                r == Ok(()) && View() == Write(old(View()), position, column, ToText(value))
      ensures old(position) >= 0 && !value.Null? && column < wrapped.columnCount ==>
                GetString(column) == Ok(ToText(value))
    {
      if position < 0 {
        return Ok(());
      }
      if value.Null? {
        return Err(IllegalArgument);
      }
      if column >= wrapped.columnCount {
        return Err(IndexOutOfBounds);
      }
      ghost var before := View();
      PutOverlay(column, ToText(value));
      r := Ok(());
      LookupWrite(before, position, column, ToText(value), position, column);
    }

    /** The current row's record, created empty and registered on the row's first write. */
    method RecordForPosition() returns (overlays: Overlays)
      requires Valid() && position >= 0
      modifies this
      ensures Valid() && position == old(position)
      ensures position in positionOverlays && positionOverlays[position] == overlays
      ensures old(position in positionOverlays) ==> overlays == old(positionOverlays[position])
      ensures forall p :: p in old(positionOverlays) ==> p in positionOverlays && positionOverlays[p] == old(positionOverlays[p])
      ensures forall p :: p in positionOverlays && p != position ==> positionOverlays[p] != overlays
      ensures fresh(positionOverlays.Values - old(positionOverlays.Values))
      ensures old(Repr) <= Repr && fresh(Repr - old(Repr))
      ensures View() == old(View())[position := if position in old(View()) then old(View())[position] else map[]]
    {
      if position in positionOverlays {
        overlays := positionOverlays[position];
      } else {
        overlays := new Overlays();
        positionOverlays := positionOverlays[position := overlays];
        Repr := Repr + {overlays};
      }
    }

    /** Find or lazily create the current row's record, then set the column in it. */
    method PutOverlay(column: int, text: string)
      requires Valid() && position >= 0
      modifies this, positionOverlays.Values
      ensures Valid() && position == old(position)
      ensures fresh(positionOverlays.Values - old(positionOverlays.Values))
      ensures old(Repr) <= Repr && fresh(Repr - old(Repr))
      ensures View() == Write(old(View()), position, column, text)
    {
      ghost var before := View();
      var overlays := RecordForPosition();
      ghost var middle := View();
      overlays.Add(column, text);
      assert View() == middle[position := middle[position][column := text]] by {
        forall p | p in middle && p != position ensures View()[p] == middle[p] {
          assert positionOverlays[p] != overlays;
        }
      }
      WriteThroughRecord(before, middle, position, column, text);
    }

    /** `getString`: the overlay verbatim, else the wrapped cell. */
    function GetString(column: int): (r: Result<string>)
      reads this, positionOverlays.Values
      ensures Lookup(View(), position, column).Some? ==> r == Ok(Lookup(View(), position, column).value)
      ensures Lookup(View(), position, column).None? ==> r == WrappedString(wrapped, position, column)
    {
      match OverlayAt(column)
      case Some(s) => Ok(s)
      case None => WrappedString(wrapped, position, column)
    }

    /** `getInt`: the overlay through `Integer.valueOf`, else the wrapped cell. */
    function GetInt(column: int): (r: Result<Int32>)
      reads this, positionOverlays.Values
      ensures Lookup(View(), position, column).Some? ==> r == Parsed(IntegerValueOf(Lookup(View(), position, column).value))
      ensures Lookup(View(), position, column).None? ==> r == WrappedInt(wrapped, position, column)
    {
      match OverlayAt(column)
      case Some(s) => Parsed(IntegerValueOf(s))
      case None => WrappedInt(wrapped, position, column)
    }

    /** `getLong`: the overlay through `Integer.valueOf` (a 32-bit parse), else the wrapped cell. */
    function GetLong(column: int): (r: Result<Int64>)
      reads this, positionOverlays.Values
      ensures Lookup(View(), position, column).Some? ==> r == LongOverlayAsWritten(Lookup(View(), position, column).value)
      ensures Lookup(View(), position, column).None? ==> r == WrappedLong(wrapped, position, column)
    {
      match OverlayAt(column)
      case Some(s) => LongOverlayAsWritten(s)
      case None => WrappedLong(wrapped, position, column)
    }

    /** `getShort`: the overlay through `Short.valueOf`, else the wrapped cell. */
    function GetShort(column: int): (r: Result<Int16>)
      reads this, positionOverlays.Values
      ensures Lookup(View(), position, column).Some? ==> r == Parsed(ShortValueOf(Lookup(View(), position, column).value))
      ensures Lookup(View(), position, column).None? ==> r == WrappedShort(wrapped, position, column)
    {
      match OverlayAt(column)
      case Some(s) => Parsed(ShortValueOf(s))
      case None => WrappedShort(wrapped, position, column)
    }

    /** `getFloat`: the overlay's text for `Float.valueOf`, else the wrapped cell. */
    function GetFloat(column: int): (r: Result<FloatRead>)
      reads this, positionOverlays.Values
      ensures Lookup(View(), position, column).Some? ==> r == Ok(FloatOfText(Lookup(View(), position, column).value))
      ensures Lookup(View(), position, column).None? ==>
                r == match WrappedFloat(wrapped, position, column)
                     case Ok(x) => Ok(StoredFloat(x))
                     case Err(e) => Err(e)
    {
      match OverlayAt(column)
      case Some(s) => Ok(FloatOfText(s))
      case None =>
        match WrappedFloat(wrapped, position, column)
        case Ok(x) => Ok(StoredFloat(x))
        case Err(e) => Err(e)
    }

    /** Close: every overlay is dropped, so every read falls through to the wrapped cursor. */
    method Close()
      requires Valid()
      modifies this
      ensures Valid() && position == old(position) && View() == map[]
      ensures forall c :: GetString(c) == WrappedString(wrapped, position, c)
      ensures forall c :: GetInt(c) == WrappedInt(wrapped, position, c)
      ensures forall c :: GetLong(c) == WrappedLong(wrapped, position, c)
      ensures forall c :: GetShort(c) == WrappedShort(wrapped, position, c)
      ensures forall c :: GetFloat(c) == match WrappedFloat(wrapped, position, c)
                                        case Ok(x) => Ok(StoredFloat(x))
                                        case Err(e) => Err(e)
      ensures Repr == old(Repr)
    {
      positionOverlays := map[];
    }

    /** Deactivate: the same clearing as `Close`. */
    method Deactivate()
      requires Valid()
      modifies this
      ensures Valid() && position == old(position) && View() == map[]
      ensures forall c :: GetString(c) == WrappedString(wrapped, position, c)
      ensures forall c :: GetInt(c) == WrappedInt(wrapped, position, c)
      ensures forall c :: GetLong(c) == WrappedLong(wrapped, position, c)
      ensures forall c :: GetShort(c) == WrappedShort(wrapped, position, c)
      ensures forall c :: GetFloat(c) == match WrappedFloat(wrapped, position, c)
                                        case Ok(x) => Ok(StoredFloat(x))
                                        case Err(e) => Err(e)
      ensures Repr == old(Repr)
    {
      positionOverlays := map[];
    }
  }

  /** What `getFloat` returns: a float parsed from overlay text, or the wrapped cell's float. */
  datatype FloatRead = FloatOfText(text: string) | StoredFloat(x: real)

  /** `getLong`'s overlay path as written: `Integer.valueOf`, widened to `long`. */
  function LongOverlayAsWritten(s: string): (r: Result<Int64>)
    ensures r.Ok? <==> IntegerValueOf(s).Some?
    ensures r.Err? ==> r.error == NumberFormat
    ensures r.Ok? ==> INT_MIN <= r.value <= INT_MAX && r.value as int == IntegerValueOf(s).value as int
  {
    match IntegerValueOf(s)
    case Some(n) => Ok(n as Int64)
    case None => Err(NumberFormat)
  }

  /** `getLong`'s overlay path as evidently intended: `Long.valueOf`. */
  function LongOverlayIntended(s: string): (r: Result<Int64>)
    ensures r.Ok? <==> LongValueOf(s).Some?
    ensures r.Err? ==> r.error == NumberFormat
    ensures r.Ok? ==> LONG_MIN <= r.value <= LONG_MAX && ParseDecimal(s) == Some(r.value as int)
    ensures LongOverlayAsWritten(s).Ok? ==> r == LongOverlayAsWritten(s)
  {
    Parsed(LongValueOf(s))
  }

  // ---------------------------------------------------------------------------
  // Reads after writes, on the overlay table as a value
  // ---------------------------------------------------------------------------

  /** An `int` written with `addOverlay` reads back through `getInt`'s parse. */
  lemma IntOverlayReadsBack(t: OverlayTable, pos: int, col: int, n: Int32)
    ensures Lookup(Write(t, pos, col, ToText(Integral(n))), pos, col) == Some(ToDecimal(n))
    ensures Parsed(IntegerValueOf(ToDecimal(n))) == Ok(n)
  {
    LookupWrite(t, pos, col, ToText(Integral(n)), pos, col);
    IntegerValueOfRoundTrip(n);
  }

  /** A `short` written with `addOverlay` reads back through `getShort`'s parse. */
  lemma ShortOverlayReadsBack(t: OverlayTable, pos: int, col: int, n: Int16)
    ensures Lookup(Write(t, pos, col, ToText(Integral(n))), pos, col) == Some(ToDecimal(n))
    ensures Parsed(ShortValueOf(ToDecimal(n))) == Ok(n)
  {
    LookupWrite(t, pos, col, ToText(Integral(n)), pos, col);
    ShortValueOfRoundTrip(n);
  }

  /** An `int` overlay is read back by `getLong` as written. */
  lemma LongOverlayAsWrittenReadsInt(n: Int32)
    ensures LongOverlayAsWritten(ToDecimal(n)) == Ok(n as Int64)
  {
    IntegerValueOfRoundTrip(n);
  }

  /**
   * As written, a `long` overlay outside `int` range makes `getLong` throw a
   * NumberFormatException, rather than return the value or fall back.
   */
  lemma LongOverlayAsWrittenRejectsWide(n: Int64)
    requires n < INT_MIN || INT_MAX < n
    ensures LongOverlayAsWritten(ToDecimal(n)) == Err(NumberFormat)
  {
    IntegerValueOfRejectsWide(n);
  }

  /** The concrete case: 3000000000 is stored as "3000000000" and `getLong` rejects it. */
  lemma LongOverlayAsWrittenCounterexample()
    ensures ToText(Integral(3_000_000_000)) == ToDecimal(3_000_000_000)
    ensures LongOverlayAsWritten(ToDecimal(3_000_000_000)) == Err(NumberFormat)
    ensures LongOverlayIntended(ToDecimal(3_000_000_000)) == Ok(3_000_000_000)
  {
    LongOverlayAsWrittenRejectsWide(3_000_000_000);
    LongValueOfRoundTrip(3_000_000_000);
  }

  /** With `Long.valueOf`, every `long` overlay reads back as itself. */
  lemma LongOverlayIntendedReadsBack(t: OverlayTable, pos: int, col: int, n: Int64)
    ensures Lookup(Write(t, pos, col, ToText(Integral(n))), pos, col) == Some(ToDecimal(n))
    ensures LongOverlayIntended(ToDecimal(n)) == Ok(n)
  {
    LookupWrite(t, pos, col, ToText(Integral(n)), pos, col);
    LongValueOfRoundTrip(n);
  }
}
