# OverlayCursor, modelled in Dafny

K-9 Mail's `OverlayCursor` sits in front of an Android database cursor and lets
a caller patch single cells without touching the underlying result set. It
keeps a two-level table: cursor position → `Overlays` record, and inside each
record, column index → the string form of the patched value.

- `addOverlay(column, value)` does nothing while the cursor is before its first
  row. Otherwise it refuses a null value (IllegalArgumentException) and then a
  column at or past the column count (IndexOutOfBoundsException), in that
  order. Only then does it find or lazily create the row's record and set or
  replace `value.toString()` in it. A negative column is not refused.
- The typed getters look in the table first. An overlay always wins:
  `getString` returns it verbatim; `getInt` parses it with `Integer.valueOf`;
  `getShort` with `Short.valueOf`; `getLong` also with `Integer.valueOf`; and
  `getFloat` with `Float.valueOf`. A failed parse is a NumberFormatException
  and does not fall back to the wrapped cell. With no overlay, each getter
  returns the wrapped cursor's value.
- `close` and `deactivate` empty the table.

The project has three files:

- `java_numbers.dfy` (module `JavaNumbers`) holds Java's decimal `toString()`
  of a boxed integer, and `Integer.valueOf`, `Short.valueOf` and
  `Long.valueOf` as partial functions. Each parse is an optional `-` or `+`,
  then at least one ASCII digit, then a range check. The module proves the
  round trip `valueOf(toString(n)) == n` for every value in range. It also
  proves that the decimal form of an out-of-range value is refused.
- `overlay_cursor.dfy` (module `OverlayCursors`) holds the `Overlays` class
  and the `OverlayCursor` class. Each class updates its map in place. The
  overlay table also exists as a value, `map<int, map<int, string>>`, with
  `Lookup` and `Write`. `OverlayCursor.View()` ties the objects to that
  value. `Valid()` requires that no two positions share one `Overlays`
  record, and this is what makes a write to one row leave every other row
  alone. The ghost set `Repr` holds the cursor and its records, and new
  records are fresh, so a write through one cursor leaves every other
  cursor's table alone.
- `scenarios.dfy` (module `OverlayScenarios`) is a client. It checks the
  layer's intended use on a three-row, two-column table using only the
  contracts.

Java exceptions are `Err` results of the operation that throws them. The
wrapped cursor is an immutable `Table` of typed cells plus the current
position. The model assumes that its getters fail with
`CursorIndexOutOfBounds` outside its rows and columns. `MoveToPosition`
stands for the wrapped cursor's positioning, which the class inherits.

Two places where the source's own text says more than its code does:

- The message at line 72 says the column must lie between 0 and
  `getColumnCount() - 1`. The check at line 71 tests only the upper bound,
  so a negative column is accepted, and the model accepts it too.
- The unused `POSSIBLE_KEY_CLASSES` set (lines 19-27) suggests a check on the
  key column's type, but the constructor at lines 36-39 is unfinished. The
  model records `keyColumn` and checks nothing.

The table is declared `Map<Long, Overlays>` (line 16), but every access uses
the `int` from `getPosition()` (lines 50, 76-80). The model keys it by the
integer position.

## Model

| member | source | states |
|---|---|---|
| `JavaNumbers.NatDigits` | src/com/fsck/k9/helper/OverlayCursor.java:83 | the decimal form that `toString()` stores is a non-empty run of digits with no leading zero |
| `JavaNumbers.ToDecimal` | src/com/fsck/k9/helper/OverlayCursor.java:83 | `toString()` of a boxed integer starts with `-` exactly when the number is negative and is otherwise all digits |
| `JavaNumbers.NatDigitsValue` | src/com/fsck/k9/helper/OverlayCursor.java:83 | that digit run reads back as the number it was written from |
| `JavaNumbers.DecimalRoundTrip` | src/com/fsck/k9/helper/OverlayCursor.java:83 | the signed-decimal grammar accepts `toString()` of every integer and gives the integer back |
| `JavaNumbers.ParseDecimal` | src/com/fsck/k9/helper/OverlayCursor.java:106-133 | the `parseInt` grammar behind `Integer.valueOf` and `Short.valueOf`: it accepts only a digit, or a sign followed by more characters, as the first character; everything after the optional sign must be a digit; a negative result needs a leading `-`; a plain run of digits gives its value, and a signed run its signed value (`"-05"` is -5, `"+7"` is 7) |
| `JavaNumbers.IntegerValueOf` | src/com/fsck/k9/helper/OverlayCursor.java:109 | `Integer.valueOf` succeeds exactly when the string is in the grammar and its value lies in the 32-bit range, and it then returns that value |
| `JavaNumbers.ShortValueOf` | src/com/fsck/k9/helper/OverlayCursor.java:129 | `Short.valueOf` succeeds exactly when `Integer.valueOf` does and the value lies in the 16-bit range |
| `JavaNumbers.LongValueOf` | src/com/fsck/k9/helper/OverlayCursor.java:119 | `Long.valueOf`, the parse `getLong` evidently meant, succeeds exactly on the grammar within the 64-bit range |
| `JavaNumbers.IntegerValueOfRoundTrip` | src/com/fsck/k9/helper/OverlayCursor.java:109 | every `int` stored by `toString()` is read back unchanged by `Integer.valueOf` |
| `JavaNumbers.ShortValueOfRoundTrip` | src/com/fsck/k9/helper/OverlayCursor.java:129 | every `short` stored by `toString()` is read back unchanged by `Short.valueOf` |
| `JavaNumbers.LongValueOfRoundTrip` | src/com/fsck/k9/helper/OverlayCursor.java:119 | every `long` stored by `toString()` is read back unchanged by `Long.valueOf` |
| `JavaNumbers.IntegerValueOfRejectsWide` | src/com/fsck/k9/helper/OverlayCursor.java:109 | the decimal form of a value outside `int` is a format error for `Integer.valueOf` |
| `JavaNumbers.ShortValueOfRejectsWide` | src/com/fsck/k9/helper/OverlayCursor.java:129 | the decimal form of a value outside `short` is a format error for `Short.valueOf` |
| `JavaNumbers.MalformedLead` | src/com/fsck/k9/helper/OverlayCursor.java:106-133 | a string that starts with neither a sign nor a digit is a format error for every integer parse |
| `JavaNumbers.MalformedAt` | src/com/fsck/k9/helper/OverlayCursor.java:106-133 | a non-digit anywhere after the optional sign, as in `"1a"` or `"-1x"`, is a format error for every integer parse |
| `OverlayCursors.ToText` | src/com/fsck/k9/helper/OverlayCursor.java:83 | `value.toString()` stores a string verbatim, and stores a boxed integer as a decimal form that parses back to that integer |
| `OverlayCursors.Parsed` | src/com/fsck/k9/helper/OverlayCursor.java:106-133 | a failed parse of an overlay is a NumberFormat error, and a successful one yields the parsed value; there is no fallback |
| `OverlayCursors.Lookup` | src/com/fsck/k9/helper/OverlayCursor.java:49-56 | the overlay at (position, column) is found exactly when the position has a record holding that column, and it is that record's string |
| `OverlayCursors.Write` | src/com/fsck/k9/helper/OverlayCursor.java:76-83 | after the find-or-create and the put, the written (position, column) holds the new string; `LookupWrite` states that nothing else changes |
| `OverlayCursors.WriteThroughRecord` | src/com/fsck/k9/helper/OverlayCursor.java:76-83 | putting into the found-or-created record (lines 76-81 then 83) is the same as `Write` |
| `OverlayCursors.LookupWrite` | src/com/fsck/k9/helper/OverlayCursor.java:76-83 | after a write, its own (position, column) reads the written string and every other (position, column) reads what it read before |
| `OverlayCursors.WriteReplaces` | src/com/fsck/k9/helper/OverlayCursor.java:163-165 | writing the same cell twice is the same as writing only the second value |
| `OverlayCursors.WriteCommutes` | src/com/fsck/k9/helper/OverlayCursor.java:76-83 | writes to different cells are independent of their order |
| `OverlayCursors.WriteCounts` | src/com/fsck/k9/helper/OverlayCursor.java:76-81 | the table gains a record only on a position's first write, and a record gains an entry only on a column's first write |
| `OverlayCursors.Overlays.constructor` | src/com/fsck/k9/helper/OverlayCursor.java:161 | a new record holds no column overlays |
| `OverlayCursors.Overlays.Add` | src/com/fsck/k9/helper/OverlayCursor.java:163-165 | sets or replaces the column's string, and `numberOfOverlays` grows by one exactly when the column was new |
| `OverlayCursors.Overlays.HasOverlay` | src/com/fsck/k9/helper/OverlayCursor.java:167-169 | true exactly when `getOverlay` finds a value |
| `OverlayCursors.Overlays.GetOverlay` | src/com/fsck/k9/helper/OverlayCursor.java:171-173 | the stored string of the column, or nothing (Java's null) when none is stored |
| `OverlayCursors.Overlays.NumberOfOverlays` | src/com/fsck/k9/helper/OverlayCursor.java:175-177 | the number of columns with an overlay, and so zero exactly when the record is empty |
| `OverlayCursors.OverlayCursor.constructor` | src/com/fsck/k9/helper/OverlayCursor.java:34-41 | wraps the cursor at its current position, records the key column, and starts with an empty table |
| `OverlayCursors.OverlayCursor.MoveToPosition` | src/com/fsck/k9/helper/OverlayCursor.java:14 | the inherited positioning moves only the position and clamps it to [-1, row count]; the overlays stay where they are |
| `OverlayCursors.OverlayCursor.OverlayAt` | src/com/fsck/k9/helper/OverlayCursor.java:49-56 | the private `getOverlay` finds, through the row's record, exactly the table entry at (current position, column) |
| `OverlayCursors.OverlayCursor.AddOverlay` | src/com/fsck/k9/helper/OverlayCursor.java:64-89 | before the first row: no error and no change, whatever the value and column; then a null value is IllegalArgument and a column >= column count is IndexOutOfBounds, both with no change; otherwise the table becomes `Write(old table, position, column, value.toString())`, new records are fresh, and `getString(column)` returns `value.toString()` |
| `OverlayCursors.OverlayCursor.RecordForPosition` | src/com/fsck/k9/helper/OverlayCursor.java:75-81 | the position's existing record object is returned itself, or else a fresh empty one is created and registered; every position that had a record keeps that same object, the others stay distinct from the returned one, and the table only gains an empty row |
| `OverlayCursors.OverlayCursor.PutOverlay` | src/com/fsck/k9/helper/OverlayCursor.java:75-83 | the find-or-create of the row's record and the put into it change the table exactly as `Write` does; new records are fresh and join the cursor's footprint `Repr` |
| `OverlayCursors.OverlayCursor.GetString` | src/com/fsck/k9/helper/OverlayCursor.java:136-143 | an overlay at (position, column) is returned verbatim; without one, the wrapped cursor's string is returned |
| `OverlayCursors.OverlayCursor.GetInt` | src/com/fsck/k9/helper/OverlayCursor.java:106-113 | an overlay is returned through `Integer.valueOf` or fails with NumberFormat; without one, the wrapped cursor's int is returned |
| `OverlayCursors.OverlayCursor.GetLong` | src/com/fsck/k9/helper/OverlayCursor.java:116-123 | an overlay is returned through the 32-bit `Integer.valueOf`, as written; without one, the wrapped cursor's long is returned |
| `OverlayCursors.OverlayCursor.GetShort` | src/com/fsck/k9/helper/OverlayCursor.java:126-133 | an overlay is returned through `Short.valueOf` or fails with NumberFormat; without one, the wrapped cursor's short is returned |
| `OverlayCursors.OverlayCursor.GetFloat` | src/com/fsck/k9/helper/OverlayCursor.java:96-103 | an overlay wins and is handed to `Float.valueOf`; without one, the wrapped cursor's float is returned |
| `OverlayCursors.OverlayCursor.Close` | src/com/fsck/k9/helper/OverlayCursor.java:145-149 | the table is empty afterwards, and every typed read, `getFloat` included, returns exactly the wrapped cursor's value |
| `OverlayCursors.OverlayCursor.Deactivate` | src/com/fsck/k9/helper/OverlayCursor.java:151-155 | the table is empty afterwards, and every typed read, `getFloat` included, returns exactly the wrapped cursor's value |
| `OverlayCursors.LongOverlayAsWritten` | src/com/fsck/k9/helper/OverlayCursor.java:119 | `getLong`'s overlay parse succeeds exactly when `Integer.valueOf` does, and its result then lies in the 32-bit range; otherwise it fails with NumberFormat |
| `OverlayCursors.LongOverlayIntended` | src/com/fsck/k9/helper/OverlayCursor.java:119 | the corrected `getLong` read through `Long.valueOf` succeeds exactly on a 64-bit decimal, fails otherwise with NumberFormat, and agrees with the as-written read wherever that one succeeds |
| `OverlayCursors.IntOverlayReadsBack` | src/com/fsck/k9/helper/OverlayCursor.java:106-113 | an `int` written with `addOverlay` is read back unchanged by `getInt`'s parse |
| `OverlayCursors.ShortOverlayReadsBack` | src/com/fsck/k9/helper/OverlayCursor.java:126-133 | a `short` written with `addOverlay` is read back unchanged by `getShort`'s parse |
| `OverlayCursors.LongOverlayAsWrittenReadsInt` | src/com/fsck/k9/helper/OverlayCursor.java:116-123 | `getLong` reads back every overlay written from an `int`-range value |
| `OverlayCursors.LongOverlayAsWrittenRejectsWide` | src/com/fsck/k9/helper/OverlayCursor.java:116-123 | `getLong` fails with NumberFormat on the overlay of any `long` outside `int` range |
| `OverlayCursors.LongOverlayAsWrittenCounterexample` | src/com/fsck/k9/helper/OverlayCursor.java:119 | the overlay of 3000000000 is refused by the as-written `getLong` parse and accepted by `Long.valueOf` |
| `OverlayCursors.LongOverlayIntendedReadsBack` | src/com/fsck/k9/helper/OverlayCursor.java:119 | with `Long.valueOf`, every `long` written with `addOverlay` is read back unchanged |

## Left out

- Debug logging under `K9.DEBUG` (lines 85-88) is left out. It only produces output.
- The static `POSSIBLE_KEY_CLASSES` set and the constructor's key-type check (lines 19-27, 36-39) are left out. The code is unfinished and defines no behaviour.
- `getCurrentMessageId` and the `messageId` it feeds (lines 74, 91-93) are left out. The code is unfinished, and the value is never used.
- `OverlayCursors.OverlayCursor.GetFloat`: returns the overlay's text instead of a parsed float. `Float.valueOf` and its NumberFormatException are not modelled, because floating-point parsing is out of scope.
- `JavaNumbers.IntegerValueOf`: accepts only ASCII digits. Java's `Character.digit` also accepts other Unicode decimal digits. The same holds for `JavaNumbers.ShortValueOf` and `JavaNumbers.LongValueOf`.
- The forwarding of `close` and `deactivate` to the wrapped cursor, and the wrapped cursor's behaviour afterwards, are left out. The model stops at clearing the table.
- The wrapped cursor's own type conversions are left out. Each cell carries the value each typed getter returns. SQL NULL cells, which make `getString` return null, are not modelled.
- `Object.toString()` of arbitrary objects is left out. A value is null, a string, or a boxed Short, Integer or Long.
- Concurrency is left out. The class is single-threaded.

## Findings

| source | as written | input that shows it | evidently intended | confidence | as-written member | corrected member |
|---|---|---|---|---|---|---|
| src/com/fsck/k9/helper/OverlayCursor.java:119 | `getLong` parses its overlay with `Integer.valueOf` | `addOverlay(c, 3000000000L)` at a row, then `getLong(c)` there: NumberFormatException | parse with `Long.valueOf`, so every `long` overlay reads back | high; not executed | `OverlayCursors.LongOverlayAsWrittenCounterexample` | `OverlayCursors.LongOverlayIntendedReadsBack` |

The class keeps `GetLong` as written, because the model follows the code. The
corrected read is `OverlayCursors.LongOverlayIntended`. Its contract states
that it changes nothing where the written read succeeds.
