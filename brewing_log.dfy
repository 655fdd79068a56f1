/** The brewing-log table: its twelve columns, the default cell renderer that every
    column without a renderer of its own falls back to, the SRM colour swatch, the date
    cells' guard, a body of rendered rows, and the sort indicator in each header. Row
    order and sort state come from the table library and are taken as inputs. */
module BrewingLog {
  import opened JsValues
  import ContrastTextColor

  datatype Option<T> = None | Some(value: T)

  /** The glyph shown for a missing value. */
  const Placeholder: string := "-"

  /** What a cell shows: a string; the SRM badge, the value on its colour with a
      contrasting text colour; or the locale date string of the value, which this model
      does not compute. */
  datatype Rendered =
    | Text(s: string)
    | Swatch(value: JsValue, backgroundColor: string, color: string)
    | LocaleDate(value: JsValue)

  /** The cell renderers a column can set instead of the default one. */
  datatype CustomCell = SrmCell | FormatDateCell

  datatype Column = Column(accessorKey: string, header: string, cell: Option<CustomCell>)

  /** A record as the table reads it: field name to value. */
  type Row = map<string, JsValue>

  /** The SRM colour table: SRM value, as a property key, to CSS colour. */
  type SrmColors = map<string, string>

  /** `info.getValue()`: a field the record lacks reads as undefined. */
  function GetValue(row: Row, key: string): (v: JsValue)
    ensures key in row ==> v == row[key]
    ensures key !in row ==> v == Undefined
  {
    if key in row then row[key] else Undefined
  }

  /** renderDefaultColumn.cell: null, undefined and whatever is loosely equal to ""
      show the placeholder, anything else its String. */
  function DefaultCell(v: JsValue): (text: string)
    ensures text == Placeholder || text == ToJsString(v)
    ensures IsNullish(v) ==> text == Placeholder
    ensures !IsNullish(v) && !LooselyEqualsEmptyString(v) ==> text == ToJsString(v)
  {
    if IsNullish(v) || LooselyEqualsEmptyString(v) then Placeholder else ToJsString(v)
  }

  /** renderSrmCell: a falsy value shows the placeholder without looking at the colour
      table; a truthy one is shown on its colour, `srmColors[value]`, with the text
      colour getContrastTextColor picks. A value with no colour leaves `color`
      undefined, and reading `substring` of undefined throws a TypeError. */
  function SrmCellOf(v: JsValue, srmColors: SrmColors): (r: Completion<Rendered>)
    ensures !Truthy(v) ==> r == Normal(Text(Placeholder))
    ensures Truthy(v) && ToJsString(v) in srmColors ==>
      var color := srmColors[ToJsString(v)];
      r == Normal(Swatch(v, color, ContrastTextColor.GetContrastTextColor(color)))
    ensures r.Throw? <==> Truthy(v) && ToJsString(v) !in srmColors
    ensures r.Normal? && r.value.Swatch? ==>
      r.value.color == ContrastTextColor.Black || r.value.color == ContrastTextColor.White
  {
    if !Truthy(v) then Normal(Text(Placeholder))
    else
      var key := ToJsString(v);
      if key in srmColors then
        var color := srmColors[key];
        Normal(Swatch(v, color, ContrastTextColor.GetContrastTextColor(color)))
      else Throw(TypeError)
  }

  /** A date column's cell, `formatDate(info.getValue())`: a falsy value shows the
      placeholder, any other is handed to the locale date formatter. */
  function DateCellOf(v: JsValue): (r: Rendered)
    ensures r.Text? <==> !Truthy(v)
    ensures r.Text? ==> r.s == Placeholder
    ensures Truthy(v) ==> r == LocaleDate(v)
  {
    if !Truthy(v) then Text(Placeholder) else LocaleDate(v)
  }

  /** The column table, in display order. */
  const Columns: seq<Column> := [
    Column("number", "#", None),
    Column("name", "Name", None),
    Column("style", "Style", None),
    Column("volume", "Volume (L)", None),
    Column("og", "OG", None),
    Column("fg", "FG", None),
    Column("abv", "ABV (%)", None),
    Column("ibu", "IBU", None),
    Column("srm", "SRM", Some(SrmCell)),
    Column("clarity", "Clarity", None),
    Column("brewDate", "Brew Date", Some(FormatDateCell)),
    Column("bottleDate", "Bottle Date", Some(FormatDateCell))
  ]

  /** The cell of one column for one record: the column's own renderer, or the default
      one when it sets none. */
  function RenderCell(col: Column, row: Row, srmColors: SrmColors): (r: Completion<Rendered>)
    ensures r.Throw? ==> col.cell == Some(SrmCell)
    ensures col.cell.None? ==> r == Normal(Text(DefaultCell(GetValue(row, col.accessorKey))))
    ensures col.cell == Some(SrmCell) ==> r == SrmCellOf(GetValue(row, col.accessorKey), srmColors)
    ensures col.cell == Some(FormatDateCell) ==> r == Normal(DateCellOf(GetValue(row, col.accessorKey)))
  {
    var v := GetValue(row, col.accessorKey);
    match col.cell
    case None => Normal(Text(DefaultCell(v)))
    case Some(SrmCell) => SrmCellOf(v, srmColors)
    case Some(FormatDateCell) => Normal(DateCellOf(v))
  }

  /** The cells of one record, column by column; the first cell that throws aborts
      the render. */
  function RenderCells(cols: seq<Column>, row: Row, srmColors: SrmColors): (r: Completion<seq<Rendered>>)
    ensures r.Normal? <==> forall i :: 0 <= i < |cols| ==> RenderCell(cols[i], row, srmColors).Normal?
    ensures r.Normal? ==> (|r.value| == |cols| &&
      forall i :: 0 <= i < |cols| ==> RenderCell(cols[i], row, srmColors) == Normal(r.value[i]))
  {
    if cols == [] then Normal([])
    else
      match RenderCell(cols[0], row, srmColors)
      case Throw(e) => Throw(e)
      case Normal(first) =>
        match RenderCells(cols[1..], row, srmColors)
        case Throw(e) => Throw(e)
        case Normal(rest) =>
          assert forall i :: 1 <= i < |cols| ==> cols[i] == cols[1..][i - 1];
          Normal([first] + rest)
  }

  /** The table body: the records, in the order the table library hands them over,
      each rendered over the columns (the table's are Columns). */
  function RenderBody(cols: seq<Column>, rows: seq<Row>, srmColors: SrmColors): (r: Completion<seq<seq<Rendered>>>)
    ensures r.Normal? <==> forall i :: 0 <= i < |rows| ==> RenderCells(cols, rows[i], srmColors).Normal?
    ensures r.Normal? ==> (|r.value| == |rows| &&
      forall i :: 0 <= i < |rows| ==> RenderCells(cols, rows[i], srmColors) == Normal(r.value[i]))
  {
    if rows == [] then Normal([])
    else
      match RenderCells(cols, rows[0], srmColors)
      case Throw(e) => Throw(e)
      case Normal(first) =>
        match RenderBody(cols, rows[1..], srmColors)
        case Throw(e) => Throw(e)
        case Normal(rest) =>
          assert forall i :: 1 <= i < |rows| ==> rows[i] == rows[1..][i - 1];
          Normal([first] + rest)
  }

  /** `header.column.getIsSorted()`: false, "asc" or "desc". */
  datatype IsSorted = NotSorted | Asc | Desc

  function IsSortedValue(s: IsSorted): (v: JsValue)
    ensures v == Str("asc") <==> s == Asc
    ensures v == Str("desc") <==> s == Desc
    ensures !Truthy(v) <==> s == NotSorted
  {
    match s
    case NotSorted => Bool(false)
    case Asc => Str("asc")
    case Desc => Str("desc")
  }

  datatype Icon = ArrowUp | ArrowDown | ArrowUpDown

  /** The one indicator a header is meant to show for its sort state. */
  function IndicatorFor(s: IsSorted): Icon {
    match s
    case Asc => ArrowUp
    case Desc => ArrowDown
    case NotSorted => ArrowUpDown
  }

  /** The icons after a header label: three independent conditionals, on
      `isSorted === "asc"`, `isSorted === "desc"` and `!isSorted`. Exactly one holds. */
  function SortIcons(s: IsSorted): (icons: seq<Icon>)
    ensures icons == [IndicatorFor(s)]
  {
    var v := IsSortedValue(s);
    (if v == Str("asc") then [ArrowUp] else [])
    + (if v == Str("desc") then [ArrowDown] else [])
    + (if !Truthy(v) then [ArrowUpDown] else [])
  }

  datatype HeaderCell = HeaderCell(title: string, icons: seq<Icon>)

  /** The header row for the sort state the table library reports per column. */
  function HeaderRow(sortOf: string -> IsSorted): (r: seq<HeaderCell>)
    ensures |r| == |Columns|
    ensures forall i :: 0 <= i < |Columns| ==>
      r[i].title == Columns[i].header && r[i].icons == [IndicatorFor(sortOf(Columns[i].accessorKey))]
  {
    seq(|Columns|, i requires 0 <= i < |Columns| =>
      HeaderCell(Columns[i].header, SortIcons(sortOf(Columns[i].accessorKey))))
  }

  // ----- Properties -----

  /** The default cell shows the placeholder for exactly the falsy values other than
      NaN (undefined, null, false, "", 0 and -0), and for the string "-" itself. */
  lemma DefaultPlaceholderValues(v: JsValue)
    ensures DefaultCell(v) == Placeholder <==>
      (!Truthy(v) && v != Num(NaN)) || v == Str(Placeholder)
  {
  }

  /** Through loose equality, the number 0 and false collapse to the placeholder, while
      NaN is shown as "NaN". */
  lemma DefaultCoercions(e: int)
    ensures DefaultCell(Num(Finite(0, e))) == Placeholder
    ensures DefaultCell(Bool(false)) == Placeholder
    ensures DefaultCell(Str("")) == Placeholder
    ensures DefaultCell(Null) == Placeholder && DefaultCell(Undefined) == Placeholder
    ensures DefaultCell(Num(NaN)) == "NaN"
  {
  }

  /** A non-empty string is shown unchanged, and a non-zero integer below 10^21 as its
      decimal numeral. */
  lemma DefaultShowsValue(s: string, i: int)
    requires s != ""
    requires 0 < i < Pow10(21)
    ensures DefaultCell(Str(s)) == s
    ensures DefaultCell(Num(Finite(i, 0))) == Digits(i)
    ensures DefaultCell(Num(Finite(-i, 0))) == "-" + Digits(i)
  {
    DefaultShowsNonzero(Finite(i, 0));
    DefaultShowsNonzero(Finite(-i, 0));
    IntegerToString(i);
    IntegerToString(-i);
  }

  /** A gravity such as 1.050 is the Number 1.05 and is shown as "1.05": the default
      renderer keeps no trailing zeros and no fixed number of decimals. */
  lemma DefaultDecimalExample()
    ensures DefaultCell(Num(Finite(1050, -3))) == "1.05"
  {
    DefaultShowsNonzero(Finite(1050, -3));
    PositiveNumberToString(1050, -3);
    assert StripZeros(1050) == (105, 1) by {
      assert StripZeros(105) == (105, 0);
    }
    assert Digits(105) == "105" by {
      assert Digits(1) == "1" && Digits(10) == "10";
    }
  }

  lemma DefaultShowsNonzero(n: Number)
    requires n.Finite? && n.m != 0
    ensures DefaultCell(Num(n)) == NumberToString(n)
  {
  }

  /** A falsy SRM value shows the placeholder whatever the colour table holds. */
  lemma SrmFalsyIgnoresTable(v: JsValue, t1: SrmColors, t2: SrmColors)
    requires !Truthy(v)
    ensures SrmCellOf(v, t1) == SrmCellOf(v, t2) == Normal(Text(Placeholder))
  {
  }

  /** The SRM cell throws exactly when a truthy value has no colour in the table. */
  lemma SrmThrowsIff(v: JsValue, srmColors: SrmColors)
    ensures SrmCellOf(v, srmColors).Throw? <==> Truthy(v) && ToJsString(v) !in srmColors
  {
  }

  /** A truthy SRM value with any colour string in the table is shown on that colour,
      in black exactly when the bytes the string decodes to weigh more than 140. */
  lemma SrmSwatchContrast(v: JsValue, srmColors: SrmColors)
    requires Truthy(v) && ToJsString(v) in srmColors
    ensures var color := srmColors[ToJsString(v)];
      var c := ContrastTextColor.DecodeColor(color);
      SrmCellOf(v, srmColors) == Normal(Swatch(v, color,
        if 2126 * c.r + 7152 * c.g + 722 * c.b > 1400000 then ContrastTextColor.Black
        else ContrastTextColor.White))
  {
  }

  /** For a colour written "#RRGGBB", black text exactly when its luminance is above 140. */
  lemma SrmHexSwatchContrast(v: JsValue, srmColors: SrmColors, c: ContrastTextColor.Rgb)
    requires Truthy(v) && ContrastTextColor.IsColor(c)
    requires ToJsString(v) in srmColors && srmColors[ToJsString(v)] == ContrastTextColor.HexColor(c)
    ensures SrmCellOf(v, srmColors) == Normal(Swatch(v, ContrastTextColor.HexColor(c),
      if ContrastTextColor.Luminance(c) > 140.0 then ContrastTextColor.Black else ContrastTextColor.White))
  {
    ContrastTextColor.ContrastOfColor(c);
  }

  /** The SRM value 10 with colour "#F2A60D" gets black text. */
  lemma SrmAmberExample(srmColors: SrmColors)
    requires "10" in srmColors && srmColors["10"] == "#F2A60D"
    ensures SrmCellOf(Num(Finite(10, 0)), srmColors) == Normal(Swatch(Num(Finite(10, 0)), "#F2A60D", ContrastTextColor.Black))
  {
    PositiveNumberToString(10, 0);
    assert StripZeros(10) == (1, 1) by {
      assert StripZeros(1) == (1, 0);
    }
    assert Digits(1) == "1" && Zeros(1) == "0";
    assert ToJsString(Num(Finite(10, 0))) == "10";
    ContrastTextColor.AmberExample();
  }

  /** Twelve columns in a fixed order; only srm, brewDate and bottleDate render their
      own cells, and every other column falls back to the default renderer. */
  lemma ColumnTable()
    ensures |Columns| == 12
    ensures seq(|Columns|, i requires 0 <= i < |Columns| => Columns[i].accessorKey) ==
      ["number", "name", "style", "volume", "og", "fg", "abv", "ibu", "srm", "clarity", "brewDate", "bottleDate"]
    ensures forall i :: 0 <= i < |Columns| ==>
      (Columns[i].cell.Some? <==> Columns[i].accessorKey in {"srm", "brewDate", "bottleDate"})
    ensures forall i :: 0 <= i < |Columns| && Columns[i].cell.Some? ==>
      (Columns[i].cell.value == SrmCell <==> Columns[i].accessorKey == "srm")
    ensures forall i, j :: 0 <= i < j < |Columns| ==> Columns[i].accessorKey != Columns[j].accessorKey
  {
  }

  /** The index of the SRM column. */
  const SrmIndex: nat := 8

  /** A record's row renders unless its SRM value is truthy and has no colour; then the
      whole render throws. */
  lemma RowRendersIff(row: Row, srmColors: SrmColors)
    ensures RenderCells(Columns, row, srmColors).Normal? <==>
      var v := GetValue(row, "srm"); !Truthy(v) || ToJsString(v) in srmColors
  {
    var v := GetValue(row, "srm");
    assert Columns[SrmIndex] == Column("srm", "SRM", Some(SrmCell));
    if !Truthy(v) || ToJsString(v) in srmColors {
      forall i | 0 <= i < |Columns| ensures RenderCell(Columns[i], row, srmColors).Normal? {
        if i != SrmIndex {
          assert Columns[i].cell != Some(SrmCell);
        }
      }
    } else {
      assert !RenderCell(Columns[SrmIndex], row, srmColors).Normal?;
    }
  }

  /** In a rendered row, the ninth cell is the SRM swatch or placeholder of the record's
      srm field, and the last two are its date cells. */
  lemma RowCustomCells(row: Row, srmColors: SrmColors)
    requires RenderCells(Columns, row, srmColors).Normal?
    ensures var cells := RenderCells(Columns, row, srmColors).value;
      && Normal(cells[SrmIndex]) == SrmCellOf(GetValue(row, "srm"), srmColors)
      && cells[10] == DateCellOf(GetValue(row, "brewDate"))
      && cells[11] == DateCellOf(GetValue(row, "bottleDate"))
  {
    assert Columns[SrmIndex] == Column("srm", "SRM", Some(SrmCell));
    assert Columns[10] == Column("brewDate", "Brew Date", Some(FormatDateCell));
    assert Columns[11] == Column("bottleDate", "Bottle Date", Some(FormatDateCell));
  }

  /** The body renders exactly when every record's row does; its rows keep the order
      and the count of the records. */
  lemma BodyRendersIff(rows: seq<Row>, srmColors: SrmColors)
    ensures RenderBody(Columns, rows, srmColors).Normal? <==>
      forall i :: 0 <= i < |rows| ==>
        var v := GetValue(rows[i], "srm"); !Truthy(v) || ToJsString(v) in srmColors
  {
    forall i | 0 <= i < |rows| {
      RowRendersIff(rows[i], srmColors);
    }
  }

  /** Every header shows its label and exactly one sort indicator: up when sorted
      ascending, down when descending, the neutral one when not sorted. */
  lemma HeaderIndicators(sortOf: string -> IsSorted)
    ensures forall i :: 0 <= i < |Columns| ==> |HeaderRow(sortOf)[i].icons| == 1
    ensures forall i :: 0 <= i < |Columns| ==>
      (HeaderRow(sortOf)[i].icons[0] == ArrowUp <==> sortOf(Columns[i].accessorKey) == Asc)
    ensures forall i :: 0 <= i < |Columns| ==>
      (HeaderRow(sortOf)[i].icons[0] == ArrowDown <==> sortOf(Columns[i].accessorKey) == Desc)
    ensures forall i :: 0 <= i < |Columns| ==>
      (HeaderRow(sortOf)[i].icons[0] == ArrowUpDown <==> sortOf(Columns[i].accessorKey) == NotSorted)
  {
  }
}
