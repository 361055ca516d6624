/** The framed table: measuring, shrinking, wrapping and drawing together. */
module TableFrame {
  import opened Basics
  import opened Table

  type Row = seq<Text>

  const BAR := Glyph(0x2502, 1, false)
  const DASH := Glyph(0x2500, 1, false)

  // ---- What is drawn ----

  function Repeat(g: Glyph, n: nat): (t: Text)
    ensures |t| == n
  {
    seq(n, _ => g)
  }

  lemma {:induction false} RepeatWidth(g: Glyph, n: nat)
    ensures Width(Repeat(g, n)) == n * g.width
  {
    if n > 0 {
      assert Repeat(g, n)[..n - 1] == Repeat(g, n - 1);
      RepeatWidth(g, n - 1);
    }
  }

  function Rule(widths: seq<nat>, middle: Glyph): Text {
    if widths == [] then []
    else Rule(widths[..|widths| - 1], middle) + Repeat(DASH, widths[|widths| - 1] + 2) + [middle]
  }

  function BorderLine(widths: seq<nat>, left: Glyph, middle: Glyph, right: Glyph): Text
    requires widths != []
  {
    [left] + Rule(widths[..|widths| - 1], middle) + Repeat(DASH, widths[|widths| - 1] + 2) + [right]
  }

  function Padding(width: nat, cell: Text): nat {
    if Width(cell) <= width then width - Width(cell) + 1 else 1
  }

  function RowText(widths: seq<nat>, cells: seq<Text>): Text
    requires |widths| == |cells|
  {
    if widths == [] then [BAR]
    else
      var last := |widths| - 1;
      RowText(widths[..last], cells[..last]) + [SPACE] + cells[last]
      + Repeat(SPACE, Padding(widths[last], cells[last])) + [BAR]
  }

  function Tallest(wrapped: seq<seq<Text>>): nat {
    if wrapped == [] then 0 else Max(Tallest(wrapped[..|wrapped| - 1]), |wrapped[|wrapped| - 1]|)
  }

  lemma {:induction false} TallestBounds(wrapped: seq<seq<Text>>)
    ensures forall c | 0 <= c < |wrapped| :: |wrapped[c]| <= Tallest(wrapped)
    ensures wrapped != [] ==> exists c | 0 <= c < |wrapped| :: |wrapped[c]| == Tallest(wrapped)
  {
    if wrapped != [] {
      var last := |wrapped| - 1;
      TallestBounds(wrapped[..last]);
      assert wrapped[..last] == [] || exists c | 0 <= c < last :: |wrapped[..last][c]| == Tallest(wrapped[..last]);
      if |wrapped[last]| < Tallest(wrapped[..last]) {
        var c :| 0 <= c < last && |wrapped[..last][c]| == Tallest(wrapped[..last]);
        assert |wrapped[c]| == Tallest(wrapped);
      }
      forall c | 0 <= c < |wrapped|
        ensures |wrapped[c]| <= Tallest(wrapped)
      {
        assert c < last ==> wrapped[..last][c] == wrapped[c];
      }
    }
  }

  /** Line `k` of every cell of a row. */
  function Slice(wrapped: seq<seq<Text>>, k: nat): (cells: seq<Text>)
    ensures |cells| == |wrapped|
  {
    seq(|wrapped|, c requires 0 <= c < |wrapped| => if k < |wrapped[c]| then wrapped[c][k] else [])
  }

  function RowLines(widths: seq<nat>, wrapped: seq<seq<Text>>, height: nat): seq<Text>
    requires |widths| == |wrapped|
  {
    seq(height, k requires 0 <= k => RowText(widths, Slice(wrapped, k)))
  }

  function Body(widths: seq<nat>, rows: seq<seq<seq<Text>>>): seq<Text>
    requires widths != [] && forall r | 0 <= r < |rows| :: |rows[r]| == |widths|
  {
    if rows == [] then []
    else
      var last := |rows| - 1;
      Body(widths, rows[..last]) + Divider(widths, last > 0)
      + RowLines(widths, rows[last], Tallest(rows[last]))
  }

  function Divider(widths: seq<nat>, drawn: bool): seq<Text>
    requires widths != []
  {
    if drawn then [BorderLine(widths, Glyph(0x251C, 1, false), Glyph(0x253C, 1, false), Glyph(0x2524, 1, false))] else []
  }

  function Top(widths: seq<nat>): Text
    requires widths != []
  {
    BorderLine(widths, Glyph(0x250C, 1, false), Glyph(0x252C, 1, false), Glyph(0x2510, 1, false))
  }

  function Bottom(widths: seq<nat>): Text
    requires widths != []
  {
    BorderLine(widths, Glyph(0x2514, 1, false), Glyph(0x2534, 1, false), Glyph(0x2518, 1, false))
  }

  /** The table proper; an empty line follows it. */
  function Drawn(widths: seq<nat>, rows: seq<seq<seq<Text>>>): seq<Text>
    requires widths != [] && forall r | 0 <= r < |rows| :: |rows[r]| == |widths|
  {
    [Top(widths)] + Body(widths, rows) + [Bottom(widths)]
  }

  // ---- Drawing it ----

  function Columns(rows: seq<Row>): nat {
    if rows == [] then 0 else Max(Columns(rows[..|rows| - 1]), |rows[|rows| - 1]|)
  }

  lemma {:induction false} ColumnsBound(rows: seq<Row>, r: nat)
    requires r < |rows|
    ensures |rows[r]| <= Columns(rows)
  {
    if r < |rows| - 1 {
      ColumnsBound(rows[..|rows| - 1], r);
    }
  }

  function Cell(row: Row, c: nat): Text {
    if c < |row| then row[c] else []
  }

  /** The width column `c` would have without shrinking. */
  function Natural(rows: seq<Row>, c: nat): nat {
    if rows == [] then 1 else Max(Natural(rows[..|rows| - 1], c), Width(Cell(rows[|rows| - 1], c)))
  }

  lemma {:induction false} NaturalIsLeast(rows: seq<Row>, c: nat, w: nat)
    ensures Natural(rows, c) <= w <==> 1 <= w && forall r | 0 <= r < |rows| :: Width(Cell(rows[r], c)) <= w
  {
    if rows != [] {
      var last := |rows| - 1;
      NaturalIsLeast(rows[..last], c, w);
      assert forall r | 0 <= r < last :: rows[..last][r] == rows[r];
    }
  }

  method Measure(rows: seq<Row>, columns: nat) returns (widths: seq<nat>)
    requires columns == Columns(rows)
    ensures |widths| == columns
    ensures forall c | 0 <= c < columns :: widths[c] == Natural(rows, c) >= 1
  {
    hide Width, Columns;
    widths := Repeat1(columns);
    for i := 0 to |rows|
      invariant |widths| == columns
      invariant forall c | 0 <= c < columns :: widths[c] == Natural(rows[..i], c) >= 1
    {
      ghost var widthsBefore := widths;
      ColumnsBound(rows, i);
      assert rows[..i + 1][..i] == rows[..i];
      WidthNone();
      for c := 0 to |rows[i]|
        invariant |widths| == columns
        invariant forall k | 0 <= k < c :: widths[k] == Natural(rows[..i + 1], k) >= 1
        invariant forall k | c <= k < columns :: widths[k] == widthsBefore[k]
      {
        widths := widths[c := Max(widths[c], Max(Width(rows[i][c]), 1))];
      }
    }
    assert rows[..|rows|] == rows;
  }

  function Repeat1(n: nat): seq<nat> {
    seq(n, _ => 1)
  }

  method Border(widths: seq<nat>, left: Glyph, middle: Glyph, right: Glyph) returns (text: Text)
    requires widths != []
    ensures text == BorderLine(widths, left, middle, right)
  {
    text := [left];
    for i := 0 to |widths|
      invariant i < |widths| ==> text == [left] + Rule(widths[..i], middle)
      invariant i == |widths| ==> text == BorderLine(widths, left, middle, right)
    {
      assert widths[..i + 1][..i] == widths[..i];
      text := text + Repeat(DASH, widths[i] + 2) + [if i + 1 == |widths| then right else middle];
    }
  }

  method DrawLine(widths: seq<nat>, wrapped: seq<seq<Text>>, k: nat) returns (text: Text)
    requires |widths| == |wrapped|
    ensures text == RowText(widths, Slice(wrapped, k))
  {
    text := [BAR];
    for c := 0 to |wrapped|
      invariant text == RowText(widths[..c], Slice(wrapped, k)[..c])
    {
      var cell := if k < |wrapped[c]| then wrapped[c][k] else [];
      assert widths[..c + 1][..c] == widths[..c];
      assert Slice(wrapped, k)[..c + 1][..c] == Slice(wrapped, k)[..c];
      text := text + [SPACE] + cell + Repeat(SPACE, Padding(widths[c], cell)) + [BAR];
    }
    assert widths[..|widths|] == widths;
    assert Slice(wrapped, k)[..|widths|] == Slice(wrapped, k);
  }

  /** Every cell of every row, wrapped to its column. */
  ghost predicate Wrapped(rows: seq<Row>, widths: seq<nat>, wrapped: seq<seq<seq<Text>>>) {
    && |wrapped| == |rows|
    && forall r | 0 <= r < |rows| :: WrappedRow(rows[r], widths, wrapped[r])
  }

  ghost predicate WrappedRow(row: Row, widths: seq<nat>, wrapped: seq<seq<Text>>) {
    && |wrapped| == |widths|
    && forall c | 0 <= c < |widths| :: Wraps(Cell(row, c), widths[c], wrapped[c])
  }

  method WrapRow(row: Row, widths: seq<nat>) returns (wrapped: seq<seq<Text>>, height: nat)
    requires widths != []
    ensures WrappedRow(row, widths, wrapped)
    ensures height == Tallest(wrapped)
  {
    hide Wraps;
    wrapped := [];
    height := 0;
    for c := 0 to |widths|
      invariant |wrapped| == c
      invariant forall k | 0 <= k < c :: Wraps(Cell(row, k), widths[k], wrapped[k])
      invariant height == Tallest(wrapped)
    {
      var lines := WrapCell(Cell(row, c), widths[c]);
      assert (wrapped + [lines])[..c] == wrapped;
      wrapped := wrapped + [lines];
      height := Max(height, |lines|);
    }
  }

  method DrawRow(widths: seq<nat>, wrapped: seq<seq<Text>>, height: nat) returns (lines: seq<Text>)
    requires |widths| == |wrapped|
    ensures lines == RowLines(widths, wrapped, height)
  {
    hide RowText, Slice;
    lines := [];
    for k := 0 to height
      invariant lines == RowLines(widths, wrapped, k)
    {
      var text := DrawLine(widths, wrapped, k);
      assert RowLines(widths, wrapped, k + 1) == RowLines(widths, wrapped, k) + [text];
      lines := lines + [text];
    }
  }

  lemma BodyNone(widths: seq<nat>)
    requires widths != []
    ensures Body(widths, []) == []
  {
  }

  lemma BodySnoc(widths: seq<nat>, rows: seq<seq<seq<Text>>>, row: seq<seq<Text>>)
    requires widths != [] && |row| == |widths| && forall r | 0 <= r < |rows| :: |rows[r]| == |widths|
    ensures Body(widths, rows + [row])
         == Body(widths, rows) + Divider(widths, rows != []) + RowLines(widths, row, Tallest(row))
  {
    hide RowLines, Divider, Tallest;
    assert (rows + [row])[..|rows|] == rows;
  }

  lemma BodyLast(widths: seq<nat>, rows: seq<seq<seq<Text>>>)
    requires widths != [] && rows != [] && forall r | 0 <= r < |rows| :: |rows[r]| == |widths|
    ensures var last := |rows| - 1;
            Body(widths, rows) == Body(widths, rows[..last]) + Divider(widths, last > 0)
                                  + RowLines(widths, rows[last], Tallest(rows[last]))
  {
    hide RowLines, Divider, Tallest;
  }

  function Frame(widths: seq<nat>): nat {
    Sum(widths) + 3 * |widths| + 1
  }

  /** The table drawn for `rows` in `width` characters: the columns shrunk from the width their
      widest cell needs, just enough for the frame to be as wide as the terminal. */
  method RenderTable(rows: seq<Row>, width: nat)
      returns (lines: seq<Text>, ghost natural: seq<nat>, ghost widths: seq<nat>,
               ghost wrapped: seq<seq<seq<Text>>>)
    ensures Columns(rows) == 0 ==> lines == []
    ensures Columns(rows) > 0 ==>
              && |natural| == |widths| == Columns(rows)
              && (forall c | 0 <= c < |natural| :: natural[c] == Natural(rows, c))
              && ShrunkFrom(natural, widths)
              && Frame(widths) == Min(Frame(natural), Max(width, 4 * Columns(rows) + 1))
              && Wrapped(rows, widths, wrapped)
              && lines == Drawn(widths, wrapped) + [[]]
  {
    hide Columns, Natural, BorderLine, Tallest, Body, RowLines, Slice, ShrunkFrom, Sum, WrappedRow;
    lines, natural, widths, wrapped := [], [], [], [];
    var columns := Columns(rows);
    if columns == 0 {
      return;
    }
    var needed := Measure(rows, columns);
    var spare := columns + 1 + columns * 2;
    var maxContent := if width < spare then 0 else width - spare;
    var ws := Shrink(needed, maxContent);
    natural, widths := needed, ws;
    BodyNone(ws);
    var top := Border(ws, Glyph(0x250C, 1, false), Glyph(0x252C, 1, false), Glyph(0x2510, 1, false));
    lines := [top];
    for r := 0 to |rows|
      invariant |wrapped| == r
      invariant forall k | 0 <= k < r :: WrappedRow(rows[k], ws, wrapped[k]) && |wrapped[k]| == |ws|
      invariant lines == [top] + Body(ws, wrapped) + Divider(ws, 0 < r < |rows|)
    {
      var cells, height := WrapRow(rows[r], ws);
      RowIsWhole(rows[r], ws, cells);
      var drawn := DrawRow(ws, cells, height);
      lines := lines + drawn;
      BodySnoc(ws, wrapped, cells);
      if r + 1 < |rows| {
        var divider := Border(ws, Glyph(0x251C, 1, false), Glyph(0x253C, 1, false), Glyph(0x2524, 1, false));
        lines := lines + [divider];
      }
      wrapped := wrapped + [cells];
    }
    var bottom := Border(ws, Glyph(0x2514, 1, false), Glyph(0x2534, 1, false), Glyph(0x2518, 1, false));
    lines := lines + [bottom];
    lines := lines + [[]];
  }

  lemma RowIsWhole(row: Row, widths: seq<nat>, wrapped: seq<seq<Text>>)
    requires WrappedRow(row, widths, wrapped)
    ensures |wrapped| == |widths|
  {
  }

  // ---- What is seen ----

  /** The number of the first line of row `r`: after the top border come the rows, each with as
      many lines as its tallest cell, and a border after each. */
  function RowStart(rows: seq<seq<seq<Text>>>, r: nat): nat
    requires r <= |rows|
  {
    if r == 0 then 1 else RowStart(rows, r - 1) + Tallest(rows[r - 1]) + 1
  }

  lemma {:induction false} RowStartPrefix(rows: seq<seq<seq<Text>>>, n: nat, r: nat)
    requires r <= n <= |rows|
    ensures RowStart(rows[..n], r) == RowStart(rows, r)
  {
    if r > 0 {
      RowStartPrefix(rows, n, r - 1);
    }
  }

  lemma {:induction false} BodyLength(widths: seq<nat>, rows: seq<seq<seq<Text>>>)
    requires widths != [] && forall r | 0 <= r < |rows| :: |rows[r]| == |widths|
    ensures |Body(widths, rows)| == if rows == [] then 0 else RowStart(rows, |rows|) - 2
  {
    if rows != [] {
      var last := |rows| - 1;
      hide Tallest, RowText, BorderLine;
      BodyLength(widths, rows[..last]);
      RowStartPrefix(rows, last, last);
    }
  }

  lemma {:induction false} BodyAt(widths: seq<nat>, rows: seq<seq<seq<Text>>>, r: nat, k: nat)
    requires widths != [] && forall i | 0 <= i < |rows| :: |rows[i]| == |widths|
    requires r < |rows| && k < Tallest(rows[r])
    ensures 0 <= RowStart(rows, r) - 1 + k < |Body(widths, rows)|
    ensures Body(widths, rows)[RowStart(rows, r) - 1 + k] == RowText(widths, Slice(rows[r], k))
    ensures r > 0 ==> 0 <= RowStart(rows, r) - 2 && [Body(widths, rows)[RowStart(rows, r) - 2]] == Divider(widths, true)
  {
    hide *;
    var last := |rows| - 1;
    var body, divider := Body(widths, rows[..last]), Divider(widths, last > 0);
    var lines := RowLines(widths, rows[last], Tallest(rows[last]));
    BodyLast(widths, rows);
    BodyLength(widths, rows[..last]);
    RowStartPrefix(rows, last, r);
    StartsAfterTop(rows, r);
    DividerOrNone(widths, last > 0);
    if r < last {
      BodyAt(widths, rows[..last], r, k);
      InFirst(body, divider, lines, RowStart(rows, r) - 1 + k);
      if r > 0 {
        InFirst(body, divider, lines, RowStart(rows, r) - 2);
      }
    } else {
      RowStartPrefix(rows, last, last);
      StartOfFirst(rows);
      RowLineAt(widths, rows[last], Tallest(rows[last]), k);
      InLast(body, divider, lines, k);
    }
  }

  lemma StartOfFirst(rows: seq<seq<seq<Text>>>)
    ensures RowStart(rows, 0) == 1
  {
  }

  lemma {:induction false} StartsAfterTop(rows: seq<seq<seq<Text>>>, r: nat)
    requires r <= |rows|
    ensures RowStart(rows, r) >= 1 && (r > 0 ==> RowStart(rows, r) >= 2)
  {
    if r > 0 {
      StartsAfterTop(rows, r - 1);
    }
  }

  lemma DividerOrNone(widths: seq<nat>, drawn: bool)
    requires widths != []
    ensures |Divider(widths, drawn)| == if drawn then 1 else 0
    ensures drawn ==> Divider(widths, drawn) == Divider(widths, true)
  {
  }

  lemma RowLineAt(widths: seq<nat>, wrapped: seq<seq<Text>>, height: nat, k: nat)
    requires |widths| == |wrapped| && k < height
    ensures |RowLines(widths, wrapped, height)| == height
    ensures RowLines(widths, wrapped, height)[k] == RowText(widths, Slice(wrapped, k))
  {
  }

  lemma InFirst<T>(a: seq<T>, b: seq<T>, c: seq<T>, i: nat)
    requires i < |a|
    ensures i < |a + b + c| && (a + b + c)[i] == a[i]
  {
  }

  lemma InLast<T>(a: seq<T>, b: seq<T>, c: seq<T>, k: nat)
    requires k < |c|
    ensures |a| + |b| + k < |a + b + c| && (a + b + c)[|a| + |b| + k] == c[k]
    ensures |b| == 1 ==> [(a + b + c)[|a|]] == b
  {
  }

  lemma {:induction false} RowTextPrefix(widths: seq<nat>, cells: seq<Text>, c: nat)
    requires |widths| == |cells| && c <= |widths|
    ensures RowText(widths[..c], cells[..c]) <= RowText(widths, cells)
  {
    if c == |widths| {
      assert widths[..c] == widths && cells[..c] == cells;
    } else {
      var last := |widths| - 1;
      RowTextPrefix(widths[..last], cells[..last], c);
      assert widths[..last][..c] == widths[..c] && cells[..last][..c] == cells[..c];
    }
  }

  /** Where a cell stands on its line: after what comes to its left, a space before it and
      spaces after it up to the bar. */
  lemma RowShowsCell(widths: seq<nat>, cells: seq<Text>, c: nat)
    requires |widths| == |cells| && c < |widths|
    ensures RowText(widths[..c], cells[..c]) + [SPACE] + cells[c] + Repeat(SPACE, Padding(widths[c], cells[c])) + [BAR]
            <= RowText(widths, cells)
  {
    RowTextPrefix(widths, cells, c + 1);
    RowTextLast(widths[..c + 1], cells[..c + 1]);
    assert widths[..c + 1][..c] == widths[..c] && cells[..c + 1][..c] == cells[..c];
    hide RowText, Repeat;
  }

  /** Line `k` of a cell is on line `k` of its row, left-aligned in its column; below its last
      line the cell is blank.  A border comes before every row. */
  lemma CellIsDrawn(widths: seq<nat>, rows: seq<seq<seq<Text>>>, r: nat, c: nat, k: nat)
    requires widths != [] && forall i | 0 <= i < |rows| :: |rows[i]| == |widths|
    requires r < |rows| && c < |widths| && k < Tallest(rows[r])
    ensures RowStart(rows, r) >= 1 && RowStart(rows, r) + k < |Drawn(widths, rows)|
    ensures var line := Drawn(widths, rows)[RowStart(rows, r) + k];
            var cell := if k < |rows[r][c]| then rows[r][c][k] else [];
            RowText(widths[..c], Slice(rows[r], k)[..c]) + [SPACE] + cell + Repeat(SPACE, Padding(widths[c], cell)) + [BAR]
            <= line
    ensures Drawn(widths, rows)[RowStart(rows, r) - 1]
            == if r == 0 then Top(widths) else Divider(widths, true)[0]
  {
    hide *;
    BodyAt(widths, rows, r, k);
    StartsAfterTop(rows, r);
    StartOfFirst(rows);
    RowShowsCell(widths, Slice(rows[r], k), c);
    SliceAt(rows[r], k, c);
    DrawnAt(widths, rows, RowStart(rows, r) - 1 + k);
    DividerOrNone(widths, true);
    DrawnTop(widths, rows);
    if r > 0 {
      DrawnAt(widths, rows, RowStart(rows, r) - 2);
    }
  }

  lemma SliceAt(wrapped: seq<seq<Text>>, k: nat, c: nat)
    requires c < |wrapped|
    ensures Slice(wrapped, k)[c] == if k < |wrapped[c]| then wrapped[c][k] else []
  {
  }

  lemma DrawnAt(widths: seq<nat>, rows: seq<seq<seq<Text>>>, i: nat)
    requires widths != [] && forall r | 0 <= r < |rows| :: |rows[r]| == |widths|
    requires i < |Body(widths, rows)|
    ensures i + 1 < |Drawn(widths, rows)| && Drawn(widths, rows)[i + 1] == Body(widths, rows)[i]
  {
    hide Body, Top, Bottom;
  }

  /** A border has its corners at the ends and a junction above every bar between columns. */
  lemma BorderShape(widths: seq<nat>, left: Glyph, middle: Glyph, right: Glyph, c: nat)
    requires 0 < c < |widths|
    ensures var line := BorderLine(widths, left, middle, right);
            && |line| == Frame(widths) && line[0] == left && line[|line| - 1] == right
            && 0 < Sum(widths[..c]) + 3 * c < |line| && line[Sum(widths[..c]) + 3 * c] == middle
  {
    var last := |widths| - 1;
    var rule := Rule(widths[..last], middle);
    RuleShape(widths[..last], middle, c);
    assert widths[..last][..c] == widths[..c];
    hide Rule, Repeat;
  }

  lemma {:induction false} RuleShape(widths: seq<nat>, middle: Glyph, c: nat)
    requires 0 < c <= |widths|
    ensures |Rule(widths, middle)| == Sum(widths) + 3 * |widths|
    ensures 0 < Sum(widths[..c]) + 3 * c <= |Rule(widths, middle)|
    ensures Rule(widths, middle)[Sum(widths[..c]) + 3 * c - 1] == middle
  {
    var last := |widths| - 1;
    if last > 0 {
      RuleShape(widths[..last], middle, if c == |widths| then last else c);
    }
    if c == |widths| {
      assert widths[..c] == widths;
    } else {
      assert widths[..last][..c] == widths[..c];
    }
  }

  // ---- Alignment ----

  lemma {:induction false} RuleWidth(widths: seq<nat>, middle: Glyph)
    requires middle.width == 1
    ensures Width(Rule(widths, middle)) == Sum(widths) + 3 * |widths|
  {
    if widths != [] {
      var last := |widths| - 1;
      RuleWidth(widths[..last], middle);
      RepeatWidth(DASH, widths[last] + 2);
      WidthConcat(Rule(widths[..last], middle), Repeat(DASH, widths[last] + 2));
      WidthSnoc(Rule(widths[..last], middle) + Repeat(DASH, widths[last] + 2), middle);
    }
  }

  lemma BorderWidth(widths: seq<nat>, left: Glyph, middle: Glyph, right: Glyph)
    requires widths != [] && left.width == middle.width == right.width == 1
    ensures Width(BorderLine(widths, left, middle, right)) == Frame(widths)
  {
    var last := |widths| - 1;
    var rule, dashes := Rule(widths[..last], middle), Repeat(DASH, widths[last] + 2);
    RuleWidth(widths[..last], middle);
    RepeatWidth(DASH, widths[last] + 2);
    WidthOne(left);
    WidthConcat([left], rule);
    WidthConcat([left] + rule, dashes);
    WidthSnoc([left] + rule + dashes, right);
  }

  predicate CellsFit(widths: seq<nat>, cells: seq<Text>)
    requires |widths| == |cells|
  {
    forall c | 0 <= c < |cells| :: Width(cells[c]) <= widths[c]
  }

  /** A row's line is as wide as the frame exactly when each cell fits its column. */
  lemma {:induction false} RowWidth(widths: seq<nat>, cells: seq<Text>)
    requires |widths| == |cells|
    ensures Width(RowText(widths, cells)) >= Frame(widths)
    ensures Width(RowText(widths, cells)) == Frame(widths) <==> CellsFit(widths, cells)
  {
    hide RowText, Sum, Width, CellsFit;
    if widths == [] {
      NoCells(widths, cells);
    } else {
      var last := |widths| - 1;
      RowWidth(widths[..last], cells[..last]);
      LastCellWidth(widths, cells);
      SumLast(widths);
      CellsFitLast(widths, cells);
    }
  }

  lemma NoCells(widths: seq<nat>, cells: seq<Text>)
    requires widths == [] && cells == []
    ensures Width(RowText(widths, cells)) == 1 && Sum(widths) == 0 && CellsFit(widths, cells)
  {
    WidthOne(BAR);
  }

  lemma SumLast(widths: seq<nat>)
    requires widths != []
    ensures Sum(widths) == Sum(widths[..|widths| - 1]) + widths[|widths| - 1]
  {
  }

  lemma CellsFitLast(widths: seq<nat>, cells: seq<Text>)
    requires |widths| == |cells| > 0
    ensures var last := |widths| - 1;
            CellsFit(widths, cells) <==> CellsFit(widths[..last], cells[..last]) && Width(cells[last]) <= widths[last]
  {
    hide Width;
    var last := |widths| - 1;
    assert forall c | 0 <= c < last :: cells[..last][c] == cells[c] && widths[..last][c] == widths[c];
  }

  lemma LastCellWidth(widths: seq<nat>, cells: seq<Text>)
    requires |widths| == |cells| > 0
    ensures var last := |widths| - 1;
            Width(RowText(widths, cells))
            == Width(RowText(widths[..last], cells[..last])) + 2 + Max(widths[last], Width(cells[last])) + 1
  {
    var last := |widths| - 1;
    hide Width, RowText, Repeat;
    var pad := Padding(widths[last], cells[last]);
    var text, spaces := RowText(widths[..last], cells[..last]), Repeat(SPACE, pad);
    RowTextLast(widths, cells);
    RepeatWidth(SPACE, pad);
    CellWidth(text, cells[last], spaces);
  }

  lemma RowTextLast(widths: seq<nat>, cells: seq<Text>)
    requires |widths| == |cells| > 0
    ensures var last := |widths| - 1;
            RowText(widths, cells)
            == RowText(widths[..last], cells[..last]) + [SPACE] + cells[last]
               + Repeat(SPACE, Padding(widths[last], cells[last])) + [BAR]
  {
    hide Repeat, Padding;
  }

  lemma CellWidth(text: Text, cell: Text, spaces: Text)
    ensures Width(text + [SPACE] + cell + spaces + [BAR]) == Width(text) + 1 + Width(cell) + Width(spaces) + 1
  {
    hide Width;
    WidthSnoc(text, SPACE);
    WidthConcat(text + [SPACE], cell);
    WidthConcat(text + [SPACE] + cell, spaces);
    WidthSnoc(text + [SPACE] + cell + spaces, BAR);
  }

  predicate RowFits(widths: seq<nat>, wrapped: seq<seq<Text>>)
    requires |widths| == |wrapped|
  {
    forall c, k | 0 <= c < |wrapped| && 0 <= k < |wrapped[c]| :: Width(wrapped[c][k]) <= widths[c]
  }

  predicate AllWide(lines: seq<Text>, width: nat) {
    forall i | 0 <= i < |lines| :: Width(lines[i]) == width
  }

  lemma RowAligned(widths: seq<nat>, wrapped: seq<seq<Text>>)
    requires |widths| == |wrapped|
    ensures AllWide(RowLines(widths, wrapped, Tallest(wrapped)), Frame(widths)) <==> RowFits(widths, wrapped)
  {
    var height := Tallest(wrapped);
    var lines := RowLines(widths, wrapped, height);
    TallestBounds(wrapped);
    WidthNone();
    hide Width, RowText, Frame, Tallest;
    forall k | 0 <= k < height
      ensures Width(lines[k]) == Frame(widths)
         <==> forall c | 0 <= c < |wrapped| :: k < |wrapped[c]| ==> Width(wrapped[c][k]) <= widths[c]
    {
      var cells := Slice(wrapped, k);
      RowWidth(widths, cells);
      assert CellsFit(widths, cells) <==> forall c | 0 <= c < |cells| :: Width(cells[c]) <= widths[c];
      assert lines[k] == RowText(widths, cells);
      assert forall c | 0 <= c < |wrapped| :: cells[c] == if k < |wrapped[c]| then wrapped[c][k] else [];
    }
    if AllWide(lines, Frame(widths)) {
      forall c, k | 0 <= c < |wrapped| && 0 <= k < |wrapped[c]|
        ensures Width(wrapped[c][k]) <= widths[c]
      {
        assert k < |lines|;
        assert Width(lines[k]) == Frame(widths);
      }
    }
  }

  lemma AllWideConcat(a: seq<Text>, b: seq<Text>, width: nat)
    ensures AllWide(a + b, width) <==> AllWide(a, width) && AllWide(b, width)
  {
    hide Width;
    assert forall i | 0 <= i < |a| :: (a + b)[i] == a[i];
    assert forall i | 0 <= i < |b| :: (a + b)[|a| + i] == b[i];
  }

  lemma {:induction false} BodyAligned(widths: seq<nat>, rows: seq<seq<seq<Text>>>)
    requires widths != [] && forall r | 0 <= r < |rows| :: |rows[r]| == |widths|
    ensures AllWide(Body(widths, rows), Frame(widths))
       <==> RowsFit(widths, rows)
  {
    if rows != [] {
      var last := |rows| - 1;
      BodyAligned(widths, rows[..last]);
      RowAligned(widths, rows[last]);
      DividerAligned(widths, last > 0);
      RowsFitLast(widths, rows);
      hide *;
      var body, divider := Body(widths, rows[..last]), Divider(widths, last > 0);
      var row := RowLines(widths, rows[last], Tallest(rows[last]));
      BodyLast(widths, rows);
      AllWideConcat(body, divider, Frame(widths));
      AllWideConcat(body + divider, row, Frame(widths));
    }
  }

  predicate RowsFit(widths: seq<nat>, rows: seq<seq<seq<Text>>>)
    requires forall r | 0 <= r < |rows| :: |rows[r]| == |widths|
  {
    forall r | 0 <= r < |rows| :: RowFits(widths, rows[r])
  }

  lemma RowsFitLast(widths: seq<nat>, rows: seq<seq<seq<Text>>>)
    requires rows != [] && forall r | 0 <= r < |rows| :: |rows[r]| == |widths|
    ensures var last := |rows| - 1;
            RowsFit(widths, rows) <==> RowsFit(widths, rows[..last]) && RowFits(widths, rows[last])
  {
    hide RowFits;
    assert forall r | 0 <= r < |rows| - 1 :: rows[..|rows| - 1][r] == rows[r];
  }

  lemma DividerAligned(widths: seq<nat>, drawn: bool)
    requires widths != []
    ensures AllWide(Divider(widths, drawn), Frame(widths))
  {
    BorderWidth(widths, Glyph(0x251C, 1, false), Glyph(0x253C, 1, false), Glyph(0x2524, 1, false));
  }

  lemma {:induction false} InkWidth(t: Text, g: Glyph)
    requires g in Ink(t)
    ensures g.width <= Width(t) && !g.blank
  {
    var last := |t| - 1;
    if g in Ink(t[..last]) {
      InkWidth(t[..last], g);
    }
  }

  /** A wrapped cell is within its column exactly when no character of it is wider. */
  lemma CellFits(t: Text, width: nat, lines: seq<Text>)
    requires Wraps(t, width, lines)
    ensures (forall k | 0 <= k < |lines| :: Width(lines[k]) <= width)
       <==> forall g | g in Ink(t) :: g.width <= width
  {
    hide Words, Distributed, Width;
    forall g | g in Ink(t) ensures exists k :: 0 <= k < |lines| && g.width <= Width(lines[k]) {
      InkShown(lines, g);
    }
    forall k | 0 <= k < |lines| && Width(lines[k]) > width
      ensures exists g :: g in Ink(t) && g.width > width
    {
      LineShown(lines, k);
    }
  }

  lemma InkShown(lines: seq<Text>, g: Glyph)
    requires g in Flatten(InkOf(lines))
    ensures exists k :: 0 <= k < |lines| && g.width <= Width(lines[k])
  {
    FlattenIn(InkOf(lines), g);
    hide Flatten, Ink, Width;
    var k :| 0 <= k < |lines| && g in InkOf(lines)[k];
    InkWidth(lines[k], g);
  }

  lemma LineShown(lines: seq<Text>, k: nat)
    requires k < |lines| && |lines[k]| == 1 && !lines[k][0].blank
    ensures lines[k][0] in Flatten(InkOf(lines))
  {
    WordInk(lines[k]);
    FlattenIn(InkOf(lines), lines[k][0]);
    assert InkOf(lines)[k] == lines[k];
  }

  /** All lines of the table are equally wide, and as wide as its frame, exactly when no
      character is wider than its column. */
  lemma AlignedIff(rows: seq<Row>, widths: seq<nat>, wrapped: seq<seq<seq<Text>>>)
    requires widths != [] && Wrapped(rows, widths, wrapped)
    ensures forall r | 0 <= r < |wrapped| :: |wrapped[r]| == |widths|
    ensures AllWide(Drawn(widths, wrapped), Frame(widths))
       <==> forall r, c, g | 0 <= r < |rows| && 0 <= c < |rows[r]| && c < |widths| && g in Ink(rows[r][c]) ::
              g.width <= widths[c]
  {
    hide Wraps, Frame, Width, BorderLine, Tallest, Ink, Body;
    BodyAligned(widths, wrapped);
    BorderWidth(widths, Glyph(0x250C, 1, false), Glyph(0x252C, 1, false), Glyph(0x2510, 1, false));
    BorderWidth(widths, Glyph(0x2514, 1, false), Glyph(0x2534, 1, false), Glyph(0x2518, 1, false));
    AllWideConcat([Top(widths)], Body(widths, wrapped), Frame(widths));
    AllWideConcat([Top(widths)] + Body(widths, wrapped), [Bottom(widths)], Frame(widths));
    forall r | 0 <= r < |rows|
      ensures RowFits(widths, wrapped[r])
         <==> forall c, g | 0 <= c < |rows[r]| && c < |widths| && g in Ink(rows[r][c]) :: g.width <= widths[c]
    {
      RowFitsIff(rows[r], widths, wrapped[r]);
    }
  }

  lemma RowFitsIff(row: Row, widths: seq<nat>, wrapped: seq<seq<Text>>)
    requires WrappedRow(row, widths, wrapped)
    ensures RowFits(widths, wrapped)
       <==> forall c, g | 0 <= c < |row| && c < |widths| && g in Ink(row[c]) :: g.width <= widths[c]
  {
    forall c | 0 <= c < |widths|
      ensures (forall k | 0 <= k < |wrapped[c]| :: Width(wrapped[c][k]) <= widths[c])
         <==> forall g | g in Ink(Cell(row, c)) :: g.width <= widths[c]
    {
      CellFits(Cell(row, c), widths[c], wrapped[c]);
    }
    hide Wraps, Width;
    assert Ink([]) == [];
    if forall c, g | 0 <= c < |row| && c < |widths| && g in Ink(row[c]) :: g.width <= widths[c] {
      forall c | 0 <= c < |widths|
        ensures forall g | g in Ink(Cell(row, c)) :: g.width <= widths[c]
      {
      }
    }
  }

  /** A character of width two, and what a terminal five characters wide makes of it: the one
      column shrinks to one, and the lines of the table are not equally wide. */
  const WIDE := Glyph(0x4E2D, 2, false)

  method WideCharacterMisaligns() returns (lines: seq<Text>)
    ensures |lines| > 1 && Width(lines[0]) == 5
    ensures exists i :: 0 <= i < |lines| - 1 && Width(lines[i]) != 5
  {
    hide Drawn, Wraps, Wrapped;
    var rows := [[[WIDE]]];
    WidthOne(WIDE);
    NaturalIsLeast(rows, 0, 1);
    NaturalIsLeast(rows, 0, 2);
    assert Cell(rows[0], 0) == [WIDE];
    ghost var natural, widths, wrapped;
    assert Columns(rows) == 1;
    lines, natural, widths, wrapped := RenderTable(rows, 5);
    OneColumn(natural);
    OneColumn(widths);
    AlignedIff(rows, widths, wrapped);
    WordInk([WIDE]);
    assert WIDE in Ink(rows[0][0]);
    DrawnTop(widths, wrapped);
  }

  lemma OneColumn(widths: seq<nat>)
    requires |widths| == 1
    ensures Sum(widths) == widths[0] && Frame(widths) == widths[0] + 4
  {
    assert widths[..0] == [];
  }

  lemma DrawnTop(widths: seq<nat>, wrapped: seq<seq<seq<Text>>>)
    requires widths != [] && forall r | 0 <= r < |wrapped| :: |wrapped[r]| == |widths|
    ensures |Drawn(widths, wrapped)| > 1 && Drawn(widths, wrapped)[0] == Top(widths)
    ensures Width(Top(widths)) == Frame(widths)
    ensures (Drawn(widths, wrapped) + [[]])[..|Drawn(widths, wrapped)|] == Drawn(widths, wrapped)
  {
    BorderWidth(widths, Glyph(0x250C, 1, false), Glyph(0x252C, 1, false), Glyph(0x2510, 1, false));
  }
}
