/**
 The table renderer (`justify`, `printTableConsole`, `writeTableFile`): a
 header line and one line per ranked entry, the first column left-justified
 with `_` to a width computed from the entries alone, the count written right
 after it. The console gets the lines; the file gets the same lines, each
 followed by a newline.
 */
module Table {
  import opened Text
  import opened LoginTally

  /** Added to the widest cell to get the column width. */
  const Padding := 5

  /** Pads the first column. */
  const Fill := '_'

  const NameLabel := "Name"
  const CountLabel := "No. of logins"

  /** The wider of an entry's two cells, its name and its decimal count. */
  function CellWidth(e: Entry): nat
  {
    Max(|e.name|, |Decimal(e.count)|)
  }

  /** The widest cell over all entries. */
  function WidestCell(rows: seq<Entry>): (w: nat)
    requires |rows| > 0
    ensures forall i :: 0 <= i < |rows| ==> CellWidth(rows[i]) <= w
    ensures exists i :: 0 <= i < |rows| && CellWidth(rows[i]) == w
  {
    if |rows| == 1 then CellWidth(rows[0])
    else
      var w := WidestCell(rows[1..]);
      assert forall i :: 1 <= i < |rows| ==> rows[i] == rows[1..][i - 1];
      assert exists i :: 1 <= i < |rows| && CellWidth(rows[i]) == w by {
        var k :| 0 <= k < |rows[1..]| && CellWidth(rows[1..][k]) == w;
        assert CellWidth(rows[k + 1]) == w;
      }
      Max(CellWidth(rows[0]), w)
  }

  /** `colWidth`: the longest name or decimal count, plus `Padding`. The two
      header labels take no part in it. */
  function ColumnWidth(rows: seq<Entry>): (w: nat)
    requires |rows| > 0
    ensures forall i :: 0 <= i < |rows| ==>
              |rows[i].name| + Padding <= w && |Decimal(rows[i].count)| + Padding <= w
    ensures exists i :: 0 <= i < |rows| &&
              (w == |rows[i].name| + Padding || w == |Decimal(rows[i].count)| + Padding)
    ensures w >= Padding + 1
  {
    WidestCell(rows) + Padding
  }

  /** The header line: `Name` padded with `_` to the column width, then the
      count label at its own width. */
  function Header(width: nat): string
  {
    LeftJustify(NameLabel, width, Fill) + RightJustify(CountLabel, |CountLabel|, ' ')
  }

  /** The header is `Name`, then `_` up to the column width, then the count
      label unpadded. */
  lemma HeaderLayout(width: nat)
    ensures |Header(width)| == Max(|NameLabel|, width) + |CountLabel|
    ensures Header(width)[..|NameLabel|] == NameLabel
    ensures forall i :: |NameLabel| <= i < Max(|NameLabel|, width) ==> Header(width)[i] == Fill
    ensures Header(width)[Max(|NameLabel|, width)..] == CountLabel
  {
    var first := LeftJustify(NameLabel, width, Fill);
    var r := Header(width);
    assert r[..|NameLabel|] == first[..|NameLabel|];
  }

  /** `justify`: the name padded with `_` to the column width (a longer name
      is kept whole), then the decimal count. */
  function Justify(e: Entry, width: nat): string
  {
    LeftJustify(e.name, width, Fill) + Decimal(e.count)
  }

  /** A row is the name, then `_` up to the column width, then the decimal
      count, which reads back as the entry's count. */
  lemma JustifyLayout(e: Entry, width: nat)
    ensures |Justify(e, width)| == Max(|e.name|, width) + |Decimal(e.count)|
    ensures Justify(e, width)[..|e.name|] == e.name
    ensures forall i :: |e.name| <= i < Max(|e.name|, width) ==> Justify(e, width)[i] == Fill
    ensures Justify(e, width)[Max(|e.name|, width)..] == Decimal(e.count)
    ensures DecimalValue(Justify(e, width)[Max(|e.name|, width)..]) == e.count
  {
    var first := LeftJustify(e.name, width, Fill);
    var r := Justify(e, width);
    assert r[..|e.name|] == first[..|e.name|];
    DecimalRoundTrip(e.count);
  }

  /** One justified line per entry, in order. */
  function JustifyAll(rows: seq<Entry>, width: nat): (lines: seq<string>)
    ensures |lines| == |rows|
    ensures forall i :: 0 <= i < |rows| ==> lines[i] == Justify(rows[i], width)
  {
    if rows == [] then []
    else JustifyAll(rows[..|rows| - 1], width) + [Justify(rows[|rows| - 1], width)]
  }

  /** The lines `printTableConsole` prints: the header, then one row per entry. */
  function ConsoleLines(rows: seq<Entry>): (lines: seq<string>)
    requires |rows| > 0
    ensures |lines| == |rows| + 1
  {
    var w := ColumnWidth(rows);
    [Header(w)] + JustifyAll(rows, w)
  }

  /** The rows part of the text `writeTableFile` builds: each row followed by
      a newline, appended one entry at a time. */
  function RowsText(rows: seq<Entry>, width: nat): string
  {
    if rows == [] then []
    else RowsText(rows[..|rows| - 1], width) + Justify(rows[|rows| - 1], width) + "\n"
  }

  /** The text `writeTableFile` writes. */
  function FileText(rows: seq<Entry>): string
    requires |rows| > 0
  {
    var w := ColumnWidth(rows);
    Header(w) + "\n" + RowsText(rows, w)
  }

  /** Each line followed by a newline. */
  function Terminated(lines: seq<string>): string
  {
    if lines == [] then [] else lines[0] + "\n" + Terminated(lines[1..])
  }

  lemma {:induction false} TerminatedAppend(a: seq<string>, b: seq<string>)
    ensures Terminated(a + b) == Terminated(a) + Terminated(b)
    decreases |a|
  {
    if a != [] {
      assert (a + b)[1..] == a[1..] + b;
      TerminatedAppend(a[1..], b);
    } else {
      assert a + b == b;
    }
  }

  /** The file holds exactly the console lines, in order, each followed by a
      newline. */
  lemma FileTextIsConsoleLines(rows: seq<Entry>)
    requires |rows| > 0
    ensures FileText(rows) == Terminated(ConsoleLines(rows))
  {
    var w := ColumnWidth(rows);
    RowsTextIsTerminated(rows, w);
    assert ConsoleLines(rows)[1..] == JustifyAll(rows, w);
  }

  lemma {:induction false} RowsTextIsTerminated(rows: seq<Entry>, width: nat)
    ensures RowsText(rows, width) == Terminated(JustifyAll(rows, width))
    decreases |rows|
  {
    if rows != [] {
      var init := rows[..|rows| - 1];
      var last := Justify(rows[|rows| - 1], width);
      var front := JustifyAll(init, width);
      assert JustifyAll(rows, width) == front + [last];
      assert RowsText(rows, width) == RowsText(init, width) + last + "\n";
      RowsTextIsTerminated(init, width);
      TerminatedAppend(front, [last]);
      assert Terminated([last]) == last + "\n" + Terminated([]);
    }
  }

  /** Terminating every line is joining the lines and one empty line with
      newlines. */
  lemma {:induction false} TerminatedIsJoin(lines: seq<string>)
    ensures Terminated(lines) == Join(lines + [""], '\n')
    decreases |lines|
  {
    if lines != [] {
      TerminatedIsJoin(lines[1..]);
      assert (lines + [""])[1..] == lines[1..] + [""];
    }
  }

  /** No console line holds a newline, provided no name does. */
  lemma ConsoleLinesHaveNoNewline(rows: seq<Entry>)
    requires |rows| > 0
    requires forall i :: 0 <= i < |rows| ==> '\n' !in rows[i].name
    ensures forall i :: 0 <= i < |ConsoleLines(rows)| ==> '\n' !in ConsoleLines(rows)[i]
  {
    var w := ColumnWidth(rows);
    var rest := JustifyAll(rows, w);
    HeaderHasNoNewline(w);
    forall i | 0 <= i < |rest|
      ensures '\n' !in rest[i]
    {
      JustifyHasNoNewline(rows[i], w);
    }
    assert ConsoleLines(rows) == [Header(w)] + rest;
  }

  lemma HeaderHasNoNewline(width: nat)
    ensures '\n' !in Header(width)
  {
    var h := Header(width);
    var m := Max(|NameLabel|, width);
    HeaderLayout(width);
    forall k | 0 <= k < |h|
      ensures h[k] != '\n'
    {
      if k < |NameLabel| {
        assert h[k] == h[..|NameLabel|][k];
      } else if k >= m {
        assert h[k] == h[m..][k - m];
      }
    }
  }

  lemma JustifyHasNoNewline(e: Entry, width: nat)
    requires '\n' !in e.name
    ensures '\n' !in Justify(e, width)
  {
    var r := Justify(e, width);
    var m := Max(|e.name|, width);
    JustifyLayout(e, width);
    forall k | 0 <= k < |r|
      ensures r[k] != '\n'
    {
      if k < |e.name| {
        assert r[k] == r[..|e.name|][k];
      } else if k >= m {
        assert r[k] == r[m..][k - m];
        assert IsDigit(Decimal(e.count)[k - m]);
      }
    }
  }

  /** Reading the file back and splitting it at newlines gives the console
      lines, then the empty remainder after the final newline: one header,
      one line per entry, nothing else. */
  lemma FileSplitsIntoConsoleLines(rows: seq<Entry>)
    requires |rows| > 0
    requires forall i :: 0 <= i < |rows| ==> '\n' !in rows[i].name
    ensures Split(FileText(rows), '\n') == ConsoleLines(rows) + [""]
    ensures multiset(FileText(rows))['\n'] == |rows| + 1
  {
    var lines := ConsoleLines(rows);
    FileTextIsConsoleLines(rows);
    TerminatedIsJoin(lines);
    ConsoleLinesHaveNoNewline(rows);
    assert forall i :: 0 <= i < |lines + [""]| ==> '\n' !in (lines + [""])[i];
    SplitJoin(lines + [""], '\n');
    SplitCount(FileText(rows), '\n');
  }

  /** The columns line up: in every row the count starts at the column
      width and reads back as the entry's count; the header holds `Name`
      padded with `_` up to that column and the count label after it. */
  lemma ColumnsAlign(rows: seq<Entry>)
    requires |rows| > 0
    ensures var w := ColumnWidth(rows);
            && ConsoleLines(rows)[0][..w] == LeftJustify(NameLabel, w, Fill)
            && ConsoleLines(rows)[0][w..] == CountLabel
            && forall i :: 0 <= i < |rows| ==>
                 && ConsoleLines(rows)[i + 1][..|rows[i].name|] == rows[i].name
                 && ConsoleLines(rows)[i + 1][w..] == Decimal(rows[i].count)
                 && DecimalValue(ConsoleLines(rows)[i + 1][w..]) == rows[i].count
  {
    var w := ColumnWidth(rows);
    var rest := JustifyAll(rows, w);
    assert ConsoleLines(rows) == [Header(w)] + rest;
    HeaderAligns(w);
    RowsAlign(rows, w);
    assert forall i :: 0 <= i < |rows| ==> ConsoleLines(rows)[i + 1] == rest[i];
  }

  /** Every row whose name fits the column has its count at the column width. */
  lemma RowsAlign(rows: seq<Entry>, width: nat)
    requires forall i :: 0 <= i < |rows| ==> |rows[i].name| <= width
    ensures forall i :: 0 <= i < |rows| ==>
              && JustifyAll(rows, width)[i][..|rows[i].name|] == rows[i].name
              && JustifyAll(rows, width)[i][width..] == Decimal(rows[i].count)
              && DecimalValue(JustifyAll(rows, width)[i][width..]) == rows[i].count
  {
    forall i | 0 <= i < |rows|
      ensures JustifyAll(rows, width)[i][..|rows[i].name|] == rows[i].name
      ensures JustifyAll(rows, width)[i][width..] == Decimal(rows[i].count)
      ensures DecimalValue(JustifyAll(rows, width)[i][width..]) == rows[i].count
    {
      RowAligns(rows[i], width);
    }
  }

  /** A header whose label fits the column has the count label at the
      column width. */
  lemma HeaderAligns(width: nat)
    requires |NameLabel| <= width
    ensures Header(width)[..width] == LeftJustify(NameLabel, width, Fill)
    ensures Header(width)[width..] == CountLabel
  {
    HeaderLayout(width);
  }

  /** A row whose name fits the column has its count at the column width. */
  lemma RowAligns(e: Entry, width: nat)
    requires |e.name| <= width
    ensures Justify(e, width)[..|e.name|] == e.name
    ensures Justify(e, width)[width..] == Decimal(e.count)
    ensures DecimalValue(Justify(e, width)[width..]) == e.count
  {
    JustifyLayout(e, width);
  }

  /** The two-entry tally `{Alice: 2, Bob: 1}`: width 5 + 5 = 10, since the
      longer header label does not count. */
  lemma TwoPlayerTable()
    ensures ConsoleLines([Entry("Alice", 2), Entry("Bob", 1)])
            == ["Name______No. of logins", "Alice_____2", "Bob_______1"]
  {
    var rows := [Entry("Alice", 2), Entry("Bob", 1)];
    TwoPlayerWidth();
    TwoPlayerLines();
    var lines := ConsoleLines(rows);
    assert lines[0] == Header(10);
    assert lines[1] == Justify(rows[0], 10);
    assert lines[2] == Justify(rows[1], 10);
  }

  lemma TwoPlayerWidth()
    ensures ColumnWidth([Entry("Alice", 2), Entry("Bob", 1)]) == 10
  {
    var rows := [Entry("Alice", 2), Entry("Bob", 1)];
    assert Decimal(2) == "2" && Decimal(1) == "1";
    assert CellWidth(rows[0]) == 5 && CellWidth(rows[1]) == 3;
    assert rows[1..] == [rows[1]];
  }

  lemma TwoPlayerLines()
    ensures Header(10) == "Name______No. of logins"
    ensures Justify(Entry("Alice", 2), 10) == "Alice_____2"
    ensures Justify(Entry("Bob", 1), 10) == "Bob_______1"
  {
    HeaderAtTen();
    JustifyAlice();
    JustifyBob();
  }

  lemma HeaderAtTen()
    ensures Header(10) == "Name______No. of logins"
  {
    assert seq(6, _ => Fill) == "______";
    assert LeftJustify(NameLabel, 10, Fill) == "Name______";
    assert RightJustify(CountLabel, |CountLabel|, ' ') == CountLabel;
    assert Header(10) == "Name______" + CountLabel;
  }

  lemma JustifyAlice()
    ensures Justify(Entry("Alice", 2), 10) == "Alice_____2"
  {
    assert Decimal(2) == "2";
    assert seq(5, _ => Fill) == "_____";
    assert LeftJustify("Alice", 10, Fill) == "Alice_____";
  }

  lemma JustifyBob()
    ensures Justify(Entry("Bob", 1), 10) == "Bob_______1"
  {
    assert Decimal(1) == "1";
    assert seq(7, _ => Fill) == "_______";
    assert LeftJustify("Bob", 10, Fill) == "Bob_______";
  }
}
