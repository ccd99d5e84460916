/** What the two `operator<<` overloads for matrices write: each row as
    "[" then its cells separated by single spaces then "]". The older
    template (include/matrix_old.hpp) puts a line break between rows and none
    after the last; the fixed-size one (include/matrix.hpp) ends every row,
    the last included, with a line break. */
module GridText {
  import opened Decimal
  import opened Grids

  /** The cells of a row in decimal, separated by single spaces. */
  function Cells(row: seq<int>): string {
    if |row| == 0 then ""
    else if |row| == 1 then IntToString(row[0])
    else IntToString(row[0]) + " " + Cells(row[1..])
  }

  function RowText(row: seq<int>): string {
    "[" + Cells(row) + "]"
  }

  /** Rows separated by line breaks (include/matrix_old.hpp). */
  function Separated(g: Grid): string {
    if |g| == 0 then ""
    else if |g| == 1 then RowText(g[0])
    else RowText(g[0]) + "\n" + Separated(g[1..])
  }

  /** Rows each followed by a line break (include/matrix.hpp). */
  function Terminated(g: Grid): string {
    if |g| == 0 then "" else RowText(g[0]) + "\n" + Terminated(g[1..])
  }

  /** How often `c` occurs in `s`. */
  function Occurrences(s: string, c: char): nat {
    if |s| == 0 then 0 else (if s[0] == c then 1 else 0) + Occurrences(s[1..], c)
  }

  lemma {:induction false} OccurrencesAppend(a: string, b: string, c: char)
    ensures Occurrences(a + b, c) == Occurrences(a, c) + Occurrences(b, c)
  {
    if |a| > 0 {
      assert (a + b)[1..] == a[1..] + b;
      OccurrencesAppend(a[1..], b, c);
    } else {
      assert a + b == b;
    }
  }

  lemma {:induction false} OccurrencesAbsent(s: string, c: char)
    requires forall k :: 0 <= k < |s| ==> s[k] != c
    ensures Occurrences(s, c) == 0
  {
    if |s| > 0 {
      OccurrencesAbsent(s[1..], c);
    }
  }

  /** A rendered row holds no line break: the cells are digits, signs and
      spaces between brackets. */
  lemma {:induction false} CellsHaveNoLineBreak(row: seq<int>)
    ensures forall k :: 0 <= k < |Cells(row)| ==> Cells(row)[k] != '\n'
  {
    if |row| > 1 {
      CellsHaveNoLineBreak(row[1..]);
      var head := IntToString(row[0]);
      forall k | 0 <= k < |Cells(row)|
        ensures Cells(row)[k] != '\n'
      {
        if k < |head| {
          assert Cells(row)[k] == head[k];
        } else if k > |head| {
          assert Cells(row)[k] == Cells(row[1..])[k - |head| - 1];
        }
      }
    }
  }

  lemma RowHasNoLineBreak(row: seq<int>)
    ensures Occurrences(RowText(row), '\n') == 0
  {
    CellsHaveNoLineBreak(row);
    OccurrencesAbsent(RowText(row), '\n');
  }

  /** The fixed-size renderer writes exactly one line break per row, and a
      non-empty rendering ends with one. */
  lemma {:induction false} TerminatedLines(g: Grid)
    ensures Occurrences(Terminated(g), '\n') == |g|
    ensures |g| > 0 ==> |Terminated(g)| > 0 && Terminated(g)[|Terminated(g)| - 1] == '\n'
  {
    if |g| > 0 {
      TerminatedLines(g[1..]);
      RowHasNoLineBreak(g[0]);
      OccurrencesAppend(RowText(g[0]) + "\n", Terminated(g[1..]), '\n');
      OccurrencesAppend(RowText(g[0]), "\n", '\n');
    }
  }

  /** The older renderer writes one line break fewer than it has rows. */
  lemma {:induction false} SeparatedLines(g: Grid)
    requires |g| > 0
    ensures Occurrences(Separated(g), '\n') == |g| - 1
  {
    RowHasNoLineBreak(g[0]);
    if |g| > 1 {
      SeparatedLines(g[1..]);
      OccurrencesAppend(RowText(g[0]) + "\n", Separated(g[1..]), '\n');
      OccurrencesAppend(RowText(g[0]), "\n", '\n');
    }
  }

  /** Reads back integers separated by single spaces. */
  function ParseCells(s: string): seq<int>
  {
    var k := SpaceIndex(s);
    if k == |s| then
      (match ParseInt(s) case Some(v) => [v] case None => [])
    else
      (match ParseInt(s[..k]) case Some(v) => [v] + ParseCells(s[k + 1..]) case None => [])
  }

  /** Index of the first space in `s`, or `|s|` when there is none. */
  function SpaceIndex(s: string): (k: nat)
    ensures k <= |s|
    ensures forall j :: 0 <= j < k ==> s[j] != ' '
    ensures k < |s| ==> s[k] == ' '
  {
    if |s| == 0 then 0 else if s[0] == ' ' then 0 else 1 + SpaceIndex(s[1..])
  }

  /** The decimal text of an integer holds no space. */
  lemma NumberHasNoSpace(i: int)
    ensures forall j :: 0 <= j < |IntToString(i)| ==> IntToString(i)[j] != ' '
  {
  }

  /** A number without spaces, a space and more text: the number is read
      first and the rest after the space. */
  lemma ParseCellsStep(t: string, rest: string, v: int)
    requires ParseInt(t) == Some(v)
    requires forall j :: 0 <= j < |t| ==> t[j] != ' '
    ensures ParseCells(t + " " + rest) == [v] + ParseCells(rest)
  {
    var s := t + " " + rest;
    assert s[|t|] == ' ';
    assert SpaceIndex(s) == |t|;
    assert s[..|t|] == t;
    assert s[|t| + 1..] == rest;
  }

  /** Reading the cells back gives the row, for a non-empty row. */
  lemma {:induction false} CellsRoundTrip(row: seq<int>)
    requires |row| > 0
    ensures ParseCells(Cells(row)) == row
  {
    var t := IntToString(row[0]);
    IntToStringRoundTrip(row[0]);
    NumberHasNoSpace(row[0]);
    if |row| == 1 {
      assert SpaceIndex(t) == |t|;
    } else {
      ParseCellsStep(t, Cells(row[1..]), row[0]);
      CellsRoundTrip(row[1..]);
      assert [row[0]] + row[1..] == row;
    }
  }

  /** Writing one more cell after a space extends the cell text. */
  lemma {:induction false} CellsAppend(row: seq<int>, x: int)
    requires |row| >= 1
    ensures Cells(row + [x]) == Cells(row) + " " + IntToString(x)
  {
    assert (row + [x])[1..] == row[1..] + [x];
    if |row| > 1 {
      CellsAppend(row[1..], x);
    } else {
      assert [x] == (row + [x])[1..];
    }
  }

  /** Writing one more row extends the fixed-size rendering. */
  lemma {:induction false} TerminatedAppend(g: Grid, row: seq<int>)
    ensures Terminated(g + [row]) == Terminated(g) + RowText(row) + "\n"
  {
    var h := g + [row];
    if |g| > 0 {
      assert h[0] == g[0];
      assert h[1..] == g[1..] + [row];
      TerminatedAppend(g[1..], row);
      var head, rest := RowText(g[0]) + "\n", Terminated(g[1..]);
      assert Terminated(h) == head + Terminated(g[1..] + [row]);
      assert Terminated(g) == head + rest;
    } else {
      assert h == [row];
      assert h[1..] == [];
    }
  }

  /** The fixed-size rendering is the older one followed by a line break. */
  lemma {:induction false} TerminatedIsSeparated(g: Grid)
    requires |g| > 0
    ensures Terminated(g) == Separated(g) + "\n"
  {
    if |g| > 1 {
      TerminatedIsSeparated(g[1..]);
      var head := RowText(g[0]) + "\n";
      assert Terminated(g) == head + Terminated(g[1..]);
      assert Separated(g) == head + Separated(g[1..]);
    } else {
      assert g[1..] == [];
    }
  }

  /** Writing a line break and one more row extends the older rendering. */
  lemma SeparatedAppend(g: Grid, row: seq<int>)
    requires |g| >= 1
    ensures Separated(g + [row]) == Separated(g) + "\n" + RowText(row)
  {
    TerminatedIsSeparated(g);
    TerminatedIsSeparated(g + [row]);
    TerminatedAppend(g, row);
    var a := Separated(g + [row]);
    var b := Separated(g) + "\n" + RowText(row);
    assert a + "\n" == b + "\n";
    assert a == (a + "\n")[..|a|];
    assert b == (b + "\n")[..|b|];
  }

  /** The cell text of the first `j + 1` cells, from that of the first `j`. */
  lemma CellsStep(row: seq<int>, j: nat)
    requires j < |row|
    ensures Cells(row[..j + 1]) == (if j == 0 then "" else Cells(row[..j]) + " ") + IntToString(row[j])
  {
    assert row[..j + 1] == row[..j] + [row[j]];
    if j > 0 {
      CellsAppend(row[..j], row[j]);
    }
  }

  /** What the row loop has written after cell `j` of a row of `n` cells:
      the text before, the cell, and a space unless it was the last. */
  lemma RowTextStep(row: seq<int>, j: nat, prev: string)
    requires j < |row|
    requires prev == "[" + Cells(row[..j]) + (if 0 < j < |row| then " " else "")
    ensures (if j != |row| - 1 then prev + IntToString(row[j]) + " " else prev + IntToString(row[j]))
         == "[" + Cells(row[..j + 1]) + (if 0 < j + 1 < |row| then " " else "")
  {
    var cell := IntToString(row[j]);
    var pre := if j == 0 then "" else Cells(row[..j]) + " ";
    CellsStep(row, j);
    assert Cells(row[..j + 1]) == pre + cell;
    assert prev == "[" + pre;
    assert prev + cell == "[" + (pre + cell);
  }

  /** The row text once all `|row|` cells are written and "]" closes it. */
  lemma RowTextDone(row: seq<int>, out: string)
    requires out == "[" + Cells(row[..|row|])
    ensures out + "]" == RowText(row)
  {
    assert row[..|row|] == row;
  }

  /** The fixed-size rendering of the first `i + 1` rows. */
  lemma TerminatedPrefix(g: Grid, i: nat)
    requires i < |g|
    ensures Terminated(g[..i + 1]) == Terminated(g[..i]) + RowText(g[i]) + "\n"
  {
    TerminatedAppend(g[..i], g[i]);
    assert g[..i + 1] == g[..i] + [g[i]];
  }

  /** The older rendering of the first `i + 1` rows. */
  lemma SeparatedPrefix(g: Grid, i: nat)
    requires i < |g|
    ensures Separated(g[..i + 1]) == (if i == 0 then "" else Separated(g[..i]) + "\n") + RowText(g[i])
  {
    assert g[..i + 1] == g[..i] + [g[i]];
    if i > 0 {
      SeparatedAppend(g[..i], g[i]);
    } else {
      assert g[..1] == [g[0]];
    }
  }

  /** The body of the row loop of both `operator<<` overloads for row `i`
      of the cells `a`: "[", the cells separated by single spaces, "]". */
  method RenderRow(a: array2<int>, i: nat) returns (out: string)
    requires i < a.Length0
    ensures out == RowText(GridOf(a)[i])
  {
    ghost var row := GridOf(a)[i];
    out := "[";
    for j := 0 to a.Length1
      invariant out == "[" + Cells(row[..j]) + (if 0 < j < a.Length1 then " " else "")
    {
      ghost var prev := out;
      var cell := IntToString(a[i, j]);
      out := out + cell;
      if j != a.Length1 - 1 {
        out := out + " ";
      }
      RowTextStep(row, j, prev);
    }
    RowTextDone(row, out);
    out := out + "]";
  }
}
