/** What preprocessor2 computes, as functions of its input table: the feature
    cells of the data lines, their split into numeric and non-numeric cells in
    row-major order, the sparse tokens built from them and the 0/1 metadata
    vector. The class in module Processor is proved to build exactly these. */
module Encoding {
  import opened CppString
  import opened Cells
  import Seqs

  /** The feature cells of each line. */
  function Rows(lines: seq<string>): (rows: seq<seq<string>>)
    ensures |rows| == |lines|
  {
    seq(|lines|, i requires 0 <= i < |lines| => FeatureCells(lines[i]))
  }

  /** The number of the first j strings of fs whose numeric test gives `numeric`. */
  function CountOf(fs: seq<string>, j: nat, isNum: string -> bool, numeric: bool): nat
    requires j <= |fs|
  {
    if j == 0 then 0 else CountOf(fs, j - 1, isNum, numeric) + (if isNum(fs[j - 1]) == numeric then 1 else 0)
  }

  /** The number of cells of the first i rows whose numeric test gives `numeric`. */
  function CountIn(rows: seq<seq<string>>, i: nat, isNum: string -> bool, numeric: bool): nat
    requires i <= |rows|
  {
    if i == 0 then 0 else CountIn(rows, i - 1, isNum, numeric) + CountOf(rows[i - 1], |rows[i - 1]|, isNum, numeric)
  }

  /** Where cell j of row i sits among the cells of its kind: the number of
      cells of that kind before it in row-major order. */
  function KindIndex(rows: seq<seq<string>>, i: nat, j: nat, isNum: string -> bool, numeric: bool): nat
    requires i < |rows| && j <= |rows[i]|
  {
    CountIn(rows, i, isNum, numeric) + CountOf(rows[i], j, isNum, numeric)
  }

  /** The total length of the first n rows. */
  function Sum(rows: seq<seq<string>>, n: nat): nat
    requires n <= |rows|
  {
    if n == 0 then 0 else Sum(rows, n - 1) + |rows[n - 1]|
  }

  /** The number of feature cells of the first n lines, counted from their characters. */
  function TotalCells(lines: seq<string>, n: nat): nat
    requires n <= |lines|
  {
    if n == 0 then 0 else TotalCells(lines, n - 1) + CellCount(lines[n - 1])
  }

  /** A sparse token "value row:1 col:1". */
  function Tok(value: string, row: nat, col: nat): (r: string)
    ensures |r| > |value| && r[..|value|] == value && r[|value|] == ' '
  {
    value + " " + NatToString(row) + ":1 " + NatToString(col) + ":1"
  }

  /** The length of the run of digits that ends s. */
  function TrailingDigits(s: string): nat
  {
    if s == [] || !IsDigit(s[|s| - 1]) then 0 else 1 + TrailingDigits(s[..|s| - 1])
  }

  /** After a string that ends in a non-digit, a run of digits d is exactly
      the trailing digit run. */
  lemma {:induction false} TrailingDigitsAfter(x: string, d: string)
    requires IsDigits(d) && |x| >= 1 && !IsDigit(x[|x| - 1])
    ensures TrailingDigits(x + d) == |d|
    decreases |d|
  {
    var s := x + d;
    if d == [] {
      assert s == x;
    } else {
      var d' := d[..|d| - 1];
      assert s[|s| - 1] == d[|d| - 1];
      assert s[..|s| - 1] == x + d';
      TrailingDigitsAfter(x, d');
    }
  }

  /** A string that ends in a non-digit, followed by a run of digits, splits
      at exactly one place. */
  lemma DigitsSplit(x1: string, d1: string, x2: string, d2: string)
    requires x1 + d1 == x2 + d2 && IsDigits(d1) && IsDigits(d2)
    requires |x1| >= 1 && !IsDigit(x1[|x1| - 1]) && |x2| >= 1 && !IsDigit(x2[|x2| - 1])
    ensures x1 == x2 && d1 == d2
  {
    var s := x1 + d1;
    TrailingDigitsAfter(x1, d1);
    TrailingDigitsAfter(x2, d2);
    assert x1 == s[..|x1|] && x2 == s[..|x2|];
    assert d1 == s[|x1|..] && d2 == s[|x2|..];
  }

  /** A string with a fixed suffix determines what comes before it. */
  lemma StripSuffix(a: string, b: string, suffix: string)
    requires a + suffix == b + suffix
    ensures a == b
  {
    assert a == (a + suffix)[..|a|];
    assert b == (b + suffix)[..|b|];
  }

  /** A token names its cell unambiguously: its value, its row id and its
      column id can all be read back, because the ids are the only digits
      between the last spaces and the ":1" markers. */
  lemma TokInjective(v1: string, r1: nat, c1: nat, v2: string, r2: nat, c2: nat)
    requires Tok(v1, r1, c1) == Tok(v2, r2, c2)
    ensures v1 == v2 && r1 == r2 && c1 == c2
  {
    var x1 := v1 + " " + NatToString(r1) + ":1 ";
    var x2 := v2 + " " + NatToString(r2) + ":1 ";
    StripSuffix(x1 + NatToString(c1), x2 + NatToString(c2), ":1");
    DigitsSplit(x1, NatToString(c1), x2, NatToString(c2));
    var y1 := v1 + " ";
    var y2 := v2 + " ";
    StripSuffix(y1 + NatToString(r1), y2 + NatToString(r2), ":1 ");
    DigitsSplit(y1, NatToString(r1), y2, NatToString(r2));
    StripSuffix(v1, v2, " ");
    NatToStringInjective(r1, r2);
    NatToStringInjective(c1, c2);
  }

  /** The token of cell j of row `row` when column ids start at c0: a numeric
      cell carries its own text, a non-numeric one the placeholder value "0". */
  function CellTok(fs: seq<string>, row: nat, j: nat, c0: nat, numeric: bool): string
    requires j < |fs|
  {
    Tok(if numeric then fs[j] else "0", row, c0 + j)
  }

  /** The tokens of the cells of kind `numeric` among the first j cells of one
      row, in order. */
  function LineTokens(fs: seq<string>, row: nat, j: nat, c0: nat, isNum: string -> bool, numeric: bool): seq<string>
    requires j <= |fs|
  {
    if j == 0 then []
    else
      LineTokens(fs, row, j - 1, c0, isNum, numeric)
        + (if isNum(fs[j - 1]) == numeric then [CellTok(fs, row, j - 1, c0, numeric)] else [])
  }

  /** The tokens of the cells of kind `numeric` of the first i rows, row by row. */
  function RowTokens(rows: seq<seq<string>>, i: nat, c0: nat, isNum: string -> bool, numeric: bool): seq<string>
    requires i <= |rows|
  {
    if i == 0 then []
    else RowTokens(rows, i - 1, c0, isNum, numeric) + LineTokens(rows[i - 1], i - 1, |rows[i - 1]|, c0, isNum, numeric)
  }

  /** The token list preprocessor2(t) builds for the cells whose numeric test
      gives `numeric`: ret[0] for true, ret[1] (the placeholders) for false.
      Row ids count the data lines from 0, column ids start at |t|. */
  function TokenList(t: seq<string>, isNum: string -> bool, numeric: bool): (r: seq<string>)
    requires |t| >= 1
    ensures |r| == CountIn(Rows(t[1..]), |t| - 1, isNum, numeric)
  {
    RowTokensCount(Rows(t[1..]), |t| - 1, |t|, isNum, numeric);
    RowTokens(Rows(t[1..]), |t| - 1, |t|, isNum, numeric)
  }

  /** The value of `col` when the line loop ends: |t| when there is no data line,
      otherwise the column id of the last cell of the last line (the loop never
      increments past that last cell). */
  function FinalCol(t: seq<string>): (c: nat)
    requires |t| >= 1
    ensures c >= |t|
  {
    if |t| == 1 then |t| else |t| + |FeatureCells(t[|t| - 1])| - 1
  }

  /** ret[2] of preprocessor2(t): "0" for the ids below |t|, then "1" up to FinalCol(t). */
  function Meta(t: seq<string>): (r: seq<string>)
    requires |t| >= 1
    ensures |t| == 1 ==> r == ["0"]
    ensures |t| >= 2 ==> r == seq(|t|, _ => "0") + seq(CellCount(t[|t| - 1]) - 1, _ => "1")
  {
    FeatureCellsCount(t[|t| - 1]);
    seq(FinalCol(t), k requires 0 <= k < FinalCol(t) => if k < |t| then "0" else "1")
  }

  /** The tokens of kind `numeric` that preprocessor2's line loop has built
      after data lines 1 .. n of t: the loop's running value of vstr or nstr. */
  function TableTokens(t: seq<string>, n: nat, isNum: string -> bool, numeric: bool): seq<string>
    requires n < |t|
  {
    if n == 0 then []
    else TableTokens(t, n - 1, isNum, numeric) + LineTokens(FeatureCells(t[n]), n - 1, |FeatureCells(t[n])|, |t|, isNum, numeric)
  }

  /** The loop's running value is a prefix of the rows' tokens, and after the
      last data line it is the token list. */
  lemma {:induction false} TableTokensAreRowTokens(t: seq<string>, n: nat, isNum: string -> bool, numeric: bool)
    requires n < |t|
    ensures TableTokens(t, n, isNum, numeric) == RowTokens(Rows(t[1..]), n, |t|, isNum, numeric)
    ensures n == |t| - 1 ==> TableTokens(t, n, isNum, numeric) == TokenList(t, isNum, numeric)
  {
    if n > 0 {
      TableTokensAreRowTokens(t, n - 1, isNum, numeric);
      assert Rows(t[1..])[n - 1] == FeatureCells(t[n]);
    }
  }

  /** The value of col after the line loop, from its value after the last line. */
  lemma FinalColIs(t: seq<string>, col: nat)
    requires |t| >= 1
    requires |t| == 1 ==> col == |t|
    requires |t| > 1 ==> col == |t| + |FeatureCells(t[|t| - 1])| - 1
    ensures col == FinalCol(t)
  {
  }

  /** A vector of |t| entries "0" followed by entries "1" up to index
      FinalCol(t) is Meta(t). */
  lemma MetaEntries(t: seq<string>, n: nat, col: nat, v: seq<string>)
    requires |t| >= 1 && n == |t| && col == FinalCol(t)
    requires |v| == if col < n then n else col
    requires forall k :: 0 <= k < |v| ==> v[k] == (if k < n then "0" else "1")
    ensures v == Meta(t)
  {
  }

  // ---------------------------------------------------------------------------
  // Counting

  /** The cells of a kind before cell j, and cell j itself when it is of that
      kind, are among those of the first n cells. */
  lemma {:induction false} CountOfBound(fs: seq<string>, j: nat, n: nat, isNum: string -> bool, numeric: bool)
    requires j < n <= |fs|
    ensures CountOf(fs, j, isNum, numeric) + (if isNum(fs[j]) == numeric then 1 else 0) <= CountOf(fs, n, isNum, numeric)
    decreases n
  {
    if j < n - 1 {
      CountOfBound(fs, j, n - 1, isNum, numeric);
    }
  }

  /** The same across rows: the cells of a kind in the rows before i, and
      those of row i, are among those of the first n rows. */
  lemma {:induction false} CountInBound(rows: seq<seq<string>>, i: nat, n: nat, isNum: string -> bool, numeric: bool)
    requires i < n <= |rows|
    ensures CountIn(rows, i, isNum, numeric) + CountOf(rows[i], |rows[i]|, isNum, numeric) <= CountIn(rows, n, isNum, numeric)
    decreases n
  {
    if i < n - 1 {
      CountInBound(rows, i, n - 1, isNum, numeric);
    }
  }

  /** Every cell is of exactly one of the two kinds. */
  lemma {:induction false} CountOfPartition(fs: seq<string>, j: nat, isNum: string -> bool)
    requires j <= |fs|
    ensures CountOf(fs, j, isNum, true) + CountOf(fs, j, isNum, false) == j
  {
    if j > 0 {
      CountOfPartition(fs, j - 1, isNum);
    }
  }

  lemma {:induction false} CountInPartition(rows: seq<seq<string>>, i: nat, isNum: string -> bool)
    requires i <= |rows|
    ensures CountIn(rows, i, isNum, true) + CountIn(rows, i, isNum, false) == Sum(rows, i)
  {
    if i > 0 {
      CountInPartition(rows, i - 1, isNum);
      CountOfPartition(rows[i - 1], |rows[i - 1]|, isNum);
    }
  }

  /** The data lines have, all together, as many feature cells as their
      characters say: per line, its number of tabs, or 1 without a tab. */
  lemma {:induction false} RowsCount(lines: seq<string>, n: nat)
    requires n <= |lines|
    ensures Sum(Rows(lines), n) == TotalCells(lines, n)
  {
    if n > 0 {
      RowsCount(lines, n - 1);
      FeatureCellsCount(lines[n - 1]);
    }
  }

  // ---------------------------------------------------------------------------
  // Tokens

  /** One token per cell of the kind. */
  lemma {:induction false} LineTokensCount(fs: seq<string>, row: nat, j: nat, c0: nat, isNum: string -> bool, numeric: bool)
    requires j <= |fs|
    ensures |LineTokens(fs, row, j, c0, isNum, numeric)| == CountOf(fs, j, isNum, numeric)
  {
    if j > 0 {
      LineTokensCount(fs, row, j - 1, c0, isNum, numeric);
    }
  }

  lemma {:induction false} RowTokensCount(rows: seq<seq<string>>, i: nat, c0: nat, isNum: string -> bool, numeric: bool)
    requires i <= |rows|
    ensures |RowTokens(rows, i, c0, isNum, numeric)| == CountIn(rows, i, isNum, numeric)
  {
    if i > 0 {
      RowTokensCount(rows, i - 1, c0, isNum, numeric);
      LineTokensCount(rows[i - 1], i - 1, |rows[i - 1]|, c0, isNum, numeric);
    }
  }

  /** One step of the encoder's cell loop: reading cell c pushes its token
      onto the list of its kind and leaves the other list alone. */
  lemma LineTokensStep(acc: seq<string>, fs: seq<string>, row: nat, c: nat, c0: nat, isNum: string -> bool, numeric: bool)
    requires c < |fs|
    ensures acc + LineTokens(fs, row, c + 1, c0, isNum, numeric)
      == if isNum(fs[c]) == numeric then (acc + LineTokens(fs, row, c, c0, isNum, numeric)) + [CellTok(fs, row, c, c0, numeric)]
         else acc + LineTokens(fs, row, c, c0, isNum, numeric)
  {
    var prev := LineTokens(fs, row, c, c0, isNum, numeric);
    if isNum(fs[c]) == numeric {
      Seqs.AppendAssoc(acc, prev, [CellTok(fs, row, c, c0, numeric)]);
    } else {
      assert prev + [] == prev;
    }
  }

  /** One pass of the encoder's cell loop over cell c: a numeric cell appends
      its token to the numeric list, any other cell its placeholder token to
      the other list, and the list of the other kind stays as it was. */
  lemma EncodeStep(vstr0: seq<string>, nstr0: seq<string>, vstr: seq<string>, nstr: seq<string>,
                   fs: seq<string>, row: nat, c: nat, c0: nat, isNum: string -> bool)
    requires c < |fs|
    requires vstr == vstr0 + LineTokens(fs, row, c, c0, isNum, true)
    requires nstr == nstr0 + LineTokens(fs, row, c, c0, isNum, false)
    ensures isNum(fs[c]) ==>
      && vstr + [Tok(fs[c], row, c0 + c)] == vstr0 + LineTokens(fs, row, c + 1, c0, isNum, true)
      && nstr == nstr0 + LineTokens(fs, row, c + 1, c0, isNum, false)
    ensures !isNum(fs[c]) ==>
      && vstr == vstr0 + LineTokens(fs, row, c + 1, c0, isNum, true)
      && nstr + [Tok("0", row, c0 + c)] == nstr0 + LineTokens(fs, row, c + 1, c0, isNum, false)
  {
    LineTokensStep(vstr0, fs, row, c, c0, isNum, true);
    LineTokensStep(nstr0, fs, row, c, c0, isNum, false);
  }

  /** The token of cell j of a row is, among the tokens of the row's first n
      cells, at the number of cells of its kind before it. */
  lemma {:induction false} LineTokenAt(fs: seq<string>, row: nat, n: nat, j: nat, c0: nat, isNum: string -> bool, numeric: bool)
    requires j < n <= |fs| && isNum(fs[j]) == numeric
    ensures CountOf(fs, j, isNum, numeric) < |LineTokens(fs, row, n, c0, isNum, numeric)|
    ensures LineTokens(fs, row, n, c0, isNum, numeric)[CountOf(fs, j, isNum, numeric)] == CellTok(fs, row, j, c0, numeric)
  {
    var m := n - 1;
    var c := CountOf(fs, j, isNum, numeric);
    var front := LineTokens(fs, row, m, c0, isNum, numeric);
    var back := if isNum(fs[m]) == numeric then [CellTok(fs, row, m, c0, numeric)] else [];
    if j < m {
      LineTokenAt(fs, row, m, j, c0, isNum, numeric);
      assert (front + back)[c] == front[c];
    } else {
      LineTokensCount(fs, row, m, c0, isNum, numeric);
      assert (front + back)[c] == back[0];
    }
  }

  /** The same across rows: the token of cell j of row i is, among the tokens
      of the first n rows, at the cell's KindIndex. */
  lemma {:induction false} RowTokenAt(rows: seq<seq<string>>, n: nat, i: nat, j: nat, c0: nat, isNum: string -> bool, numeric: bool)
    requires i < n <= |rows| && j < |rows[i]| && isNum(rows[i][j]) == numeric
    ensures KindIndex(rows, i, j, isNum, numeric) < |RowTokens(rows, n, c0, isNum, numeric)|
    ensures RowTokens(rows, n, c0, isNum, numeric)[KindIndex(rows, i, j, isNum, numeric)] == CellTok(rows[i], i, j, c0, numeric)
  {
    var m := n - 1;
    var k := KindIndex(rows, i, j, isNum, numeric);
    var fs := rows[m];
    var front := RowTokens(rows, m, c0, isNum, numeric);
    var back := LineTokens(fs, m, |fs|, c0, isNum, numeric);
    var all := RowTokens(rows, n, c0, isNum, numeric);
    assert all == front + back;
    if i < m {
      RowTokenAt(rows, m, i, j, c0, isNum, numeric);
      assert all[k] == front[k];
    } else {
      RowTokensCount(rows, m, c0, isNum, numeric);
      var d := CountOf(fs, j, isNum, numeric);
      assert k == |front| + d;
      LineTokenAt(fs, m, |fs|, j, c0, isNum, numeric);
      assert all[k] == back[d];
    }
  }

  /** Conversely, token k of a row's first n cells comes from some cell j of
      the kind, with exactly k cells of that kind before it. */
  lemma {:induction false} LocateInLine(fs: seq<string>, row: nat, n: nat, k: nat, c0: nat, isNum: string -> bool, numeric: bool)
    returns (j: nat)
    requires n <= |fs| && k < |LineTokens(fs, row, n, c0, isNum, numeric)|
    ensures j < n && isNum(fs[j]) == numeric && CountOf(fs, j, isNum, numeric) == k
    ensures LineTokens(fs, row, n, c0, isNum, numeric)[k] == CellTok(fs, row, j, c0, numeric)
  {
    var m := n - 1;
    var front := LineTokens(fs, row, m, c0, isNum, numeric);
    var back := if isNum(fs[m]) == numeric then [CellTok(fs, row, m, c0, numeric)] else [];
    LineTokensCount(fs, row, m, c0, isNum, numeric);
    if k < |front| {
      j := LocateInLine(fs, row, m, k, c0, isNum, numeric);
      assert (front + back)[k] == front[k];
    } else {
      j := m;
      assert (front + back)[k] == back[0];
    }
  }

  lemma {:induction false} LocateInRows(rows: seq<seq<string>>, n: nat, k: nat, c0: nat, isNum: string -> bool, numeric: bool)
    returns (i: nat, j: nat)
    requires n <= |rows| && k < |RowTokens(rows, n, c0, isNum, numeric)|
    ensures i < n && j < |rows[i]| && isNum(rows[i][j]) == numeric
    ensures k == KindIndex(rows, i, j, isNum, numeric)
    ensures RowTokens(rows, n, c0, isNum, numeric)[k] == CellTok(rows[i], i, j, c0, numeric)
  {
    var m := n - 1;
    var fs := rows[m];
    var front := RowTokens(rows, m, c0, isNum, numeric);
    var back := LineTokens(fs, m, |fs|, c0, isNum, numeric);
    RowTokensCount(rows, m, c0, isNum, numeric);
    if k < |front| {
      i, j := LocateInRows(rows, m, k, c0, isNum, numeric);
      assert (front + back)[k] == front[k];
    } else {
      i := m;
      j := LocateInLine(fs, m, |fs|, k - |front|, c0, isNum, numeric);
      assert (front + back)[k] == back[k - |front|];
    }
  }

  // ---------------------------------------------------------------------------
  // Properties of preprocessor2's result

  /** Token count: each list has one token per cell of its kind, and the two
      together one per feature cell of the data lines, i.e. per line its
      number of tabs, or 1. */
  lemma TokenCount(t: seq<string>, isNum: string -> bool)
    requires |t| >= 1
    ensures |TokenList(t, isNum, true)| == CountIn(Rows(t[1..]), |t| - 1, isNum, true)
    ensures |TokenList(t, isNum, false)| == CountIn(Rows(t[1..]), |t| - 1, isNum, false)
    ensures |TokenList(t, isNum, true)| + |TokenList(t, isNum, false)| == TotalCells(t[1..], |t| - 1)
  {
    var rows := Rows(t[1..]);
    var n := |t| - 1;
    RowTokensCount(rows, n, |t|, isNum, true);
    RowTokensCount(rows, n, |t|, isNum, false);
    assert CountIn(rows, n, isNum, true) + CountIn(rows, n, isNum, false) == TotalCells(t[1..], n) by {
      CountInPartition(rows, n, isNum);
      RowsCount(t[1..], n);
    }
  }

  /** Token content and order: feature cell j of data line t[i] has its token
      in ret[0] when it is numeric and in ret[1] otherwise, at the number of
      cells of the same kind that precede it in row-major order; the token
      carries row id i - 1 and column id |t| + j. */
  lemma TokenOfCell(t: seq<string>, i: nat, j: nat, isNum: string -> bool, numeric: bool)
    requires 1 <= i < |t| && j < |FeatureCells(t[i])|
    requires isNum(FeatureCells(t[i])[j]) == numeric
    ensures var k := KindIndex(Rows(t[1..]), i - 1, j, isNum, numeric);
      k < |TokenList(t, isNum, numeric)|
      && TokenList(t, isNum, numeric)[k] == Tok(if numeric then FeatureCells(t[i])[j] else "0", i - 1, |t| + j)
  {
    var rows := Rows(t[1..]);
    assert rows[i - 1] == FeatureCells(t[i]);
    RowTokenAt(rows, |t| - 1, i - 1, j, |t|, isNum, numeric);
  }

  /** Conversely, every token of ret[0] (numeric) or ret[1] (not numeric)
      comes from one feature cell of one data line: the one whose ids it
      carries, with k cells of its kind before it in row-major order. */
  lemma CellOfToken(t: seq<string>, k: nat, isNum: string -> bool, numeric: bool)
    returns (i: nat, j: nat)
    requires |t| >= 1 && k < |TokenList(t, isNum, numeric)|
    ensures 1 <= i < |t| && j < |FeatureCells(t[i])|
    ensures isNum(FeatureCells(t[i])[j]) == numeric
    ensures k == KindIndex(Rows(t[1..]), i - 1, j, isNum, numeric)
    ensures TokenList(t, isNum, numeric)[k] == Tok(if numeric then FeatureCells(t[i])[j] else "0", i - 1, |t| + j)
  {
    var rows := Rows(t[1..]);
    var i' := 0;
    i', j := LocateInRows(rows, |t| - 1, k, |t|, isNum, numeric);
    i := i' + 1;
    assert rows[i'] == FeatureCells(t[i]);
  }

  /** The metadata vector stops one short of the last column id in use: the
      token of the last cell of the last data line carries column id
      |Meta(t)|, so that id has no entry in ret[2]. */
  lemma MetaMissesLastColumn(t: seq<string>, isNum: string -> bool)
    requires |t| >= 2
    ensures var i := |t| - 1;
      var cell := FeatureCells(t[i])[|FeatureCells(t[i])| - 1];
      Tok(if isNum(cell) then cell else "0", i - 1, |Meta(t)|) in TokenList(t, isNum, isNum(cell))
  {
    var i := |t| - 1;
    var j := |FeatureCells(t[i])| - 1;
    var cell := FeatureCells(t[i])[j];
    TokenOfCell(t, i, j, isNum, isNum(cell));
    FeatureCellsCount(t[i]);
  }

  /** A header-only table gives no tokens and the metadata vector ["0"]. */
  lemma HeaderOnly(t: seq<string>, isNum: string -> bool)
    requires |t| == 1
    ensures TokenList(t, isNum, true) == [] && TokenList(t, isNum, false) == []
    ensures Meta(t) == ["0"]
  {
  }

  /** A line that ends in a tab contributes, for its last (empty) cell, a
      placeholder token, given that the numeric test rejects "" (stof throws
      invalid_argument on an empty string). */
  lemma TrailingTabPlaceholder(t: seq<string>, i: nat, isNum: string -> bool)
    requires !isNum("")
    requires 1 <= i < |t| && |t[i]| >= 1 && t[i][|t[i]| - 1] == TAB
    ensures Tok("0", i - 1, |t| + |FeatureCells(t[i])| - 1) in TokenList(t, isNum, false)
  {
    var j := |FeatureCells(t[i])| - 1;
    TrailingTabEmptyCell(t[i]);
    TokenOfCell(t, i, j, isNum, false);
  }
}
