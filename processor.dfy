/** The PrePostProcessor object: it keeps every line it has encoded in
    obsLines and the size of the last encoded table in totalLine; the decoder
    replays the cell split over the retained lines. */
module Processor {
  import opened CppString
  import opened Cells
  import opened Encoding
  import opened Decoding
  import Seqs

  /** The placeholder token as the encoder spells it is Tok("0", ...). */
  lemma PlaceholderTok(row: nat, col: nat)
    ensures "0 " + NatToString(row) + ":1 " + NatToString(col) + ":1" == Tok("0", row, col)
  {
    assert "0 " == "0" + " ";
  }

  class PrePostProcessor {
    /** Every line passed to the encoder so far, header lines included. */
    var obsLines: seq<string>
    /** The number of lines (header included) of the last encoded table. */
    var totalLine: int
    /** Whether stof accepts a cell: one test shared by the encoder and the decoder. */
    const isNum: string -> bool
    /** to_string on a prediction. */
    const fmt: real -> string

    /** Every retained line is a std::string, so it is shorter than npos. */
    ghost predicate Valid()
      reads this
    {
      AllFit(obsLines)
    }

    /** A fresh object retains no line; totalLine is left uninitialised. */
    constructor(isNum: string -> bool, fmt: real -> string)
      ensures Valid() && obsLines == []
      ensures this.isNum == isNum && this.fmt == fmt
    {
      this.isNum := isNum;
      this.fmt := fmt;
      obsLines := [];
    }

    /** The body of preprocessor2's line loop for one data line str with row
        id `row`: the token of every feature cell is pushed onto vstr (numeric)
        or nstr (placeholder) with column ids from c0 on; col ends at the
        column id of the last cell. */
    method EncodeLine(str: string, row: nat, c0: nat, vstr0: seq<string>, nstr0: seq<string>)
      returns (vstr: seq<string>, nstr: seq<string>, col: nat)
      requires Fits(str)
      ensures vstr == vstr0 + LineTokens(FeatureCells(str), row, |FeatureCells(str)|, c0, isNum, true)
      ensures nstr == nstr0 + LineTokens(FeatureCells(str), row, |FeatureCells(str)|, c0, isNum, false)
      ensures col == c0 + |FeatureCells(str)| - 1
    {
      vstr, nstr := vstr0, nstr0;
      ghost var fs := FeatureCells(str);
      var posFirstTab := Find(str, TAB, 0);
      var pos1 := SizeAdd(posFirstTab, 1);
      FirstTab(str);
      col := c0;
      ghost var c := 0;
      var pos2 := Find(str, TAB, pos1);
      var item: string;
      while pos2 != NPOS
        invariant c < |fs| && pos1 == CellPos(str, c) && pos2 == Find(str, TAB, pos1)
        invariant col == c0 + c
        invariant vstr == vstr0 + LineTokens(fs, row, c, c0, isNum, true)
        invariant nstr == nstr0 + LineTokens(fs, row, c, c0, isNum, false)
        decreases |str| - pos1
      {
        ScanStep(str, c, pos1, pos2);
        item := Substr(str, pos1, pos2 - pos1);
        EncodeStep(vstr0, nstr0, vstr, nstr, fs, row, c, c0, isNum);
        if isNum(item) {
          item := item + " " + NatToString(row) + ":1 " + NatToString(col) + ":1";
          vstr := vstr + [item];
        } else {
          item := "0 " + NatToString(row) + ":1 " + NatToString(col) + ":1";
          PlaceholderTok(row, col);
          nstr := nstr + [item];
        }
        pos1 := pos2 + 1;
        col := col + 1;
        c := c + 1;
        pos2 := Find(str, TAB, pos1);
      }
      ScanStep(str, c, pos1, pos2);
      item := Substr(str, pos1, pos2 - pos1);
      EncodeStep(vstr0, nstr0, vstr, nstr, fs, row, c, c0, isNum);
      if isNum(item) {
        item := item + " " + NatToString(row) + ":1 " + NatToString(col) + ":1";
        vstr := vstr + [item];
      } else {
        item := "0 " + NatToString(row) + ":1 " + NatToString(col) + ":1";
        PlaceholderTok(row, col);
        nstr := nstr + [item];
      }
    }

    /** The two loops of preprocessor2 that build vmeta: "0" for each of the
        n ids 0 .. n - 1, then "1" for each id from n up to col. */
    method BuildMeta(n: nat, col: nat) returns (vmeta: seq<string>)
      ensures |vmeta| == if col < n then n else col
      ensures forall k :: 0 <= k < |vmeta| ==> vmeta[k] == (if k < n then "0" else "1")
    {
      vmeta := [];
      var i := 0;
      while i < n
        invariant 0 <= i <= n
        invariant |vmeta| == i && forall k :: 0 <= k < i ==> vmeta[k] == "0"
      {
        vmeta := vmeta + ["0"];
        i := i + 1;
      }
      i := n;
      while i < col
        invariant n <= i && |vmeta| == i
        invariant i <= (if col < n then n else col)
        invariant forall k :: 0 <= k < i ==> vmeta[k] == (if k < n then "0" else "1")
      {
        vmeta := vmeta + ["1"];
        i := i + 1;
      }
    }

    /** preprocessor2: encodes the table t, whose line 0 is the header. */
    method Preprocessor2(dataTable: seq<string>) returns (ret: seq<seq<string>>)
      requires Valid() && |dataTable| >= 1
      requires AllFit(dataTable)
      modifies this
      ensures Valid()
      ensures obsLines == old(obsLines) + dataTable
      ensures totalLine == |dataTable|
      ensures |ret| == 3
      ensures ret[0] == TokenList(dataTable, isNum, true)
      ensures ret[1] == TokenList(dataTable, isNum, false)
      ensures ret[2] == Meta(dataTable)
    {
      totalLine := |dataTable|;
      var vstr: seq<string> := [];
      var nstr: seq<string> := [];
      var vmeta: seq<string>;
      var str := dataTable[0];
      obsLines := obsLines + [str];
      var row: nat := 0;
      var col: nat := totalLine;
      var dataI := 1;
      while dataI < totalLine
        invariant 1 <= dataI <= totalLine == |dataTable|
        invariant obsLines == old(obsLines) + dataTable[..dataI]
        invariant row == dataI - 1
        invariant vstr == TableTokens(dataTable, row, isNum, true)
        invariant nstr == TableTokens(dataTable, row, isNum, false)
        invariant dataI == 1 ==> col == totalLine
        invariant dataI > 1 ==> col == totalLine + |FeatureCells(dataTable[dataI - 1])| - 1
      {
        str := dataTable[dataI];
        assert Fits(str);
        Seqs.ExtendTake(old(obsLines), dataTable, dataI);
        obsLines := obsLines + [str];
        vstr, nstr, col := EncodeLine(str, row, totalLine, vstr, nstr);
        row := row + 1;
        dataI := dataI + 1;
      }
      Seqs.TakeAll(dataTable);
      TableTokensAreRowTokens(dataTable, row, isNum, true);
      TableTokensAreRowTokens(dataTable, row, isNum, false);
      AllFitConcat(old(obsLines), dataTable);
      FinalColIs(dataTable, col);
      vmeta := BuildMeta(totalLine, col);
      MetaEntries(dataTable, totalLine, col, vmeta);
      ret := [vstr, nstr, vmeta];
    }

    /** One pass of postprocessor's cell loop: the cell c that starts at
        pos1 and ends before pos2 is appended to linePivot after a tab, as it
        is when numeric, otherwise as vpred[predIndex], which then advances. */
    method DecodeCell(line: string, vpred: seq<real>, k0: nat, ghost c: nat, pos1: nat, pos2: nat,
                      linePivot0: string, predIndex0: nat)
      returns (linePivot: string, predIndex: nat)
      requires Fits(line) && c < |FeatureCells(line)|
      requires k0 + CountOf(FeatureCells(line), |FeatureCells(line)|, isNum, false) <= |vpred|
      requires pos1 == CellPos(line, c) && pos2 == Find(line, TAB, pos1)
      requires linePivot0 == PartialRow(Pivot(line), FeatureCells(line), vpred, k0, c, isNum, fmt)
      requires predIndex0 == k0 + CountOf(FeatureCells(line), c, isNum, false)
      ensures linePivot == PartialRow(Pivot(line), FeatureCells(line), vpred, k0, c + 1, isNum, fmt)
      ensures predIndex == k0 + CountOf(FeatureCells(line), c + 1, isNum, false)
    {
      ScanStep(line, c, pos1, pos2);
      var item := Substr(line, pos1, pos2 - pos1);
      DecodeStep(Pivot(line), FeatureCells(line), vpred, k0, c, linePivot0, isNum, fmt);
      if isNum(item) {
        linePivot := linePivot0 + ("\t" + item);
        predIndex := predIndex0;
      } else {
        linePivot := linePivot0 + ("\t" + fmt(vpred[predIndex0]));
        predIndex := predIndex0 + 1;
      }
    }

    /** The body of postprocessor's line loop for one retained line: the pivot,
        then a tab and each feature cell, a non-numeric one replaced by
        vpred[predIndex], which then advances. */
    method DecodeLine(line: string, vpred: seq<real>, k0: nat) returns (linePivot: string, predIndex: nat)
      requires Fits(line)
      requires k0 + CountOf(FeatureCells(line), |FeatureCells(line)|, isNum, false) <= |vpred|
      ensures linePivot == DecodeRow(Pivot(line), FeatureCells(line), vpred, k0, isNum, fmt)
      ensures predIndex == k0 + CountOf(FeatureCells(line), |FeatureCells(line)|, isNum, false)
    {
      predIndex := k0;
      ghost var fs := FeatureCells(line);
      var posFirstTab := Find(line, TAB, 0);
      linePivot := Substr(line, 0, posFirstTab);
      var pos1 := SizeAdd(posFirstTab, 1);
      FirstTab(line);
      ghost var c := 0;
      var pos2 := Find(line, TAB, pos1);
      while pos2 != NPOS
        invariant c < |fs| && pos1 == CellPos(line, c) && pos2 == Find(line, TAB, pos1)
        invariant linePivot == PartialRow(Pivot(line), fs, vpred, k0, c, isNum, fmt)
        invariant predIndex == k0 + CountOf(fs, c, isNum, false)
        decreases |line| - pos1
      {
        ScanStep(line, c, pos1, pos2);
        linePivot, predIndex := DecodeCell(line, vpred, k0, c, pos1, pos2, linePivot, predIndex);
        pos1 := pos2 + 1;
        c := c + 1;
        pos2 := Find(line, TAB, pos1);
      }
      ScanStep(line, c, pos1, pos2);
      linePivot, predIndex := DecodeCell(line, vpred, k0, c, pos1, pos2, linePivot, predIndex);
      PartialRowComplete(Pivot(line), fs, vpred, k0, isNum, fmt);
    }

    /** postprocessor: rebuilds every retained line, the non-numeric cells
        taking the predictions in order. */
    method Postprocessor(vpred: seq<real>) returns (ret: seq<string>)
      requires Valid() && |obsLines| >= 1
      requires Missing(obsLines[1..], isNum) <= |vpred|
      ensures ret == [obsLines[0]] + DecodeLines(obsLines[1..], vpred, isNum, fmt)
    {
      var predIndex: nat := 0;
      var obs := obsLines;
      var header := obs[0];
      ret := [header];
      ghost var lines := obs[1..];
      ghost var dec := DecodeLines(lines, vpred, isNum, fmt);
      var i := 1;
      while i < |obs|
        invariant 1 <= i <= |obs|
        invariant ret == [header] + dec[..i - 1]
        invariant predIndex == CountIn(Rows(lines), i - 1, isNum, false)
      {
        var line := obs[i];
        ghost var r := i - 1;
        assert lines[r] == line;
        MissingBound(lines, r, isNum);
        var linePivot;
        linePivot, predIndex := DecodeLine(line, vpred, predIndex);
        DecodeLinesSnoc(lines, vpred, r, linePivot, isNum, fmt);
        ret := ret + [linePivot];
        i := i + 1;
      }
      assert dec[..i - 1] == dec;
    }
  }
}
