/** The line-by-line comparison behind the before/after view: both texts are
    split on newlines, the shorter list is padded with empty lines, and each
    row pairs the two lines at one index with a flag saying whether they
    differ. */
module Diff {
  import opened Text

  /** One row of the comparison. */
  datatype Row = Row(before: string, after: string, isDifferent: bool)

  /** Line `i` of a split text, or the empty line past its end. */
  function LineAt(lines: seq<string>, i: nat): string
  {
    if i < |lines| then lines[i] else ""
  }

  function Max(a: int, b: int): int
  {
    if a >= b then a else b
  }

  /** The row for index `i`. */
  function RowAt(bl: seq<string>, al: seq<string>, i: nat): Row
  {
    var b, a := LineAt(bl, i), LineAt(al, i);
    Row(b, a, b != a)
  }

  /** The first `n` rows. */
  function Rows(bl: seq<string>, al: seq<string>, n: nat): seq<Row>
  {
    if n == 0 then [] else Rows(bl, al, n - 1) + [RowAt(bl, al, n - 1)]
  }

  /** The rows the comparison of two texts produces. */
  function DiffRows(beforeStr: string, afterStr: string): seq<Row>
  {
    var bl, al := Split(beforeStr, '\n'), Split(afterStr, '\n');
    Rows(bl, al, Max(|bl|, |al|))
  }

  /** The `before` column of a list of rows. */
  function Befores(rows: seq<Row>): (r: seq<string>)
    ensures |r| == |rows| && forall i :: 0 <= i < |rows| ==> r[i] == rows[i].before
  {
    seq(|rows|, i requires 0 <= i < |rows| => rows[i].before)
  }

  /** The `after` column of a list of rows. */
  function Afters(rows: seq<Row>): (r: seq<string>)
    ensures |r| == |rows| && forall i :: 0 <= i < |rows| ==> r[i] == rows[i].after
  {
    seq(|rows|, i requires 0 <= i < |rows| => rows[i].after)
  }

  /** The loop that builds the rows. */
  method DiffLines(beforeStr: string, afterStr: string) returns (result: seq<Row>)
    ensures result == DiffRows(beforeStr, afterStr)
  {
    var beforeLines := Split(beforeStr, '\n');
    var afterLines := Split(afterStr, '\n');
    var maxLines := Max(|beforeLines|, |afterLines|);
    result := [];
    for i := 0 to maxLines
      invariant result == Rows(beforeLines, afterLines, i)
    {
      var beforeLine := LineAt(beforeLines, i);
      var afterLine := LineAt(afterLines, i);
      var isDifferent := beforeLine != afterLine;
      result := result + [Row(beforeLine, afterLine, isDifferent)];
    }
  }

  lemma {:induction false} RowsIndex(bl: seq<string>, al: seq<string>, n: nat)
    ensures |Rows(bl, al, n)| == n
    ensures forall i :: 0 <= i < n ==> Rows(bl, al, n)[i] == RowAt(bl, al, i)
  {
    if n > 0 {
      RowsIndex(bl, al, n - 1);
    }
  }

  /** There is one row per line of the longer text; row `i` holds line `i` of
      each text (the empty line past a text's end), and it is flagged exactly
      when those two lines differ. */
  lemma DiffShape(beforeStr: string, afterStr: string)
    ensures |DiffRows(beforeStr, afterStr)| == Max(Count(beforeStr, '\n'), Count(afterStr, '\n')) + 1
    ensures forall i :: 0 <= i < |DiffRows(beforeStr, afterStr)| ==>
      var row := DiffRows(beforeStr, afterStr)[i];
      row.before == LineAt(Split(beforeStr, '\n'), i) &&
      row.after == LineAt(Split(afterStr, '\n'), i) &&
      (row.isDifferent <==> row.before != row.after)
  {
    var bl, al := Split(beforeStr, '\n'), Split(afterStr, '\n');
    SplitCount(beforeStr, '\n');
    SplitCount(afterStr, '\n');
    RowsIndex(bl, al, Max(|bl|, |al|));
  }

  /** Comparing a text with itself flags no row. */
  lemma DiffSelf(s: string)
    ensures forall i :: 0 <= i < |DiffRows(s, s)| ==> !DiffRows(s, s)[i].isDifferent
  {
    DiffShape(s, s);
  }

  /** The `before` column is the first text's lines followed by empty lines,
      so joining its first lines gives that text back. */
  lemma DiffBeforeColumn(beforeStr: string, afterStr: string)
    ensures |Split(beforeStr, '\n')| <= |DiffRows(beforeStr, afterStr)|
    ensures Befores(DiffRows(beforeStr, afterStr))[..|Split(beforeStr, '\n')|] == Split(beforeStr, '\n')
    ensures Join(Befores(DiffRows(beforeStr, afterStr))[..|Split(beforeStr, '\n')|], '\n') == beforeStr
    ensures forall i :: |Split(beforeStr, '\n')| <= i < |DiffRows(beforeStr, afterStr)| ==>
      DiffRows(beforeStr, afterStr)[i].before == ""
  {
    var bl, al := Split(beforeStr, '\n'), Split(afterStr, '\n');
    var rows := DiffRows(beforeStr, afterStr);
    RowsIndex(bl, al, Max(|bl|, |al|));
    forall i | 0 <= i < |bl| ensures Befores(rows)[i] == bl[i] {
      assert rows[i] == RowAt(bl, al, i);
    }
    assert Befores(rows)[..|bl|] == bl;
    SplitJoin(beforeStr, '\n');
  }

  /** The `after` column is the second text's lines followed by empty lines,
      so joining its first lines gives that text back. */
  lemma DiffAfterColumn(beforeStr: string, afterStr: string)
    ensures |Split(afterStr, '\n')| <= |DiffRows(beforeStr, afterStr)|
    ensures Afters(DiffRows(beforeStr, afterStr))[..|Split(afterStr, '\n')|] == Split(afterStr, '\n')
    ensures Join(Afters(DiffRows(beforeStr, afterStr))[..|Split(afterStr, '\n')|], '\n') == afterStr
    ensures forall i :: |Split(afterStr, '\n')| <= i < |DiffRows(beforeStr, afterStr)| ==>
      DiffRows(beforeStr, afterStr)[i].after == ""
  {
    var bl, al := Split(beforeStr, '\n'), Split(afterStr, '\n');
    var rows := DiffRows(beforeStr, afterStr);
    RowsIndex(bl, al, Max(|bl|, |al|));
    forall i | 0 <= i < |al| ensures Afters(rows)[i] == al[i] {
      assert rows[i] == RowAt(bl, al, i);
    }
    assert Afters(rows)[..|al|] == al;
    SplitJoin(afterStr, '\n');
  }

  /** For two texts with the same number of lines, no row is flagged exactly
      when the texts are equal. */
  lemma DiffEqualLines(beforeStr: string, afterStr: string)
    requires Count(beforeStr, '\n') == Count(afterStr, '\n')
    ensures (forall i :: 0 <= i < |DiffRows(beforeStr, afterStr)| ==> !DiffRows(beforeStr, afterStr)[i].isDifferent)
      <==> beforeStr == afterStr
  {
    var bl, al := Split(beforeStr, '\n'), Split(afterStr, '\n');
    var rows := DiffRows(beforeStr, afterStr);
    DiffShape(beforeStr, afterStr);
    SplitCount(beforeStr, '\n');
    SplitCount(afterStr, '\n');
    if forall i :: 0 <= i < |rows| ==> !rows[i].isDifferent {
      assert |bl| == |al| == |rows|;
      forall i | 0 <= i < |bl| ensures bl[i] == al[i] {
        assert !rows[i].isDifferent;
      }
      assert bl == al;
      SplitJoin(beforeStr, '\n');
      SplitJoin(afterStr, '\n');
    }
  }

  /** Padding hides a trailing newline: "x" and "x\n" are different texts
      whose comparison flags no row. */
  lemma TrailingNewlineHidden()
    ensures "x" != "x\n"
    ensures |DiffRows("x", "x\n")| == 2
    ensures forall i :: 0 <= i < |DiffRows("x", "x\n")| ==> !DiffRows("x", "x\n")[i].isDifferent
  {
    SplitPlain("x", '\n');
    SplitPrefix("x", "", '\n');
    assert "x" + ['\n'] + "" == "x\n";
    assert Split("x\n", '\n') == ["x", ""];
    RowsIndex(["x"], ["x", ""], 2);
  }
}
