/** The cells of the tables drawn on a report card. */
module Tables {
  import opened PyValues

  /** What one table cell shows: literal text, `str(n)` of an integer,
      a percentage `f"{p:.1f}%"`, or `str(v)` of a raw dictionary value. */
  datatype TableCell = Txt(s: string) | Whole(n: int) | Pct(p: real) | Shown(v: Cell)

  type TableRow = seq<TableCell>

  /** A row of literal texts. */
  function TextRow(ss: seq<string>): (r: TableRow)
    ensures |r| == |ss|
    ensures forall i :: 0 <= i < |ss| ==> r[i] == Txt(ss[i])
  {
    if |ss| == 0 then [] else [Txt(ss[0])] + TextRow(ss[1..])
  }
}
