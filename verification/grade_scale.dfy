/** Grade-band and skill-remark lookup of the PDF generator
    (`lookup_grade`, `lookup_remark`). Scale rows are dictionaries whose
    keys depend on where they came from (a CSV file or a database query),
    so they are modelled as maps from column name to cell. */
module GradeScale {
  import opened PyValues
  import opened PyText

  // ---------------------------------------------------------------- grades

  /** Lower bound of a band: column "Min%", else "Min", else 0. */
  function BandMin(g: Row): real {
    SafeFloat(Get(g, "Min%", Get(g, "Min", Num(0.0))), 0.0)
  }

  /** Upper bound of a band: column "Max%", else "Max", else 100. */
  function BandMax(g: Row): real {
    SafeFloat(Get(g, "Max%", Get(g, "Max", Num(100.0))), 0.0)
  }

  /** The label of a band: "Grade" if truthy, else "Score", stripped.
      `None` when that value is not a string, where `.strip()` raises and
      the row is skipped. */
  function BandLabel(g: Row): Option<string> {
    match Or(Get(g, "Grade", Str("")), Get(g, "Score", Str("")))
    case Str(s) => Some(Strip(s))
    case _ => None
  }

  /** A row that `lookup_grade` would return for `pct`: both bounds
      inclusive, and a label that can be read. */
  predicate GradeHit(pct: real, g: Row) {
    BandMin(g) <= pct <= BandMax(g) && BandLabel(g).Some?
  }

  /** `i` is the first row of `rows` that `lookup_grade` would return. */
  ghost predicate FirstGradeHit(pct: real, rows: seq<Row>, i: int) {
    0 <= i < |rows| && GradeHit(pct, rows[i]) && forall j :: 0 <= j < i ==> !GradeHit(pct, rows[j])
  }

  /** `lookup_grade(pct, rows)`: the label of the first row in list order
      whose band contains `pct`; "" when no row does (an empty scale
      included). */
  function LookupGrade(pct: real, rows: seq<Row>): (r: string)
    ensures (forall i :: 0 <= i < |rows| ==> !GradeHit(pct, rows[i])) ==> r == ""
    ensures forall i :: FirstGradeHit(pct, rows, i) ==> r == BandLabel(rows[i]).value
    ensures r == "" || exists i :: 0 <= i < |rows| && GradeHit(pct, rows[i]) && r == BandLabel(rows[i]).value
  {
    if |rows| == 0 then ""
    else if GradeHit(pct, rows[0]) then BandLabel(rows[0]).value
    else
      var r := LookupGrade(pct, rows[1..]);
      assert forall i :: FirstGradeHit(pct, rows, i) ==> i > 0 && FirstGradeHit(pct, rows[1..], i - 1);
      r
  }

  /** A band given by explicit "Min", "Max" and "Grade" columns. */
  function Band(mn: real, mx: real, grade: string): Row {
    map["Min" := Num(mn), "Max" := Num(mx), "Grade" := Str(grade)]
  }

  /** The bounds and label read from an explicit band. */
  lemma BandReads(mn: real, mx: real, grade: string)
    requires NoSpace(grade)
    ensures BandMin(Band(mn, mx, grade)) == mn
    ensures BandMax(Band(mn, mx, grade)) == mx
    ensures grade != "" ==> BandLabel(Band(mn, mx, grade)) == Some(grade)
  {
    var g := Band(mn, mx, grade);
    assert g.Keys == {"Min", "Max", "Grade"};
    assert "Min%" !in g by {
      assert |"Min%"| == 4 && |"Min"| == 3 && |"Max"| == 3 && |"Grade"| == 5;
    }
    assert "Max%" !in g by {
      assert |"Max%"| == 4 && |"Min"| == 3 && |"Max"| == 3 && |"Grade"| == 5;
    }
    assert BandMin(g) == mn;
    assert BandMax(g) == mx;
    if grade != "" {
      assert LStrip(grade) == grade;
      assert RStrip(grade) == grade;
      assert Get(g, "Grade", Str("")) == Str(grade);
    }
  }

  /** Bounds are inclusive at both ends, and a percentage that falls in the
      gap between two bands gets no grade at all: with bands 50..100 "A"
      and 0..49 "B", 50 is "A", 49 is "B" and 49.9 is blank. */
  lemma InclusiveBoundsAndGaps()
    ensures LookupGrade(50.0, [Band(50.0, 100.0, "A"), Band(0.0, 49.0, "B")]) == "A"
    ensures LookupGrade(49.0, [Band(50.0, 100.0, "A"), Band(0.0, 49.0, "B")]) == "B"
    ensures LookupGrade(49.9, [Band(50.0, 100.0, "A"), Band(0.0, 49.0, "B")]) == ""
  {
    var a := Band(50.0, 100.0, "A");
    var b := Band(0.0, 49.0, "B");
    assert NoSpace("A") && NoSpace("B");
    BandReads(50.0, 100.0, "A");
    BandReads(0.0, 49.0, "B");
    LookupTwo(50.0, a, b);
    LookupTwo(49.0, a, b);
    LookupTwo(49.9, a, b);
  }

  lemma LookupTwo(pct: real, a: Row, b: Row)
    ensures LookupGrade(pct, [a, b]) ==
      if GradeHit(pct, a) then BandLabel(a).value
      else if GradeHit(pct, b) then BandLabel(b).value
      else ""
  {
    assert [a, b][1..] == [b];
    assert [b][1..] == [];
  }

  // --------------------------------------------------------------- remarks

  /** Remark text of a remarks-scale row ("" when the column is absent). */
  function RemarkOf(r: Row): Cell {
    Get(r, "Remark", Str(""))
  }

  /** First pass of `lookup_remark`: the row's "Score" is present and not
      "", both it and the looked-up score convert with `float`, and their
      truncations agree. */
  predicate ExactScoreHit(score: Cell, r: Row) {
    var s := Get(r, "Score", Null);
    && s != Null && s != Str("")
    && FloatOf(s).Some? && FloatOf(score).Some?
    && Trunc(FloatOf(s).value) == Trunc(FloatOf(score).value)
  }

  /** Second pass of `lookup_remark`: the score (or -999 when it does not
      convert) lies in the row's "Min"/"Min%" .. "Max"/"Max%" range, whose
      defaults are 0 and 5. */
  predicate RangeScoreHit(score: Cell, r: Row) {
    var mn := SafeFloat(Get(r, "Min", Get(r, "Min%", Num(0.0))), 0.0);
    var mx := SafeFloat(Get(r, "Max", Get(r, "Max%", Num(5.0))), 0.0);
    mn <= SafeFloat(score, -999.0) <= mx
  }

  ghost predicate FirstExactHit(score: Cell, rows: seq<Row>, i: int) {
    0 <= i < |rows| && ExactScoreHit(score, rows[i]) && forall j :: 0 <= j < i ==> !ExactScoreHit(score, rows[j])
  }

  ghost predicate FirstRangeHit(score: Cell, rows: seq<Row>, i: int) {
    0 <= i < |rows| && RangeScoreHit(score, rows[i]) && forall j :: 0 <= j < i ==> !RangeScoreHit(score, rows[j])
  }

  /** First pass: the remark of the first row whose "Score" equals the score. */
  function ExactPass(score: Cell, rows: seq<Row>): (r: Option<Cell>)
    ensures r.None? <==> forall i :: 0 <= i < |rows| ==> !ExactScoreHit(score, rows[i])
    ensures forall i :: FirstExactHit(score, rows, i) ==> r == Some(RemarkOf(rows[i]))
  {
    if |rows| == 0 then None
    else if ExactScoreHit(score, rows[0]) then Some(RemarkOf(rows[0]))
    else
      var r := ExactPass(score, rows[1..]);
      ExactHitShift(score, rows);
      r
  }

  lemma ExactHitShift(score: Cell, rows: seq<Row>)
    requires |rows| > 0 && !ExactScoreHit(score, rows[0])
    ensures (forall i :: 0 <= i < |rows| ==> !ExactScoreHit(score, rows[i]))
            <==> forall i :: 0 <= i < |rows[1..]| ==> !ExactScoreHit(score, rows[1..][i])
    ensures forall i :: FirstExactHit(score, rows, i) ==> i > 0 && FirstExactHit(score, rows[1..], i - 1)
  {
    forall i | FirstExactHit(score, rows, i)
      ensures i > 0 && FirstExactHit(score, rows[1..], i - 1)
    {
      assert i > 0;
      forall j | 0 <= j < i - 1 ensures !ExactScoreHit(score, rows[1..][j]) {
        assert rows[1..][j] == rows[j + 1];
      }
    }
  }

  /** Fallback pass: the remark of the first row whose range holds the score. */
  function RangePass(score: Cell, rows: seq<Row>): (r: Option<Cell>)
    ensures r.None? <==> forall i :: 0 <= i < |rows| ==> !RangeScoreHit(score, rows[i])
    ensures forall i :: FirstRangeHit(score, rows, i) ==> r == Some(RemarkOf(rows[i]))
  {
    if |rows| == 0 then None
    else if RangeScoreHit(score, rows[0]) then Some(RemarkOf(rows[0]))
    else
      var r := RangePass(score, rows[1..]);
      RangeHitShift(score, rows);
      r
  }

  lemma RangeHitShift(score: Cell, rows: seq<Row>)
    requires |rows| > 0 && !RangeScoreHit(score, rows[0])
    ensures (forall i :: 0 <= i < |rows| ==> !RangeScoreHit(score, rows[i]))
            <==> forall i :: 0 <= i < |rows[1..]| ==> !RangeScoreHit(score, rows[1..][i])
    ensures forall i :: FirstRangeHit(score, rows, i) ==> i > 0 && FirstRangeHit(score, rows[1..], i - 1)
  {
    forall i | FirstRangeHit(score, rows, i)
      ensures i > 0 && FirstRangeHit(score, rows[1..], i - 1)
    {
      assert i > 0;
      forall j | 0 <= j < i - 1 ensures !RangeScoreHit(score, rows[1..][j]) {
        assert rows[1..][j] == rows[j + 1];
      }
    }
  }

  /** `lookup_remark(score, rows)`: an exact score match anywhere in the
      scale beats any range match; "" when neither pass finds a row. */
  function LookupRemark(score: Cell, rows: seq<Row>): (r: Cell)
    ensures forall i :: FirstExactHit(score, rows, i) ==> r == RemarkOf(rows[i])
    ensures (forall i :: 0 <= i < |rows| ==> !ExactScoreHit(score, rows[i])) ==>
              forall i :: FirstRangeHit(score, rows, i) ==> r == RemarkOf(rows[i])
    ensures (forall i :: 0 <= i < |rows| ==> !ExactScoreHit(score, rows[i]) && !RangeScoreHit(score, rows[i])) ==>
              r == Str("")
  {
    if |rows| == 0 then Str("")
    else
      match ExactPass(score, rows)
      case Some(c) => c
      case None => RangePass(score, rows).GetOr(Str(""))
  }
}
