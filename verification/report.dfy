/** The single-student report card of the PDF generator
    (`create_report_pdf_bytes_v2` and its database adapter
    `create_report_card_bytes`). What is drawn on the page is modelled as a
    `ReportCard` record; turning it into PDF bytes is reportlab's job and is
    not modelled. */
module Report {
  import opened PyValues
  import opened PyText
  import opened Tables
  import opened GradeScale

  // ------------------------------------------------------------ data model

  /** One subject's marks as the generator receives them: TE (term exam)
      and CE (continuous evaluation) scores, `None` when not entered. */
  datatype AcademicRow = AcademicRow(subject: string, te: Option<real>, ce: Option<real>,
                                     fullMarks: real, remarks: string)

  /** A subject is graded when at least one of its two scores was entered. */
  predicate Graded(r: AcademicRow) {
    r.te.Some? || r.ce.Some?
  }

  /** A missing score of a graded subject counts as 0. */
  function ScoreOrZero(o: Option<real>): real {
    o.GetOr(0.0)
  }

  // ---------------------------------------------------------------- totals

  /** Marks scored, summed over the graded subjects only. */
  function ScoredSum(rows: seq<AcademicRow>): real {
    if |rows| == 0 then 0.0
    else
      var last := rows[|rows| - 1];
      ScoredSum(rows[..|rows| - 1])
        + (if Graded(last) then ScoreOrZero(last.te) + ScoreOrZero(last.ce) else 0.0)
  }

  /** Full marks, summed over the graded subjects only. */
  function FullSum(rows: seq<AcademicRow>): real {
    if |rows| == 0 then 0.0
    else
      var last := rows[|rows| - 1];
      FullSum(rows[..|rows| - 1]) + (if Graded(last) then last.fullMarks else 0.0)
  }

  /** The graded subjects, in input order. */
  function GradedOnly(rows: seq<AcademicRow>): (g: seq<AcademicRow>)
    ensures forall i :: 0 <= i < |g| ==> Graded(g[i]) && g[i] in rows
    ensures forall r :: r in rows && Graded(r) ==> r in g
  {
    if |rows| == 0 then []
    else GradedOnly(rows[..|rows| - 1]) + (if Graded(rows[|rows| - 1]) then [rows[|rows| - 1]] else [])
  }

  lemma {:induction false} SumsSplit(a: seq<AcademicRow>, b: seq<AcademicRow>)
    ensures ScoredSum(a + b) == ScoredSum(a) + ScoredSum(b)
    ensures FullSum(a + b) == FullSum(a) + FullSum(b)
    decreases |b|
  {
    if |b| == 0 {
      assert a + b == a;
    } else {
      assert (a + b)[..|a + b| - 1] == a + b[..|b| - 1];
      SumsSplit(a, b[..|b| - 1]);
    }
  }

  /** An ungraded subject adds nothing to either total, wherever it stands. */
  lemma UngradedAddsNothing(a: seq<AcademicRow>, r: AcademicRow, b: seq<AcademicRow>)
    requires !Graded(r)
    ensures ScoredSum(a + [r] + b) == ScoredSum(a + b)
    ensures FullSum(a + [r] + b) == FullSum(a + b)
  {
    SumsSplit(a + [r], b);
    SumsSplit(a, [r]);
    SumsSplit(a, b);
    assert [r][..0] == [];
  }

  /** The totals are the totals of the graded subjects alone. */
  lemma {:induction false} TotalsOverGradedOnly(rows: seq<AcademicRow>)
    ensures ScoredSum(rows) == ScoredSum(GradedOnly(rows))
    ensures FullSum(rows) == FullSum(GradedOnly(rows))
  {
    if |rows| > 0 {
      var init := rows[..|rows| - 1];
      var last := rows[|rows| - 1];
      TotalsOverGradedOnly(init);
      var tail := if Graded(last) then [last] else [];
      SumsSplit(GradedOnly(init), tail);
      assert [last][..0] == [];
    }
  }

  /** The totals loop of the generator: it walks the subjects and skips the
      ones whose TE and CE are both missing. */
  method ComputeTotals(rows: seq<AcademicRow>) returns (totalScored: real, totalFull: real)
    ensures totalScored == ScoredSum(rows)
    ensures totalFull == FullSum(rows)
  {
    totalScored, totalFull := 0.0, 0.0;
    var i := 0;
    while i < |rows|
      invariant 0 <= i <= |rows|
      invariant totalScored == ScoredSum(rows[..i])
      invariant totalFull == FullSum(rows[..i])
    {
      var r := rows[i];
      assert rows[..i + 1][..i] == rows[..i];
      if r.te.Some? || r.ce.Some? {
        totalScored := totalScored + (ScoreOrZero(r.te) + ScoreOrZero(r.ce));
        totalFull := totalFull + r.fullMarks;
      }
      i := i + 1;
    }
    assert rows[..|rows|] == rows;
  }

  const PassMark: real := 40.0

  /** Overall percentage: scored over full marks, or 0 when the full marks
      add up to 0. */
  function OverallPct(rows: seq<AcademicRow>): (p: real)
    ensures FullSum(rows) == 0.0 ==> p == 0.0
    ensures FullSum(rows) != 0.0 ==> p * FullSum(rows) == ScoredSum(rows) * 100.0
  {
    var full := FullSum(rows);
    if full != 0.0 then ScoredSum(rows) / full * 100.0 else 0.0
  }

  /** Pass/fail status; the 40% boundary itself passes. */
  function Status(pct: real): (s: string)
    ensures s == "PASSED" <==> pct >= PassMark
    ensures s == "FAILED" <==> pct < PassMark
  {
    if pct >= PassMark then "PASSED" else "FAILED"
  }

  /** With positive full marks, the student passes exactly when the marks
      scored reach 40% of the full marks. */
  lemma PassesIffFortyPercent(rows: seq<AcademicRow>)
    requires FullSum(rows) > 0.0
    ensures Status(OverallPct(rows)) == "PASSED" <==> ScoredSum(rows) * 100.0 >= PassMark * FullSum(rows)
  {
    var p := OverallPct(rows);
    var f := FullSum(rows);
    assert p * f == ScoredSum(rows) * 100.0;
    if p >= PassMark {
      assert p * f >= PassMark * f;
    } else {
      assert p * f < PassMark * f;
    }
  }

  // ------------------------------------------------------- academic table

  const AcademicHeaderLabels: seq<string> :=
    ["Subject", "TE", "CE", "Scored", "Full Marks", "Percentage", "Grade", "Teacher's Remarks"]

  predicate NoLowerCase(s: string) {
    forall i :: 0 <= i < |s| ==> !('a' <= s[i] <= 'z')
  }

  lemma UpperHasNoLowerCase(s: string)
    ensures NoLowerCase(Upper(s))
  {
  }

  function UpperAll(ss: seq<string>): (r: seq<string>)
    ensures |r| == |ss|
    ensures forall i :: 0 <= i < |ss| ==> r[i] == Upper(ss[i])
  {
    if |ss| == 0 then [] else [Upper(ss[0])] + UpperAll(ss[1..])
  }

  /** The header row: the eight column titles, upper-cased. */
  function AcademicHeader(): (h: TableRow)
    ensures |h| == 8
    ensures forall k :: 0 <= k < 8 ==> h[k].Txt? && NoLowerCase(h[k].s)
    ensures forall k :: 0 <= k < 8 ==> |h[k].s| == |AcademicHeaderLabels[k]|
  {
    UpperRow(AcademicHeaderLabels)
  }

  /** A row of the given titles, upper-cased. */
  function UpperRow(titles: seq<string>): (h: TableRow)
    ensures |h| == |titles|
    ensures forall k :: 0 <= k < |titles| ==> h[k].Txt? && NoLowerCase(h[k].s)
    ensures forall k :: 0 <= k < |titles| ==> |h[k].s| == |titles[k]|
  {
    var h := TextRow(UpperAll(titles));
    forall k | 0 <= k < |titles|
      ensures NoLowerCase(h[k].s)
    {
      UpperHasNoLowerCase(titles[k]);
    }
    h
  }

  /** Percentage of one subject, computed from the truncated integers. */
  function RowPct(scored: int, full: int): real {
    if full != 0 then scored as real / full as real * 100.0 else 0.0
  }

  /** One subject's row. An ungraded subject shows "-" in every mark,
      percentage and grade cell; a graded one shows the truncated marks,
      their sum, the truncated full marks, the percentage of those integers
      and the grade the scale gives for it. */
  function SubjectRow(r: AcademicRow, scale: seq<Row>): (cells: TableRow)
    ensures |cells| == 8
    ensures cells[0] == Txt(r.subject) && cells[7] == Txt(r.remarks)
    ensures !Graded(r) ==> forall k :: 1 <= k <= 6 ==> cells[k] == Txt("-")
    ensures Graded(r) ==>
      var te := Trunc(ScoreOrZero(r.te));
      var ce := Trunc(ScoreOrZero(r.ce));
      var full := Trunc(r.fullMarks);
      && cells[1] == Whole(te) && cells[2] == Whole(ce) && cells[3] == Whole(te + ce)
      && cells[4] == Whole(full)
      && cells[5] == Pct(RowPct(te + ce, full))
      && cells[6] == Txt(LookupGrade(RowPct(te + ce, full), scale))
  {
    if !Graded(r) then
      [Txt(r.subject), Txt("-"), Txt("-"), Txt("-"), Txt("-"), Txt("-"), Txt("-"), Txt(r.remarks)]
    else
      var te := Trunc(ScoreOrZero(r.te));
      var ce := Trunc(ScoreOrZero(r.ce));
      var full := Trunc(r.fullMarks);
      var pct := RowPct(te + ce, full);
      [Txt(r.subject), Whole(te), Whole(ce), Whole(te + ce), Whole(full), Pct(pct),
       Txt(LookupGrade(pct, scale)), Txt(r.remarks)]
  }

  /** The closing TOTAL row: truncated totals and the overall percentage. */
  function TotalRow(rows: seq<AcademicRow>): (r: TableRow)
    ensures |r| == 8 && r[0] == Txt("TOTAL")
    ensures r[3] == Whole(Trunc(ScoredSum(rows))) && r[4] == Whole(Trunc(FullSum(rows)))
    ensures r[5] == Pct(OverallPct(rows))
  {
    [Txt("TOTAL"), Txt(""), Txt(""), Whole(Trunc(ScoredSum(rows))), Whole(Trunc(FullSum(rows))),
     Pct(OverallPct(rows)), Txt(""), Txt("")]
  }

  function SubjectRows(rows: seq<AcademicRow>, scale: seq<Row>): (t: seq<TableRow>)
    ensures |t| == |rows|
    ensures forall i :: 0 <= i < |rows| ==> t[i] == SubjectRow(rows[i], scale)
  {
    if |rows| == 0 then [] else [SubjectRow(rows[0], scale)] + SubjectRows(rows[1..], scale)
  }

  /** Section A: header, one row per subject in input order, then TOTAL. */
  function AcademicTable(rows: seq<AcademicRow>, scale: seq<Row>): (t: seq<TableRow>)
    ensures |t| == |rows| + 2
    ensures t[0] == AcademicHeader()
    ensures t[1..|t| - 1] == SubjectRows(rows, scale)
    ensures t[|t| - 1] == TotalRow(rows)
  {
    var body := SubjectRows(rows, scale);
    var t := [AcademicHeader()] + body + [TotalRow(rows)];
    assert t[1..|t| - 1] == body;
    t
  }

  // --------------------------------------------------------- column widths

  /** reportlab's millimetre in points, and the A4 page width. */
  const Mm: real := 72.0 / 25.4
  const PageWidth: real := 210.0 * Mm
  const ContentWidth: real := PageWidth - 18.0 * Mm - 18.0 * Mm
  const Fractions: seq<real> := [0.18, 0.07, 0.07, 0.10, 0.13, 0.13, 0.07, 0.25]

  function SumReals(s: seq<real>): real {
    if |s| == 0 then 0.0 else SumReals(s[..|s| - 1]) + s[|s| - 1]
  }

  function Abs(x: real): real {
    if x < 0.0 then -x else x
  }

  lemma {:induction false} SumRealsAppend(a: seq<real>, b: seq<real>)
    ensures SumReals(a + b) == SumReals(a) + SumReals(b)
    decreases |b|
  {
    if |b| == 0 {
      assert a + b == a;
    } else {
      assert (a + b)[..|a + b| - 1] == a + b[..|b| - 1];
      SumRealsAppend(a, b[..|b| - 1]);
    }
  }

  lemma {:induction false} SumRealsUpdate(s: seq<real>, i: nat, v: real)
    requires i < |s|
    ensures SumReals(s[i := v]) == SumReals(s) - s[i] + v
    decreases |s|
  {
    var n := |s|;
    if i == n - 1 {
      assert s[i := v][..n - 1] == s[..n - 1];
    } else {
      assert s[i := v][..n - 1] == s[..n - 1][i := v];
      SumRealsUpdate(s[..n - 1], i, v);
    }
  }

  lemma {:induction false} SumRealsCons(x: real, s: seq<real>)
    ensures SumReals([x] + s) == x + SumReals(s)
    decreases |s|
  {
    if |s| > 0 {
      var init := s[..|s| - 1];
      assert [x] + s == ([x] + init) + [s[|s| - 1]];
      SumRealsSnoc([x] + init, s[|s| - 1]);
      SumRealsSnoc(init, s[|s| - 1]);
      assert s == init + [s[|s| - 1]];
      SumRealsCons(x, init);
    } else {
      assert [x] + s == [] + [x];
      SumRealsSnoc([], x);
    }
  }

  function Scaled(w: real, fs: seq<real>): (r: seq<real>)
    ensures |r| == |fs|
  {
    if |fs| == 0 then [] else [w * fs[0]] + Scaled(w, fs[1..])
  }

  lemma {:induction false} ScaledAt(w: real, fs: seq<real>)
    ensures forall i :: 0 <= i < |fs| ==> Scaled(w, fs)[i] == w * fs[i]
    decreases |fs|
  {
    if |fs| > 0 {
      ScaledAt(w, fs[1..]);
    }
  }

  lemma ScaledCons(w: real, fs: seq<real>)
    requires |fs| > 0
    ensures Scaled(w, fs) == [w * fs[0]] + Scaled(w, fs[1..])
  {
  }

  /** The inductive step of `SumScaled`, with the sums as plain numbers. */
  lemma ScaleStep(w: real, head: real, rest: real, scaledRest: real, total: real, scaledTotal: real)
    requires scaledRest == w * rest
    requires total == head + rest && scaledTotal == w * head + scaledRest
    ensures scaledTotal == w * total
  {
  }

  lemma {:induction false} SumScaled(w: real, fs: seq<real>)
    ensures SumReals(Scaled(w, fs)) == w * SumReals(fs)
    decreases |fs|
  {
    if |fs| > 0 {
      SumScaled(w, fs[1..]);
      SumScaledStep(w, fs);
    }
  }

  lemma SumScaledStep(w: real, fs: seq<real>)
    requires |fs| > 0
    requires SumReals(Scaled(w, fs[1..])) == w * SumReals(fs[1..])
    ensures SumReals(Scaled(w, fs)) == w * SumReals(fs)
  {
    ScaledSumCons(w, fs);
    SumRealsHead(fs);
    ScaleStep(w, fs[0], SumReals(fs[1..]), SumReals(Scaled(w, fs[1..])),
      SumReals(fs), SumReals(Scaled(w, fs)));
  }

  lemma SumRealsHead(fs: seq<real>)
    requires |fs| > 0
    ensures SumReals(fs) == fs[0] + SumReals(fs[1..])
  {
    SumRealsCons(fs[0], fs[1..]);
    HeadTail(fs);
  }

  lemma ScaledSumCons(w: real, fs: seq<real>)
    requires |fs| > 0
    ensures SumReals(Scaled(w, fs)) == w * fs[0] + SumReals(Scaled(w, fs[1..]))
  {
    ScaledCons(w, fs);
    SumRealsCons(w * fs[0], Scaled(w, fs[1..]));
  }

  /** Column widths of Section A: each column its fraction of the content
      width, the first widened by `extra`, and the last absorbing the
      difference when it exceeds 0.0001, so the widths still add up to the
      content width. */
  function ColumnWidths(width: real, fs: seq<real>, extra: real): (w: seq<real>)
    requires |fs| > 0
    ensures |w| == |fs|
    ensures Abs(SumReals(w) - width) <= 0.0001
    ensures |fs| > 1 ==> w[0] == width * fs[0] + extra
    ensures forall i :: 0 < i < |fs| - 1 ==> w[i] == width * fs[i]
  {
    var base := Scaled(width, fs);
    ScaledAt(width, fs);
    var w1 := base[0 := base[0] + extra];
    var excess := width - SumReals(w1);
    if Abs(excess) > 0.0001 then
      var w2 := w1[|w1| - 1 := w1[|w1| - 1] + excess];
      SumRealsUpdate(w1, |w1| - 1, w1[|w1| - 1] + excess);
      w2
    else w1
  }

  lemma SumRealsSnoc(s: seq<real>, x: real)
    ensures SumReals(s + [x]) == SumReals(s) + x
  {
    assert (s + [x])[..|s|] == s;
  }

  lemma FractionsSumToOne()
    ensures SumReals(Fractions) == 1.0
  {
    var p0: seq<real> := [];
    var p1 := p0 + [0.18];
    var p2 := p1 + [0.07];
    var p3 := p2 + [0.07];
    var p4 := p3 + [0.10];
    var p5 := p4 + [0.13];
    var p6 := p5 + [0.13];
    var p7 := p6 + [0.07];
    var p8 := p7 + [0.25];
    SumRealsSnoc(p0, 0.18);
    SumRealsSnoc(p1, 0.07);
    SumRealsSnoc(p2, 0.07);
    SumRealsSnoc(p3, 0.10);
    SumRealsSnoc(p4, 0.13);
    SumRealsSnoc(p5, 0.13);
    SumRealsSnoc(p6, 0.07);
    SumRealsSnoc(p7, 0.25);
    assert p8 == Fractions;
  }

  /** The generator's own constants: the subject column gains 5 mm, the
      remarks column loses exactly those 5 mm, and the eight widths add up
      to the content width exactly. */
  lemma AcademicWidthsExact()
    ensures var w := ColumnWidths(ContentWidth, Fractions, 5.0 * Mm);
      && w[0] == ContentWidth * 0.18 + 5.0 * Mm
      && w[7] == ContentWidth * 0.25 - 5.0 * Mm
      && SumReals(w) == ContentWidth
  {
    var base := Scaled(ContentWidth, Fractions);
    ScaledAt(ContentWidth, Fractions);
    FractionsSumToOne();
    SumScaled(ContentWidth, Fractions);
    var w1 := base[0 := base[0] + 5.0 * Mm];
    SumRealsUpdate(base, 0, base[0] + 5.0 * Mm);
    assert SumReals(w1) == ContentWidth + 5.0 * Mm;
    var w2 := w1[7 := w1[7] - 5.0 * Mm];
    SumRealsUpdate(w1, 7, w1[7] - 5.0 * Mm);
  }

  /** Section B's three columns: the first three Section A columns merged,
      the fourth, and the rest merged. They cover the same total width. */
  function SkillColumnWidths(w: seq<real>): (s: seq<real>)
    requires |w| == 8
    ensures |s| == 3
    ensures SumReals(s) == SumReals(w)
  {
    var s := [w[0] + w[1] + w[2], w[3], SumReals(w[4..])];
    SumRealsAppend(w[..4], w[4..]);
    assert w == w[..4] + w[4..];
    var q0: seq<real> := [];
    var q1 := q0 + [w[0]];
    var q2 := q1 + [w[1]];
    var q3 := q2 + [w[2]];
    var q4 := q3 + [w[3]];
    SumRealsSnoc(q0, w[0]);
    SumRealsSnoc(q1, w[1]);
    SumRealsSnoc(q2, w[2]);
    SumRealsSnoc(q3, w[3]);
    assert w[..4] == q4;
    var r1 := q0 + [s[0]];
    var r2 := r1 + [s[1]];
    var r3 := r2 + [s[2]];
    SumRealsSnoc(q0, s[0]);
    SumRealsSnoc(r1, s[1]);
    SumRealsSnoc(r2, s[2]);
    assert s == r3;
    s
  }

  // ------------------------------------------------------ the grade label

  /** A piece of header text and whether it is drawn in bold. */
  datatype Piece = Piece(text: string, bold: bool)

  /** Index of the first digit, if any. */
  function FirstDigit(s: string): (r: Option<nat>)
    ensures r.None? <==> forall i :: 0 <= i < |s| ==> !IsDigit(s[i])
    ensures r.Some? ==> r.value < |s| && IsDigit(s[r.value])
    ensures r.Some? ==> forall i :: 0 <= i < r.value ==> !IsDigit(s[i])
  {
    if |s| == 0 then None
    else if IsDigit(s[0]) then Some(0)
    else
      match FirstDigit(s[1..])
      case None => None
      case Some(k) => Some(k + 1)
  }

  /** Length of the run of digits at the start of `s`. */
  function DigitRunLength(s: string): (n: nat)
    ensures n <= |s|
    ensures forall i :: 0 <= i < n ==> IsDigit(s[i])
    ensures n < |s| ==> !IsDigit(s[n])
  {
    if |s| == 0 || !IsDigit(s[0]) then 0 else 1 + DigitRunLength(s[1..])
  }

  /** The regular-expression split of a grade label at its first run of
      digits `(\d+)`: stripped prefix, the digits, stripped suffix. */
  datatype LabelParts = NoDigits | Parts(prefix: string, number: string, suffix: string)

  function SplitGradeLabel(text: string): (p: LabelParts)
    ensures p.NoDigits? <==> forall i :: 0 <= i < |text| ==> !IsDigit(text[i])
    ensures p.Parts? ==> |p.number| > 0 && AllDigits(p.number)
  {
    match FirstDigit(text)
    case None => NoDigits
    case Some(start) =>
      var rest := text[start..];
      var n := DigitRunLength(rest);
      assert n > 0 by { assert rest[0] == text[start]; }
      assert AllDigits(rest[..n]) by {
        assert forall i :: 0 <= i < n ==> rest[..n][i] == rest[i];
      }
      assert text[start..start + n] == rest[..n];
      Parts(Strip(text[..start]), rest[..n], Strip(rest[n..]))
  }

  /** The grade label as the generator draws it: a label without digits is
      drawn whole; otherwise prefix, bold number and "-" + upper-cased
      suffix are drawn, but only when the suffix is non-empty. */
  function GradePiecesAsWritten(text: string): seq<Piece> {
    match SplitGradeLabel(text)
    case NoDigits => [Piece(text, false)]
    case Parts(prefix, number, suffix) =>
      if suffix != "" then [Piece(prefix, false), Piece(number, true), Piece("-" + Upper(suffix), false)]
      else []
  }

  /** A plain "Grade 10" label, the example the generator's own comment
      names, is not drawn at all. */
  lemma GradeTenDrawsNothing()
    ensures SplitGradeLabel("Grade 10").Parts?
    ensures GradePiecesAsWritten("Grade 10") == []
  {
    var s := "Grade 10";
    assert FirstDigit(s[6..]) == Some(0);
    assert FirstDigit(s[5..]) == Some(1);
    assert FirstDigit(s[4..]) == Some(2);
    assert FirstDigit(s[3..]) == Some(3);
    assert FirstDigit(s[2..]) == Some(4);
    assert FirstDigit(s[1..]) == Some(5);
    assert FirstDigit(s) == Some(6);
    assert DigitRunLength(s[6..]) == 2 by {
      assert s[6..][1..] == "0";
      assert "0"[1..] == "";
    }
    assert s[8..] == "";
  }

  /** The grade label as intended: prefix, bold number, and "-" + suffix
      only when there is a suffix. */
  function GradePieces(text: string): (ps: seq<Piece>)
    ensures SplitGradeLabel(text).NoDigits? ==> ps == [Piece(text, false)]
    ensures SplitGradeLabel(text).Parts? ==>
      |ps| >= 2 && ps[0] == Piece(SplitGradeLabel(text).prefix, false)
      && ps[1] == Piece(SplitGradeLabel(text).number, true)
    ensures SplitGradeLabel(text).Parts? && SplitGradeLabel(text).suffix == "" ==>
      ps == [Piece(SplitGradeLabel(text).prefix, false), Piece(SplitGradeLabel(text).number, true)]
    ensures SplitGradeLabel(text).Parts? && SplitGradeLabel(text).suffix != "" ==>
      ps == GradePiecesAsWritten(text)
  {
    match SplitGradeLabel(text)
    case NoDigits => [Piece(text, false)]
    case Parts(prefix, number, suffix) =>
      var head := [Piece(prefix, false), Piece(number, true)];
      if suffix != "" then head + [Piece("-" + Upper(suffix), false)] else head
  }

  /** Whatever the label, something is drawn for it unless it is empty, and
      its digits are drawn in bold. */
  lemma GradeLabelAlwaysDrawn(text: string)
    requires text != ""
    ensures |GradePieces(text)| > 0
    ensures (exists i :: 0 <= i < |text| && IsDigit(text[i])) ==>
              exists k :: 0 <= k < |GradePieces(text)| && GradePieces(text)[k].bold
  {
  }

  // ------------------------------------------------------------ skills

  /** A skill row as the generator receives it. */
  datatype SkillEntry = SkillEntry(skill: string, score: Cell, remark: string)

  /** The adapter's fixed remark for a 1..4 score (`int(float(score))`);
      "" for anything else or when the score does not convert. */
  function FixedRemark(score: Cell): (r: string)
    ensures r != "" <==> FloatOf(score).Some? && 1 <= Trunc(FloatOf(score).value) <= 4
  {
    match FloatOf(score)
    case None => ""
    case Some(x) =>
      var n := Trunc(x);
      if n == 1 then "BEGINNING"
      else if n == 2 then "PROGRESSING"
      else if n == 3 then "ACCOMPLISHED"
      else if n == 4 then "OUTSTANDING"
      else ""
  }

  /** Reading a remark back as its skill level. */
  function RemarkLevel(remark: string): (n: int)
    ensures 0 <= n <= 4
  {
    if remark == "BEGINNING" then 1
    else if remark == "PROGRESSING" then 2
    else if remark == "ACCOMPLISHED" then 3
    else if remark == "OUTSTANDING" then 4
    else 0
  }

  /** The four remarks are distinct: reading a level's remark back gives the
      level again. */
  lemma FixedRemarkRoundTrip(n: int)
    requires 1 <= n <= 4
    ensures RemarkLevel(FixedRemark(Num(n as real))) == n
  {
    assert Trunc(n as real) == n;
    assert "BEGINNING" != "PROGRESSING" by { assert "BEGINNING"[0] != "PROGRESSING"[0]; }
    assert "BEGINNING" != "ACCOMPLISHED" by { assert "BEGINNING"[0] != "ACCOMPLISHED"[0]; }
    assert "BEGINNING" != "OUTSTANDING" by { assert "BEGINNING"[0] != "OUTSTANDING"[0]; }
    assert "PROGRESSING" != "ACCOMPLISHED" by { assert "PROGRESSING"[0] != "ACCOMPLISHED"[0]; }
    assert "PROGRESSING" != "OUTSTANDING" by { assert "PROGRESSING"[0] != "OUTSTANDING"[0]; }
    assert "ACCOMPLISHED" != "OUTSTANDING" by { assert "ACCOMPLISHED"[0] != "OUTSTANDING"[0]; }
  }

  /** The remark shown for a skill: its own remark, replaced by a non-empty
      match from the remarks scale when a scale is given. */
  function SkillRemarkCell(sk: SkillEntry, remarkScale: seq<Row>): (c: Cell)
    ensures remarkScale == [] ==> c == Str(sk.remark)
    ensures remarkScale != [] && Truthy(LookupRemark(sk.score, remarkScale)) ==>
              c == LookupRemark(sk.score, remarkScale)
    ensures !Truthy(LookupRemark(sk.score, remarkScale)) ==> c == Str(sk.remark)
  {
    if remarkScale != [] && Truthy(LookupRemark(sk.score, remarkScale)) then
      LookupRemark(sk.score, remarkScale)
    else Str(sk.remark)
  }

  const SkillHeader: TableRow := [Txt("SKILLS & WORK HABITS"), Txt("SCORE"), Txt("REMARKS")]

  /** One skill's row: its name, its score as given, and its remark. */
  function SkillRow(sk: SkillEntry, remarkScale: seq<Row>): (r: TableRow)
    ensures |r| == 3
    ensures r[0] == Txt(sk.skill) && r[1] == Shown(sk.score)
    ensures r[2] == Shown(SkillRemarkCell(sk, remarkScale))
  {
    [Txt(sk.skill), Shown(sk.score), Shown(SkillRemarkCell(sk, remarkScale))]
  }

  function SkillRows(skills: seq<SkillEntry>, remarkScale: seq<Row>): (t: seq<TableRow>)
    ensures |t| == |skills|
    ensures forall i :: 0 <= i < |skills| ==> t[i] == SkillRow(skills[i], remarkScale)
  {
    if |skills| == 0 then [] else [SkillRow(skills[0], remarkScale)] + SkillRows(skills[1..], remarkScale)
  }

  /** Section B: header and one row per skill present, in input order;
      skills absent from the input get no row. */
  function SkillTable(skills: seq<SkillEntry>, remarkScale: seq<Row>): (t: seq<TableRow>)
    ensures |t| == |skills| + 1
    ensures t[0] == SkillHeader
    ensures forall i :: 0 <= i < |skills| ==> t[i + 1] == SkillRow(skills[i], remarkScale)
  {
    var rows := SkillRows(skills, remarkScale);
    Prepended(SkillHeader, rows);
    [SkillHeader] + rows
  }

  // ------------------------------------------- comments and signatures

  const MaxCommentLines: nat := 4

  /** The class teacher's comment: its first four lines. */
  function CommentLines(comments: string): (ls: seq<string>)
    ensures |ls| <= MaxCommentLines
    ensures |ls| == if |SplitLines(comments)| < MaxCommentLines then |SplitLines(comments)| else MaxCommentLines
    ensures ls == SplitLines(comments)[..|ls|]
  {
    var all := SplitLines(comments);
    if |all| <= MaxCommentLines then all else all[..MaxCommentLines]
  }

  /** A signature place: its label, always drawn, and whether the image
      above it is drawn. */
  datatype SignatureSlot = SignatureSlot(title: string, imageDrawn: bool)

  /** An image is drawn when its path is given, non-empty and can be read;
      any other case silently omits it. */
  predicate Drawable(path: Option<string>, readable: set<string>) {
    path.Some? && path.value != "" && path.value in readable
  }

  function SignatureSlots(principal: Option<string>, classTeacher: Option<string>, parent: Option<string>,
                          readable: set<string>): (s: seq<SignatureSlot>)
    ensures |s| == 3
    ensures s[0].title == "Principal" && s[1].title == "Class Teacher" && s[2].title == "Parent"
    ensures s[0].imageDrawn == Drawable(principal, readable)
    ensures s[1].imageDrawn == Drawable(classTeacher, readable)
    ensures s[2].imageDrawn == Drawable(parent, readable)
  {
    [SignatureSlot("Principal", Drawable(principal, readable)),
     SignatureSlot("Class Teacher", Drawable(classTeacher, readable)),
     SignatureSlot("Parent", Drawable(parent, readable))]
  }

  // ------------------------------------------------------------ the page

  /** Everything the generator puts on the page. */
  datatype ReportCard = ReportCard(
    title: string,
    gradePieces: seq<Piece>,
    background: bool,
    academic: seq<TableRow>,
    academicWidths: seq<real>,
    skills: seq<TableRow>,
    skillWidths: seq<real>,
    commentLines: seq<string>,
    status: string,
    preparedOn: string,
    signatures: seq<SignatureSlot>)

  /** `create_report_pdf_bytes_v2`. `today` stands for the clock, read when
      no preparation date is given; `readable` is the set of image paths
      that exist and load. */
  function RenderReport(studentName: string, gradeLabel: string, rows: seq<AcademicRow>,
                        skills: seq<SkillEntry>, comments: string, parentSig: Option<string>,
                        scale: seq<Row>, remarkScale: seq<Row>, frame: Option<string>,
                        preparedOn: Option<string>, principalSig: Option<string>,
                        classTeacherSig: Option<string>, today: string, readable: set<string>): (card: ReportCard)
    ensures card.title == Upper(studentName)
    ensures card.gradePieces == GradePiecesAsWritten(gradeLabel)
    ensures card.academic == AcademicTable(rows, scale)
    ensures card.skills == SkillTable(skills, remarkScale)
    ensures card.commentLines == CommentLines(comments)
    ensures |card.academic| == |rows| + 2
    ensures card.status == "PASSED" <==> OverallPct(rows) >= PassMark
    ensures SumReals(card.academicWidths) == ContentWidth
    ensures SumReals(card.skillWidths) == ContentWidth
    ensures |card.skills| == |skills| + 1
    ensures forall i :: 0 <= i < |skills| ==> card.skills[i + 1] == SkillRow(skills[i], remarkScale)
    ensures |card.commentLines| <= MaxCommentLines
    ensures card.background <==> Drawable(frame, readable)
    ensures card.preparedOn == if preparedOn.Some? && preparedOn.value != "" then preparedOn.value else today
  {
    var widths := ColumnWidths(ContentWidth, Fractions, 5.0 * Mm);
    AcademicWidthsExact();
    ReportCard(
      Upper(studentName),
      GradePiecesAsWritten(gradeLabel),
      Drawable(frame, readable),
      AcademicTable(rows, scale),
      widths,
      SkillTable(skills, remarkScale),
      SkillColumnWidths(widths),
      CommentLines(comments),
      Status(OverallPct(rows)),
      if preparedOn.Some? && preparedOn.value != "" then preparedOn.value else today,
      SignatureSlots(principalSig, classTeacherSig, parentSig, readable))
  }

  // ----------------------------------------------------- database adapter

  /** A mark row from the database: subject name, scores and maxima
      (`None` for SQL NULL) and the subject teacher's remark. */
  datatype DbMark = DbMark(name: string, teScore: Option<real>, ceScore: Option<real>,
                           teMax: Option<real>, ceMax: Option<real>, remarks: Option<string>)

  /** `safe_float(te_max or ..., 100)`: a missing or zero TE maximum reads as 100. */
  function TeMaxOf(m: DbMark): real {
    if m.teMax.Some? && m.teMax.value != 0.0 then m.teMax.value else 100.0
  }

  /** `safe_float(ce_max or ..., 0)`: a missing CE maximum reads as 0. */
  function CeMaxOf(m: DbMark): real {
    m.ceMax.GetOr(0.0)
  }

  /** The adapter's subject row: full marks are the TE maximum plus the CE
      maximum; the scores pass through untouched, so a subject without
      marks stays ungraded. */
  function MapMark(m: DbMark): (r: AcademicRow)
    ensures r.subject == m.name && r.te == m.teScore && r.ce == m.ceScore
    ensures Graded(r) <==> m.teScore.Some? || m.ceScore.Some?
    ensures m.teMax.Some? && m.teMax.value != 0.0 ==> r.fullMarks == m.teMax.value + m.ceMax.GetOr(0.0)
    ensures m.teMax.None? || m.teMax == Some(0.0) ==> r.fullMarks == 100.0 + m.ceMax.GetOr(0.0)
    ensures r.remarks == m.remarks.GetOr("")
  {
    AcademicRow(m.name, m.teScore, m.ceScore, TeMaxOf(m) + CeMaxOf(m),
                if m.remarks.Some? && m.remarks.value != "" then m.remarks.value else "")
  }

  function MapMarks(ms: seq<DbMark>): (rs: seq<AcademicRow>)
    ensures |rs| == |ms|
    ensures forall i :: 0 <= i < |ms| ==> rs[i] == MapMark(ms[i])
  {
    if |ms| == 0 then [] else [MapMark(ms[0])] + MapMarks(ms[1..])
  }

  // ------------------------------------------------- reading the scores

  /** A score as the adapter receives it from `pd.read_sql(...).to_dict()`:
      SQL NULL stays `None` in a column that holds no number, but becomes
      NaN in a column that also holds a number. */
  datatype ReadScore = Missing | NaN | Value(x: real)

  predicate HasNumber(col: seq<Option<real>>) {
    exists j :: 0 <= j < |col| && col[j].Some?
  }

  /** A column with both a NULL and a number. */
  predicate Mixed(col: seq<Option<real>>) {
    HasNumber(col) && exists j :: 0 <= j < |col| && col[j].None?
  }

  function ReadColumn(col: seq<Option<real>>): (r: seq<ReadScore>)
    ensures |r| == |col|
    ensures forall i :: 0 <= i < |col| && col[i].Some? ==> r[i] == Value(col[i].value)
    ensures forall i :: 0 <= i < |col| && col[i].None? ==> (r[i].NaN? <==> Mixed(col))
  {
    seq(|col|, i requires 0 <= i < |col| =>
      match col[i]
      case Some(x) => Value(x)
      case None => if HasNumber(col) then NaN else Missing)
  }

  function TeColumn(marks: seq<DbMark>): (col: seq<Option<real>>)
    ensures |col| == |marks| && forall i :: 0 <= i < |marks| ==> col[i] == marks[i].teScore
  {
    seq(|marks|, i requires 0 <= i < |marks| => marks[i].teScore)
  }

  function CeColumn(marks: seq<DbMark>): (col: seq<Option<real>>)
    ensures |col| == |marks| && forall i :: 0 <= i < |marks| ==> col[i] == marks[i].ceScore
  {
    seq(|marks|, i requires 0 <= i < |marks| => marks[i].ceScore)
  }

  /** The generator's row loop: NaN is not `None`, so a row with a NaN
      score is taken as graded and `int(safe_float(nan, 0))` raises. */
  predicate RowRaises(te: ReadScore, ce: ReadScore) {
    te.NaN? || ce.NaN?
  }

  /** Rendering a student's report raises when some row does. */
  predicate ReportRaises(marks: seq<DbMark>) {
    var te := ReadColumn(TeColumn(marks));
    var ce := ReadColumn(CeColumn(marks));
    exists i :: 0 <= i < |marks| && RowRaises(te[i], ce[i])
  }

  /** A report raises exactly when the student has a missing TE score and a
      present one, or a missing CE score and a present one, across their
      subjects. */
  lemma ReportRaisesIffMixed(marks: seq<DbMark>)
    ensures ReportRaises(marks) <==> Mixed(TeColumn(marks)) || Mixed(CeColumn(marks))
  {
    var te := TeColumn(marks);
    var ce := CeColumn(marks);
    if Mixed(te) {
      var j :| 0 <= j < |te| && te[j].None?;
      assert RowRaises(ReadColumn(te)[j], ReadColumn(ce)[j]);
    } else if Mixed(ce) {
      var j :| 0 <= j < |ce| && ce[j].None?;
      assert RowRaises(ReadColumn(te)[j], ReadColumn(ce)[j]);
    }
  }

  /** Converts a stored score to what the reader yields when nothing is NaN. */
  function Plain(o: Option<real>): ReadScore {
    match o
    case Some(x) => Value(x)
    case None => Missing
  }

  /** When the report does not raise, the adapter sees the stored scores. */
  lemma NoRaiseReadsStored(marks: seq<DbMark>)
    requires !ReportRaises(marks)
    ensures forall i :: 0 <= i < |marks| ==> ReadColumn(TeColumn(marks))[i] == Plain(marks[i].teScore)
    ensures forall i :: 0 <= i < |marks| ==> ReadColumn(CeColumn(marks))[i] == Plain(marks[i].ceScore)
  {
    ReportRaisesIffMixed(marks);
  }

  /** A row with both scores NULL makes the student's report raise exactly
      when some other row of the student has a score. */
  lemma BlankRowRaisesIffScored(row: DbMark, others: seq<DbMark>)
    requires row.teScore.None? && row.ceScore.None?
    ensures ReportRaises([row] + others) <==>
      exists j :: 0 <= j < |others| && (others[j].teScore.Some? || others[j].ceScore.Some?)
  {
    var marks := [row] + others;
    var te := TeColumn(marks);
    var ce := CeColumn(marks);
    if ReportRaises(marks) {
      assert HasNumber(te) || HasNumber(ce);
      var j :| 0 <= j < |marks| && (te[j].Some? || ce[j].Some?);
      assert marks[j] == others[j - 1];
    }
    if exists j :: 0 <= j < |others| && (others[j].teScore.Some? || others[j].ceScore.Some?) {
      var j :| 0 <= j < |others| && (others[j].teScore.Some? || others[j].ceScore.Some?);
      assert marks[j + 1] == others[j];
      assert te[0].None? && ce[0].None?;
      assert RowRaises(ReadColumn(te)[0], ReadColumn(ce)[0]);
    }
  }

  /** The reading the generator's "not None" test intends: NaN taken as a
      missing score, as `pd.isna` would. */
  function Settle(r: ReadScore): ReadScore {
    if r.NaN? then Missing else r
  }

  /** Settled, every score reads back as stored and no row raises, so the
      adapter's rows are exactly `MapMarks` of the stored marks. */
  lemma SettledReadIsStored(marks: seq<DbMark>)
    ensures forall i :: 0 <= i < |marks| ==>
      && Settle(ReadColumn(TeColumn(marks))[i]) == Plain(marks[i].teScore)
      && Settle(ReadColumn(CeColumn(marks))[i]) == Plain(marks[i].ceScore)
      && !RowRaises(Settle(ReadColumn(TeColumn(marks))[i]), Settle(ReadColumn(CeColumn(marks))[i]))
  {
  }

  /** A student with MATHS scored and ART left blank: the ART row reads as
      NaN and rendering the report raises. */
  lemma BlankBesideScoredRaises()
    ensures ReportRaises([DbMark("MATHS", Some(45.0), Some(20.0), Some(70.0), Some(30.0), None),
                          DbMark("ART", None, None, Some(50.0), Some(0.0), None)])
  {
    var marks := [DbMark("MATHS", Some(45.0), Some(20.0), Some(70.0), Some(30.0), None),
                  DbMark("ART", None, None, Some(50.0), Some(0.0), None)];
    ReportRaisesIffMixed(marks);
    assert TeColumn(marks)[0].Some? && TeColumn(marks)[1].None?;
  }

  /** A skill row from the database. */
  datatype DbSkill = DbSkill(skillName: string, score: Option<real>, remark: Option<string>)

  /** The adapter's skill row: a zero or missing score becomes `None`, and
      a skill without its own remark gets the fixed remark of its score. */
  function MapSkill(s: DbSkill): (e: SkillEntry)
    ensures e.skill == s.skillName
    ensures s.score.Some? && s.score.value != 0.0 ==> e.score == Num(s.score.value)
    ensures s.score.None? || s.score == Some(0.0) ==> e.score == Null
    ensures s.remark.Some? && s.remark.value != "" ==> e.remark == s.remark.value
    ensures s.remark.None? || s.remark == Some("") ==> e.remark == FixedRemark(e.score)
  {
    var score := if s.score.Some? && s.score.value != 0.0 then Num(s.score.value) else Null;
    SkillEntry(s.skillName, score,
               if s.remark.Some? && s.remark.value != "" then s.remark.value else FixedRemark(score))
  }

  function MapSkills(ss: seq<DbSkill>): (es: seq<SkillEntry>)
    ensures |es| == |ss|
    ensures forall i :: 0 <= i < |ss| ==> es[i] == MapSkill(ss[i])
  {
    if |ss| == 0 then [] else [MapSkill(ss[0])] + MapSkills(ss[1..])
  }

  /** Path of the default frame drawn when a grade has no background. */
  const DefaultFrame: string := "report_data/admin/a4_report_card_frame.png"

  /** The grade's background, else the default frame if it exists. */
  function FrameFor(background: Option<string>, readable: set<string>): (f: Option<string>)
    ensures background.Some? && background.value != "" ==> f == background
    ensures (background.None? || background == Some("")) && DefaultFrame in readable ==> f == Some(DefaultFrame)
  {
    if background.Some? && background.value != "" then background
    else if DefaultFrame in readable then Some(DefaultFrame)
    else background
  }

  /** `create_report_card_bytes`: maps database rows onto the generator's
      shape and renders them with no remarks scale and today's date. */
  function AdapterReport(studentName: string, studentGrade: string, marks: seq<DbMark>, skills: seq<DbSkill>,
                         comments: string, scale: seq<Row>, principalSig: Option<string>,
                         parentSig: Option<string>, classTeacherSig: Option<string>,
                         background: Option<string>, today: string, readable: set<string>): (card: ReportCard)
    ensures card.status == "PASSED" <==> OverallPct(MapMarks(marks)) >= PassMark
    ensures card.academic == AcademicTable(MapMarks(marks), scale)
    ensures card.skills == AdapterSkillTable(skills)
    ensures card.commentLines == CommentLines(comments)
    ensures card.preparedOn == today
  {
    RenderReport(studentName, studentGrade, MapMarks(marks), MapSkills(skills), comments, parentSig, scale, [],
                 FrameFor(background, readable), None, principalSig, classTeacherSig, today, readable)
  }

  /** The adapter's skills table: a header, then one row per database skill
      with no remarks scale. */
  function AdapterSkillTable(skills: seq<DbSkill>): (t: seq<TableRow>)
    ensures |t| == |skills| + 1
    ensures forall i :: 0 <= i < |skills| ==> t[i + 1] == SkillRow(MapSkill(skills[i]), [])
  {
    var entries := MapSkills(skills);
    var t := SkillTable(entries, []);
    assert forall i :: 0 <= i < |skills| ==> t[i + 1] == SkillRow(entries[i], []);
    t
  }

  /** Without a remarks scale, the adapter's skill row shows the skill's
      own remark, or the fixed remark of its score. */
  lemma AdapterSkillRemark(s: DbSkill)
    ensures SkillRow(MapSkill(s), [])[2] == Shown(Str(MapSkill(s).remark))
    ensures s.remark.None? && s.score == Some(3.0) ==> SkillRow(MapSkill(s), [])[2] == Shown(Str("ACCOMPLISHED"))
  {
    assert Trunc(3.0) == 3;
  }

  /** Rows handed to the generator with MATHS at 45 + 20 out of 100 and ART
      with `None` for both scores: ART is left out of the totals, which come
      to 65 of 100, 65%, and the student passes. (Read from the database
      beside a scored subject, ART's scores would be NaN instead, and the
      report would raise: see `BlankBesideScoredRaises`.) */
  lemma OneSubjectUngradedScenario()
    ensures var rows := [AcademicRow("MATHS", Some(45.0), Some(20.0), 100.0, ""),
                         AcademicRow("ART", None, None, 50.0, "")];
      && ScoredSum(rows) == 65.0
      && FullSum(rows) == 100.0
      && OverallPct(rows) == 65.0
      && Status(OverallPct(rows)) == "PASSED"
  {
    var rows := [AcademicRow("MATHS", Some(45.0), Some(20.0), 100.0, ""),
                 AcademicRow("ART", None, None, 50.0, "")];
    assert rows[..1] == [rows[0]];
    assert rows[..1][..0] == [];
    assert ScoredSum(rows[..1]) == 65.0;
    assert FullSum(rows[..1]) == 100.0;
  }
}
