/** The principal dashboard (`modules/principal.py`): choosing the
    students (one grade or the whole school), the guards before
    generation, and the archive of report cards. Query results are
    sequences. */
module Principal {
  import opened PyValues
  import opened PyText
  import opened GradeScale
  import Report
  import Batch
  import ClassTeacher
  import Tables

  datatype Student = Student(id: int, name: string, admission: string, gradeId: Option<int>,
                             gradeName: string, parentSign: Option<string>)

  /** Everything the loop reads for one student; the marks come with the
      subject's own maxima. */
  datatype StudentData = StudentData(student: Student, marks: seq<Report.DbMark>,
                                     skills: seq<ClassTeacher.SkillRecord>, remark: Option<string>)

  /** The two scopes. In one grade, `grade` is the chosen grade (none when
      the school has no grades) and `students` its students by name; for the
      whole school, `students` are all students ordered by grade and name. */
  datatype Scope =
    | SingleGrade(grade: Option<string>, students: seq<StudentData>, selected: seq<string>)
    | AllGrades(confirmed: bool, students: seq<StudentData>)

  function NameOf(d: StudentData): string {
    d.student.name
  }

  /** A student labelled with the chosen grade's name. */
  function Relabel(d: StudentData, grade: string): StudentData {
    d.(student := d.student.(gradeName := grade))
  }

  /** The students labelled with the chosen grade's name. */
  function WithGrade(ds: seq<StudentData>, grade: string): (r: seq<StudentData>)
    ensures |r| == |ds|
    ensures forall i :: 0 <= i < |ds| ==> r[i] == Relabel(ds[i], grade)
  {
    seq(|ds|, i requires 0 <= i < |ds| => Relabel(ds[i], grade))
  }

  /** The selected students of one grade, in order and relabelled. */
  function Picked(students: seq<StudentData>, selected: seq<string>, grade: string): (t: seq<StudentData>)
    ensures var idx := Batch.ChosenIndices(students, NameOf, selected);
      |t| == |idx| && forall k :: 0 <= k < |idx| ==> t[k] == Relabel(students[idx[k]], grade)
    ensures forall k :: 0 <= k < |t| ==> t[k].student.name in selected && t[k].student.gradeName == grade
  {
    var chosen := Batch.Chosen(students, NameOf, selected);
    WithGrade(chosen, grade)
  }

  /** The students a batch is generated for: in one grade, the students
      whose name was selected (all of them when none was), in order and
      labelled with the grade; for the whole school, every student once
      confirmed. */
  function Targets(scope: Scope): (t: seq<StudentData>)
    ensures scope.SingleGrade? && scope.grade.None? ==> t == []
    ensures scope.SingleGrade? && scope.grade.Some? ==>
      forall d :: d in t ==> d.student.gradeName == scope.grade.value
    ensures scope.SingleGrade? && |scope.selected| > 0 ==> forall d :: d in t ==> d.student.name in scope.selected
    ensures scope.SingleGrade? && scope.grade.Some? && |scope.selected| > 0 ==>
      var idx := Batch.ChosenIndices(scope.students, NameOf, scope.selected);
      |t| == |idx| && forall k :: 0 <= k < |idx| ==> t[k] == Relabel(scope.students[idx[k]], scope.grade.value)
    ensures scope.SingleGrade? && scope.grade.Some? && |scope.selected| == 0 ==>
      |t| == |scope.students| && forall i :: 0 <= i < |t| ==> t[i] == Relabel(scope.students[i], scope.grade.value)
    ensures scope.AllGrades? ==> t == if scope.confirmed then scope.students else []
  {
    match scope
    case SingleGrade(grade, students, selected) =>
      if grade.None? then []
      else if |selected| > 0 then Picked(students, selected, grade.value)
      else WithGrade(students, grade.value)
    case AllGrades(confirmed, students) =>
      if confirmed then students else []
  }

  /** Every student of the grade whose name was selected, or every student
      when none was, is a target, and targets keep the grade's order. */
  lemma TargetsComplete(grade: string, students: seq<StudentData>, selected: seq<string>, i: nat, j: nat)
    requires i < j < |students|
    requires |selected| == 0 || (students[i].student.name in selected && students[j].student.name in selected)
    ensures var t := Targets(SingleGrade(Some(grade), students, selected));
      exists a, b :: 0 <= a < b < |t| && t[a] == Relabel(students[i], grade) && t[b] == Relabel(students[j], grade)
  {
    var t := Targets(SingleGrade(Some(grade), students, selected));
    if |selected| == 0 {
      assert t[i] == Relabel(students[i], grade) && t[j] == Relabel(students[j], grade);
    } else {
      var idx := Batch.ChosenIndices(students, NameOf, selected);
      var a, b := ChosenPositions(students, selected, i, j);
      assert t[a] == Relabel(students[i], grade) && t[b] == Relabel(students[j], grade);
    }
  }

  /** Two selected students keep their order among the chosen indices. */
  lemma ChosenPositions(students: seq<StudentData>, selected: seq<string>, i: nat, j: nat) returns (a: nat, b: nat)
    requires i < j < |students|
    requires students[i].student.name in selected && students[j].student.name in selected
    ensures var idx := Batch.ChosenIndices(students, NameOf, selected);
      a < b < |idx| && idx[a] == i && idx[b] == j
  {
    var idx := Batch.ChosenIndices(students, NameOf, selected);
    assert NameOf(students[i]) in selected && NameOf(students[j]) in selected;
    a :| 0 <= a < |idx| && idx[a] == i;
    b :| 0 <= b < |idx| && idx[b] == j;
  }

  /** Leaving the multiselect empty means every student of the grade. */
  lemma EmptySelectionMeansWholeGrade(grade: string, students: seq<StudentData>)
    ensures var t := Targets(SingleGrade(Some(grade), students, []));
      |t| == |students| && forall i :: 0 <= i < |t| ==> t[i].student.name == students[i].student.name
  {
  }

  // ------------------------------------------------------------ grade scale

  /** A row of `SELECT * FROM grade_scales`. */
  datatype RawScale = RawScale(id: int, gradeLabel: string, minPct: real, maxPct: real, gradeId: Option<int>)

  /** The row as handed to the generator: keyed by the table's own column
      names, none of which the grade lookup reads. */
  function RawRow(r: RawScale): Row {
    map["id" := Num(r.id as real), "grade_label" := Str(r.gradeLabel), "min_pct" := Num(r.minPct),
        "max_pct" := Num(r.maxPct), "grade_id" := if r.gradeId.Some? then Num(r.gradeId.value as real) else Null]
  }

  function RawRows(rs: seq<RawScale>): (rows: seq<Row>)
    ensures |rows| == |rs|
    ensures forall i :: 0 <= i < |rs| ==> rows[i] == RawRow(rs[i])
  {
    seq(|rs|, i requires 0 <= i < |rs| => RawRow(rs[i]))
  }

  /** A raw row reads as the band 0..100 with an empty label. */
  lemma RawRowReadsBlank(r: RawScale)
    ensures BandMin(RawRow(r)) == 0.0 && BandMax(RawRow(r)) == 100.0
    ensures BandLabel(RawRow(r)) == Some("")
  {
    var g := RawRow(r);
    assert g.Keys == {"id", "grade_label", "min_pct", "max_pct", "grade_id"};
    assert "Min%" !in g && "Min" !in g && "Max%" !in g && "Max" !in g by {
      assert "Min%"[0] != "id"[0] && "Min%"[0] != "grade_label"[0] && "Min%"[0] != "min_pct"[0];
      assert "Min%"[0] != "max_pct"[0] && "Min%"[0] != "grade_id"[0];
      assert "Max%"[0] != "id"[0] && "Max%"[0] != "grade_label"[0] && "Max%"[0] != "min_pct"[0];
      assert "Max%"[0] != "max_pct"[0] && "Max%"[0] != "grade_id"[0];
    }
    assert "Grade" !in g && "Score" !in g by {
      assert "Grade"[0] != "id"[0] && "Grade"[0] != "grade_label"[0] && "Grade"[0] != "min_pct"[0];
      assert "Grade"[0] != "max_pct"[0] && "Grade"[0] != "grade_id"[0];
      assert "Score"[0] != "id"[0] && "Score"[0] != "grade_label"[0] && "Score"[0] != "min_pct"[0];
      assert "Score"[0] != "max_pct"[0] && "Score"[0] != "grade_id"[0];
    }
    assert Strip("") == "";
  }

  /** So a principal's report never shows a grade: every lookup is blank. */
  lemma RawScaleGivesNoGrade(rs: seq<RawScale>, pct: real)
    ensures LookupGrade(pct, RawRows(rs)) == ""
  {
    var rows := RawRows(rs);
    forall i | 0 <= i < |rows|
      ensures BandLabel(rows[i]) == Some("")
    {
      RawRowReadsBlank(rs[i]);
    }
  }

  /** The grade column of every subject row is blank or a placeholder. */
  lemma GradeColumnBlank(r: Report.AcademicRow, rs: seq<RawScale>)
    ensures Report.SubjectRow(r, RawRows(rs))[6] == Tables.Txt("") || Report.SubjectRow(r, RawRows(rs))[6] == Tables.Txt("-")
  {
    forall pct: real
      ensures LookupGrade(pct, RawRows(rs)) == ""
    {
      RawScaleGivesNoGrade(rs, pct);
    }
  }

  // ------------------------------------------------------------ the batch

  /** `ct_sigs_map.get(gid)`: the class-teacher signature of the student's
      grade, `None` when the grade is unknown. */
  function CtSignFor(sigs: map<int, Option<string>>, grade: Option<int>): (p: Option<string>)
    ensures grade.Some? && grade.value in sigs ==> p == sigs[grade.value]
    ensures grade.None? || grade.value !in sigs ==> p.None?
  {
    if grade.Some? && grade.value in sigs then sigs[grade.value] else None
  }

  /** What the batch reads once for the school. */
  datatype SchoolContext = SchoolContext(scale: seq<RawScale>, ctSigs: map<int, Option<string>>,
                                         today: string, readable: set<string>)

  /** One student's card: no background is passed, so the default frame is
      used when it exists. */
  function Card(ctx: SchoolContext, d: StudentData): (c: Report.ReportCard)
    ensures c.status == "PASSED" <==> Report.OverallPct(Report.MapMarks(d.marks)) >= Report.PassMark
    ensures c.background <==> Report.DefaultFrame in ctx.readable
    ensures c.academic == Report.AcademicTable(Report.MapMarks(d.marks), RawRows(ctx.scale))
    ensures c.commentLines == Report.CommentLines(d.remark.GetOr(""))
  {
    Report.AdapterReport(d.student.name, d.student.gradeName, d.marks, ClassTeacher.DbSkills(d.skills),
                         d.remark.GetOr(""), RawRows(ctx.scale),
                         ClassTeacher.IfExists(Some(ClassTeacher.PrincipalSignFile), ctx.readable),
                         d.student.parentSign, CtSignFor(ctx.ctSigs, d.student.gradeId), None, ctx.today, ctx.readable)
  }

  /** The archive base name: grade and student name, spaces turned into
      underscores. */
  function BaseName(s: Student): (b: string)
    ensures |b| == |s.gradeName| + 1 + |s.name| && ' ' !in b
    ensures b[|s.gradeName|] == '_'
    ensures forall i :: 0 <= i < |s.name| && s.name[i] != ' ' ==> b[|s.gradeName| + 1 + i] == s.name[i]
  {
    var raw := s.gradeName + "_" + s.name;
    assert forall i :: 0 <= i < |s.name| ==> raw[|s.gradeName| + 1 + i] == s.name[i];
    Underscored(raw)
  }

  function RenderAll(ctx: SchoolContext, targets: seq<StudentData>, render: Report.ReportCard -> Bytes,
                     convert: Bytes -> Option<Bytes>): (rs: seq<Batch.Rendered>)
    ensures |rs| == |targets|
    ensures forall i :: 0 <= i < |targets| ==>
      rs[i] == Batch.Rendered(BaseName(targets[i].student), render(Card(ctx, targets[i])),
                              convert(render(Card(ctx, targets[i]))))
  {
    seq(|targets|, i requires 0 <= i < |targets| => RenderOne(ctx, targets[i], render, convert))
  }

  /** One target's archive name, PDF and conversion. */
  function RenderOne(ctx: SchoolContext, d: StudentData, render: Report.ReportCard -> Bytes,
                     convert: Bytes -> Option<Bytes>): Batch.Rendered {
    var pdf := render(Card(ctx, d));
    Batch.Rendered(BaseName(d.student), pdf, convert(pdf))
  }

  const NoStudents: string := "No students selected."
  const NoFormat: string := "Select output format."
  const NothingRendered: string := "No reports generated."

  /** A target whose marks make its report raise. */
  predicate RaisesAt(targets: seq<StudentData>, i: int) {
    0 <= i < |targets| && Report.ReportRaises(targets[i].marks)
  }

  /** "Generate Reports": refused without students, then refused without a
      format; a target whose report raises ends the batch with no archive;
      otherwise the archive is offered exactly when some target's report
      rendered, holding that student's PDF when "PDF" is chosen. */
  function Generate(ctx: SchoolContext, scope: Scope, formats: seq<string>,
                    render: Report.ReportCard -> Bytes, convert: Bytes -> Option<Bytes>): (o: Batch.Outcome)
    ensures |Targets(scope)| == 0 ==> o == Batch.Refused(NoStudents)
    ensures |Targets(scope)| > 0 && |formats| == 0 ==> o == Batch.Refused(NoFormat)
    ensures o.Raised? <==> |Targets(scope)| > 0 && |formats| > 0 && exists i :: RaisesAt(Targets(scope), i)
    ensures o.Zip? <==> |Targets(scope)| > 0 && |formats| > 0 && (forall i :: !RaisesAt(Targets(scope), i)) &&
                        exists i :: 0 <= i < |Targets(scope)| && render(Card(ctx, Targets(scope)[i])) != []
    ensures o.Zip? ==> forall i :: 0 <= i < |Targets(scope)| && render(Card(ctx, Targets(scope)[i])) != [] &&
                                   "PDF" in formats ==>
      Batch.Entry(BaseName(Targets(scope)[i].student) + ".pdf", render(Card(ctx, Targets(scope)[i]))) in o.entries
    ensures o.Failed? ==> o == Batch.Failed(NothingRendered)
  {
    var targets := Targets(scope);
    if |targets| == 0 then Batch.Refused(NoStudents)
    else if |formats| == 0 then Batch.Refused(NoFormat)
    else if exists i :: 0 <= i < |targets| && RaisesAt(targets, i) then Batch.Raised
    else
      var rs := RenderAll(ctx, targets, render, convert);
      PdfEntries(ctx, targets, formats, render, convert, rs);
      Batch.Finish(rs, formats, NothingRendered)
  }

  lemma PdfEntries(ctx: SchoolContext, targets: seq<StudentData>, formats: seq<string>,
                   render: Report.ReportCard -> Bytes, convert: Bytes -> Option<Bytes>, rs: seq<Batch.Rendered>)
    requires rs == RenderAll(ctx, targets, render, convert)
    ensures forall i :: 0 <= i < |targets| && render(Card(ctx, targets[i])) != [] && "PDF" in formats ==>
      Batch.Entry(BaseName(targets[i].student) + ".pdf", render(Card(ctx, targets[i]))) in Batch.AllEntries(rs, formats)
    ensures Batch.AnyRendered(rs) <==> exists i :: 0 <= i < |targets| && render(Card(ctx, targets[i])) != []
  {
    forall i | 0 <= i < |targets| && render(Card(ctx, targets[i])) != [] && "PDF" in formats
      ensures Batch.Entry(BaseName(targets[i].student) + ".pdf", render(Card(ctx, targets[i])))
                in Batch.AllEntries(rs, formats)
    {
      Batch.AllEntriesHoldsEach(rs, formats, i);
      assert Batch.Entry(rs[i].base + ".pdf", rs[i].pdf) in Batch.EntriesOf(rs[i], formats);
    }
  }
}
