/** The class-teacher dashboard (`modules/class_teacher.py`): how edited
    marks, skill scores and remarks are saved, and how the report cards of
    the teacher's grade are assembled into one archive. Database tables
    are maps and query results are sequences. */
module ClassTeacher {
  import opened PyValues
  import opened PyText
  import opened GradeScale
  import Report
  import Batch

  // ------------------------------------------------------------ saving marks

  /** One row of the marks editor for the chosen subject. `None` is an
      empty cell (NaN). */
  datatype MarkEdit = MarkEdit(studentId: int, te: Option<real>, ce: Option<real>, remarks: Option<string>)

  /** A row of the marks table. */
  datatype StoredMark = StoredMark(te: Option<real>, ce: Option<real>, remarks: string)

  /** The marks table, keyed by (student, subject). */
  type MarksTable = map<(int, int), StoredMark>

  /** An empty score is stored as NULL, not as 0; an empty remark as "". */
  function StoredOf(e: MarkEdit): (m: StoredMark)
    ensures m.te == e.te && m.ce == e.ce
    ensures m.remarks == if e.remarks.Some? then e.remarks.value else ""
  {
    StoredMark(e.te, e.ce, e.remarks.GetOr(""))
  }

  /** The last of the edits that names the student, if any. */
  predicate LastFor(edits: seq<MarkEdit>, i: int) {
    0 <= i < |edits| && forall j :: i < j < |edits| ==> edits[j].studentId != edits[i].studentId
  }

  /** "Save Marks": an upsert per edited row, keyed by (student, subject). */
  function SaveMarks(marks: MarksTable, subject: int, edits: seq<MarkEdit>): (m: MarksTable)
    ensures forall k :: k in marks ==> k in m
    ensures forall k :: k in marks && k.1 != subject ==> m[k] == marks[k]
    ensures forall k :: k in marks && (forall i :: 0 <= i < |edits| ==> edits[i].studentId != k.0) ==> m[k] == marks[k]
    ensures forall k :: k in m && k !in marks ==>
      k.1 == subject && exists i :: 0 <= i < |edits| && edits[i].studentId == k.0
  {
    if |edits| == 0 then marks
    else
      var init := edits[..|edits| - 1];
      var last := edits[|edits| - 1];
      var m0 := SaveMarks(marks, subject, init);
      assert forall i :: 0 <= i < |init| ==> init[i] == edits[i];
      m0[(last.studentId, subject) := StoredOf(last)]
  }

  /** Each student's row ends up as its last edit, empty cells as NULL. */
  lemma {:induction false} SaveMarksStores(marks: MarksTable, subject: int, edits: seq<MarkEdit>, i: int)
    requires LastFor(edits, i)
    ensures (edits[i].studentId, subject) in SaveMarks(marks, subject, edits)
    ensures SaveMarks(marks, subject, edits)[(edits[i].studentId, subject)] == StoredOf(edits[i])
    decreases |edits|
  {
    if i < |edits| - 1 {
      var init := edits[..|edits| - 1];
      assert LastFor(init, i);
      SaveMarksStores(marks, subject, init, i);
    }
  }

  /** Saving a row whose scores were both left empty stores NULL for both,
      so the adapter maps the subject as ungraded rather than graded 0. But
      the report is read through `pd.read_sql`, so when any other subject of
      the student (`others`) has a score, the NULL reads as NaN and
      rendering the report raises. */
  lemma EmptyScoresStayUngraded(marks: MarksTable, subject: int, edits: seq<MarkEdit>, i: nat,
                                name: string, teMax: Option<real>, ceMax: Option<real>,
                                others: seq<Report.DbMark>)
    requires LastFor(edits, i) && edits[i].te.None? && edits[i].ce.None?
    ensures (edits[i].studentId, subject) in SaveMarks(marks, subject, edits)
    ensures var m := SaveMarks(marks, subject, edits)[(edits[i].studentId, subject)];
      var row := Report.DbMark(name, m.te, m.ce, teMax, ceMax, Some(m.remarks));
      && !Report.Graded(Report.MapMark(row))
      && (Report.ReportRaises([row] + others) <==>
            exists j :: 0 <= j < |others| && (others[j].teScore.Some? || others[j].ceScore.Some?))
  {
    SaveMarksStores(marks, subject, edits, i);
    var m := SaveMarks(marks, subject, edits)[(edits[i].studentId, subject)];
    var row := Report.DbMark(name, m.te, m.ce, teMax, ceMax, Some(m.remarks));
    Report.BlankRowRaisesIffScored(row, others);
  }

  // ------------------------------------------------------------ saving skills

  /** The skills table, keyed by (student, skill name). */
  type SkillsTable = map<(int, string), int>

  /** The skill cells of one row of the skills editor, in column order;
      `None` is an empty cell. */
  function SaveSkillRow(skills: SkillsTable, student: int, cells: seq<(string, Option<real>)>): (s: SkillsTable)
    ensures forall k :: k in skills ==> k in s
    ensures forall k :: k in s && k !in skills ==> k.0 == student
    ensures forall k :: k in skills && k.0 != student ==> s[k] == skills[k]
    ensures forall k :: k in skills && (forall i :: 0 <= i < |cells| && cells[i].0 == k.1 ==> cells[i].1.None?) ==>
      s[k] == skills[k]
    ensures forall i :: 0 <= i < |cells| && cells[i].1.Some? && (forall j :: i < j < |cells| ==> cells[j].0 != cells[i].0) ==>
      (student, cells[i].0) in s && s[(student, cells[i].0)] == Trunc(cells[i].1.value)
  {
    if |cells| == 0 then skills
    else
      var init := cells[..|cells| - 1];
      var last := cells[|cells| - 1];
      var s0 := SaveSkillRow(skills, student, init);
      assert forall i :: 0 <= i < |init| ==> init[i] == cells[i];
      if last.1.Some? then s0[(student, last.0) := Trunc(last.1.value)] else s0
  }

  /** Clearing a skill cell does not clear the stored score: it keeps its
      old value. */
  lemma ClearedSkillKeepsScore(skills: SkillsTable, student: int, skill: string, old_score: int)
    requires (student, skill) in skills && skills[(student, skill)] == old_score
    ensures SaveSkillRow(skills, student, [(skill, None)])[(student, skill)] == old_score
  {
  }

  /** "Save Skills & Remarks" for one student's remark: always written,
      "" when empty. */
  function SaveRemark(remarks: map<int, string>, student: int, remark: Option<string>): (r: map<int, string>)
    ensures r.Keys == remarks.Keys + {student}
    ensures r[student] == if remark.Some? then remark.value else ""
    ensures forall k :: k in remarks && k != student ==> r[k] == remarks[k]
  {
    remarks[student := remark.GetOr("")]
  }

  // ------------------------------------------------------------ the batch

  datatype Student = Student(id: int, name: string, admission: string, parentSign: Option<string>)

  /** A grade-scale row of the grade (or of the global scale). */
  datatype ScaleRecord = ScaleRecord(grade: string, minPct: real, maxPct: real)

  /** The query aliases `min_pct`, `max_pct` and `grade_label` to the
      column names the generator reads. */
  function ScaleRow(r: ScaleRecord): Row {
    Band(r.minPct, r.maxPct, r.grade)
  }

  /** The grade's own scale when it has one, else the global scale. */
  function ScaleRows(specific: seq<ScaleRecord>, global: seq<ScaleRecord>): (rows: seq<Row>)
    ensures |specific| > 0 ==> |rows| == |specific| && forall i :: 0 <= i < |specific| ==> rows[i] == ScaleRow(specific[i])
    ensures |specific| == 0 ==> |rows| == |global| && forall i :: 0 <= i < |global| ==> rows[i] == ScaleRow(global[i])
  {
    var chosen := if |specific| > 0 then specific else global;
    seq(|chosen|, i requires 0 <= i < |chosen| => ScaleRow(chosen[i]))
  }

  /** With well-formed labels, a report's grade is the label of the first
      record, of the chosen scale, whose range holds the percentage. */
  lemma ScaleRowsGrade(specific: seq<ScaleRecord>, global: seq<ScaleRecord>, pct: real, i: nat)
    requires var chosen := if |specific| > 0 then specific else global;
      && i < |chosen|
      && (forall j :: 0 <= j < |chosen| ==> chosen[j].grade != "" && NoSpace(chosen[j].grade))
      && chosen[i].minPct <= pct <= chosen[i].maxPct
      && (forall j :: 0 <= j < i ==> !(chosen[j].minPct <= pct <= chosen[j].maxPct))
    ensures LookupGrade(pct, ScaleRows(specific, global)) == (if |specific| > 0 then specific else global)[i].grade
  {
    var chosen := if |specific| > 0 then specific else global;
    var rows := ScaleRows(specific, global);
    forall j | 0 <= j < |chosen|
      ensures GradeHit(pct, rows[j]) <==> chosen[j].minPct <= pct <= chosen[j].maxPct
      ensures BandLabel(rows[j]) == Some(chosen[j].grade)
    {
      BandReads(chosen[j].minPct, chosen[j].maxPct, chosen[j].grade);
    }
    assert FirstGradeHit(pct, rows, i);
  }

  /** The (TE, CE) maxima of a subject in a grade: the grade's own
      configuration, else the subject's defaults, else (100, 0). */
  function Limits(config: map<(int, int), (real, real)>, defaults: map<int, (real, real)>,
                  subject: int, grade: int): (l: (real, real))
    ensures (subject, grade) in config ==> l == config[(subject, grade)]
    ensures (subject, grade) !in config && subject in defaults ==> l == defaults[subject]
    ensures (subject, grade) !in config && subject !in defaults ==> l == (100.0, 0.0)
  {
    if (subject, grade) in config then config[(subject, grade)]
    else if subject in defaults then defaults[subject]
    else (100.0, 0.0)
  }

  /** A mark row of the student, joined with its subject. */
  datatype MarkRecord = MarkRecord(subjectId: int, subjectName: string, te: Option<real>, ce: Option<real>,
                                   remarks: Option<string>)

  function DbMarkOf(config: map<(int, int), (real, real)>, defaults: map<int, (real, real)>, grade: int,
                    r: MarkRecord): Report.DbMark {
    var l := Limits(config, defaults, r.subjectId, grade);
    Report.DbMark(r.subjectName, r.te, r.ce, Some(l.0), Some(l.1), r.remarks)
  }

  /** The full marks printed for a subject are its TE and CE maxima added,
      whichever level they came from (a TE maximum of 0 reads as 100). */
  lemma FullMarksFromLimits(config: map<(int, int), (real, real)>, defaults: map<int, (real, real)>, grade: int,
                            r: MarkRecord)
    ensures var l := Limits(config, defaults, r.subjectId, grade);
      Report.MapMark(DbMarkOf(config, defaults, grade, r)).fullMarks == (if l.0 != 0.0 then l.0 else 100.0) + l.1
  {
  }

  function DbMarks(config: map<(int, int), (real, real)>, defaults: map<int, (real, real)>, grade: int,
                   rs: seq<MarkRecord>): (ms: seq<Report.DbMark>)
    ensures |ms| == |rs|
    ensures forall i :: 0 <= i < |rs| ==> ms[i] == DbMarkOf(config, defaults, grade, rs[i])
  {
    seq(|rs|, i requires 0 <= i < |rs| => DbMarkOf(config, defaults, grade, rs[i]))
  }

  /** A skill row of the student; the query has no remark column, so every
      skill gets the fixed remark of its score. */
  datatype SkillRecord = SkillRecord(skillName: string, score: Option<int>)

  function DbSkills(rs: seq<SkillRecord>): (ss: seq<Report.DbSkill>)
    ensures |ss| == |rs|
    ensures forall i :: 0 <= i < |rs| ==> ss[i].skillName == rs[i].skillName && ss[i].remark.None?
  {
    seq(|rs|, i requires 0 <= i < |rs| =>
      Report.DbSkill(rs[i].skillName, if rs[i].score.Some? then Some(rs[i].score.value as real) else None, None))
  }

  /** Everything the loop reads for one student. */
  datatype StudentData = StudentData(student: Student, marks: seq<MarkRecord>, skills: seq<SkillRecord>,
                                     remark: Option<string>)

  /** Everything the batch reads once for the grade. `readable` is the set of
      files that exist. */
  datatype GradeContext = GradeContext(gradeId: int, gradeName: string, scaleSpecific: seq<ScaleRecord>,
                                       scaleGlobal: seq<ScaleRecord>, config: map<(int, int), (real, real)>,
                                       defaults: map<int, (real, real)>, ctSign: Option<string>,
                                       background: Option<string>, today: string, readable: set<string>)

  const PrincipalSignFile: string := "principal_sign.png"

  /** A file path kept only when the file exists. */
  function IfExists(path: Option<string>, readable: set<string>): (p: Option<string>)
    ensures p.Some? <==> path.Some? && path.value in readable
    ensures p.Some? ==> p == path
  {
    if path.Some? && path.value in readable then path else None
  }

  /** The report card of one student, as the adapter builds it. */
  function Card(ctx: GradeContext, d: StudentData): (c: Report.ReportCard)
    ensures c.status == "PASSED" <==>
      Report.OverallPct(Report.MapMarks(DbMarks(ctx.config, ctx.defaults, ctx.gradeId, d.marks))) >= Report.PassMark
    ensures c.academic == Report.AcademicTable(Report.MapMarks(DbMarks(ctx.config, ctx.defaults, ctx.gradeId, d.marks)),
                                               ScaleRows(ctx.scaleSpecific, ctx.scaleGlobal))
    ensures c.commentLines == Report.CommentLines(d.remark.GetOr(""))
  {
    Report.AdapterReport(d.student.name, ctx.gradeName, DbMarks(ctx.config, ctx.defaults, ctx.gradeId, d.marks),
                         DbSkills(d.skills), d.remark.GetOr(""), ScaleRows(ctx.scaleSpecific, ctx.scaleGlobal),
                         IfExists(Some(PrincipalSignFile), ctx.readable), d.student.parentSign, ctx.ctSign,
                         IfExists(ctx.background, ctx.readable), ctx.today, ctx.readable)
  }

  /** The archive base name: name and admission number, spaces turned into
      underscores. */
  function BaseName(s: Student): (b: string)
    ensures |b| == |s.name| + 1 + |s.admission| && ' ' !in b
    ensures forall i :: 0 <= i < |s.name| && s.name[i] != ' ' ==> b[i] == s.name[i]
    ensures b[|s.name|] == '_'
  {
    Underscored(s.name + "_" + s.admission)
  }

  function NameOf(d: StudentData): string {
    d.student.name
  }

  function RenderAll(ctx: GradeContext, targets: seq<StudentData>, render: Report.ReportCard -> Bytes,
                     convert: Bytes -> Option<Bytes>): (rs: seq<Batch.Rendered>)
    ensures |rs| == |targets|
    ensures forall i :: 0 <= i < |targets| ==>
      rs[i] == Batch.Rendered(BaseName(targets[i].student), render(Card(ctx, targets[i])),
                              convert(render(Card(ctx, targets[i]))))
  {
    seq(|targets|, i requires 0 <= i < |targets| =>
      Batch.Rendered(BaseName(targets[i].student), render(Card(ctx, targets[i])), convert(render(Card(ctx, targets[i])))))
  }

  /** Student `i` was selected and its report rendered to a non-empty PDF. */
  predicate Rendered(ctx: GradeContext, students: seq<StudentData>, selected: seq<string>,
                     render: Report.ReportCard -> Bytes, i: int) {
    0 <= i < |students| && students[i].student.name in selected && render(Card(ctx, students[i])) != []
  }

  /** Student `i` was selected and reading its marks makes the report raise. */
  predicate Raises(ctx: GradeContext, students: seq<StudentData>, selected: seq<string>, i: int) {
    0 <= i < |students| && students[i].student.name in selected
    && Report.ReportRaises(DbMarks(ctx.config, ctx.defaults, ctx.gradeId, students[i].marks))
  }

  predicate AnyRaises(ctx: GradeContext, students: seq<StudentData>, selected: seq<string>) {
    exists i :: 0 <= i < |students| && Raises(ctx, students, selected, i)
  }

  const NoSelection: string := "Please select students and output format."
  const NothingRendered: string := "No reports generated (check data)."

  /** "Generate Reports". `render` stands for the PDF library and `convert`
      for the JPG conversion (`None` when it raises). Nothing is generated
      without a selected student and a format; a selected student whose
      report raises ends the batch with no archive; otherwise the archive
      is offered exactly when a selected student's report rendered, and it
      then holds the PDF of every such student when "PDF" is chosen. */
  function Generate(ctx: GradeContext, students: seq<StudentData>, selected: seq<string>, formats: seq<string>,
                    render: Report.ReportCard -> Bytes, convert: Bytes -> Option<Bytes>): (o: Batch.Outcome)
    ensures |selected| == 0 || |formats| == 0 ==> o == Batch.Refused(NoSelection)
    ensures o.Raised? <==> (|selected| > 0 && |formats| > 0 && exists i :: Raises(ctx, students, selected, i))
    ensures o.Zip? <==> (|selected| > 0 && |formats| > 0 && (forall i :: !Raises(ctx, students, selected, i))
                         && exists i :: Rendered(ctx, students, selected, render, i))
    ensures o.Zip? ==> forall i :: Rendered(ctx, students, selected, render, i) && "PDF" in formats ==>
      Batch.Entry(BaseName(students[i].student) + ".pdf", render(Card(ctx, students[i]))) in o.entries
    ensures o.Failed? ==> o == Batch.Failed(NothingRendered)
  {
    if |selected| == 0 || |formats| == 0 then Batch.Refused(NoSelection)
    else if AnyRaises(ctx, students, selected) then Batch.Raised
    else
      var targets := Batch.Chosen(students, NameOf, selected);
      var rs := RenderAll(ctx, targets, render, convert);
      var o := Batch.Finish(rs, formats, NothingRendered);
      GenerateFacts(ctx, students, selected, formats, render, convert, targets, rs);
      o
  }

  lemma GenerateFacts(ctx: GradeContext, students: seq<StudentData>, selected: seq<string>, formats: seq<string>,
                      render: Report.ReportCard -> Bytes, convert: Bytes -> Option<Bytes>,
                      targets: seq<StudentData>, rs: seq<Batch.Rendered>)
    requires targets == Batch.Chosen(students, NameOf, selected)
    requires rs == RenderAll(ctx, targets, render, convert)
    ensures Batch.AnyRendered(rs) <==> exists i :: Rendered(ctx, students, selected, render, i)
    ensures forall i :: Rendered(ctx, students, selected, render, i) && "PDF" in formats ==>
      Batch.Entry(BaseName(students[i].student) + ".pdf", render(Card(ctx, students[i]))) in Batch.AllEntries(rs, formats)
  {
    if Batch.AnyRendered(rs) {
      RenderedStudent(ctx, students, selected, render, convert, targets, rs);
    }
    forall i | Rendered(ctx, students, selected, render, i)
      ensures Batch.AnyRendered(rs)
      ensures "PDF" in formats ==>
        Batch.Entry(BaseName(students[i].student) + ".pdf", render(Card(ctx, students[i]))) in Batch.AllEntries(rs, formats)
    {
      TargetRendered(ctx, students, selected, formats, render, convert, targets, rs, i);
    }
  }

  lemma RenderedStudent(ctx: GradeContext, students: seq<StudentData>, selected: seq<string>,
                        render: Report.ReportCard -> Bytes, convert: Bytes -> Option<Bytes>,
                        targets: seq<StudentData>, rs: seq<Batch.Rendered>)
    requires targets == Batch.Chosen(students, NameOf, selected)
    requires rs == RenderAll(ctx, targets, render, convert)
    requires Batch.AnyRendered(rs)
    ensures exists i :: Rendered(ctx, students, selected, render, i)
  {
    var k :| 0 <= k < |rs| && rs[k].pdf != [];
    var t := targets[k];
    assert rs[k].pdf == render(Card(ctx, t));
    assert t in targets;
    assert t in students && NameOf(t) in selected;
    var i :| 0 <= i < |students| && students[i] == t;
    assert Rendered(ctx, students, selected, render, i);
  }

  lemma TargetRendered(ctx: GradeContext, students: seq<StudentData>, selected: seq<string>, formats: seq<string>,
                       render: Report.ReportCard -> Bytes, convert: Bytes -> Option<Bytes>,
                       targets: seq<StudentData>, rs: seq<Batch.Rendered>, i: int)
    requires targets == Batch.Chosen(students, NameOf, selected)
    requires rs == RenderAll(ctx, targets, render, convert)
    requires Rendered(ctx, students, selected, render, i)
    ensures Batch.AnyRendered(rs)
    ensures "PDF" in formats ==>
      Batch.Entry(BaseName(students[i].student) + ".pdf", render(Card(ctx, students[i]))) in Batch.AllEntries(rs, formats)
  {
    assert NameOf(students[i]) in selected;
    assert students[i] in targets;
    var k :| 0 <= k < |targets| && targets[k] == students[i];
    var r := rs[k];
    assert r.base == BaseName(students[i].student) && r.pdf == render(Card(ctx, students[i]));
    assert r.pdf != [];
    Batch.AllEntriesHoldsEach(rs, formats, k);
    if "PDF" in formats {
      assert Batch.Entry(r.base + ".pdf", r.pdf) in Batch.EntriesOf(r, formats);
    }
  }
}
