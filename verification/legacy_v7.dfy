/** The single-file generator `report_card_app_final_v7.py`: merit bands
    read from a CSV file and kept in file order, seven fixed subjects each
    out of 100, and a plain-text-or-hash password check at login. */
module LegacyV7 {
  import opened PyValues
  import opened PyText
  import opened Tables
  import opened Merit
  import Report
  import Auth
  import LegacyV5

  // ------------------------------------------------------ capitalize_first

  /** `capitalize_first`: the whole text capitalised, first character
      upper-cased and every other character lower-cased, so only the first
      word of a full name keeps its capital. */
  function CapitalizeFirst(text: string): (r: string)
    ensures |r| == |text|
    ensures |text| > 0 ==> r[0] == UpperChar(text[0])
    ensures forall i :: 0 < i < |text| ==> r[i] == LowerChar(text[i])
  {
    Capitalize(text)
  }

  lemma CapitalizeFirstTwice(text: string)
    ensures CapitalizeFirst(CapitalizeFirst(text)) == CapitalizeFirst(text)
  {
    CapitalizeTwice(text);
  }

  /** Unlike the v5 helper, a second word loses its capital. */
  lemma SecondWordLowered()
    ensures CapitalizeFirst("AMINA KHAN") == "Amina khan"
  {
    assert CapitalizeFirst("AMINA KHAN")[6] == LowerChar('K');
  }

  // ------------------------------------------------------ merit CSV

  /** `float(r.get(column, 0))`: an absent column reads as 0, a present one
      must convert. */
  function BoundOf(r: LegacyV5.CsvRow, column: string): Option<real> {
    if column in r then ParseFloat(r[column]) else Some(0.0)
  }

  /** The row's band: when Min or Max fails to convert (an empty cell
      included) both become 0; grade and comment are taken as they are. */
  function BandOf(r: LegacyV5.CsvRow): (b: Band)
    ensures b.grade == LegacyV5.Field(r, "Grade") && b.comment == LegacyV5.Field(r, "Comment")
    ensures BoundOf(r, "Min").Some? && BoundOf(r, "Max").Some? ==>
              b.min == BoundOf(r, "Min").value && b.max == BoundOf(r, "Max").value
    ensures BoundOf(r, "Min").None? || BoundOf(r, "Max").None? ==> b.min == 0.0 && b.max == 0.0
  {
    var mn := BoundOf(r, "Min");
    var mx := BoundOf(r, "Max");
    var grade := LegacyV5.Field(r, "Grade");
    var comment := LegacyV5.Field(r, "Comment");
    if mn.Some? && mx.Some? then Band(mn.value, mx.value, grade, comment) else Band(0.0, 0.0, grade, comment)
  }

  /** The row's subject, upper-cased but not stripped. */
  function SubjectOf(r: LegacyV5.CsvRow): string {
    Upper(LegacyV5.Field(r, "Subject"))
  }

  function Entries(rows: seq<LegacyV5.CsvRow>): (es: seq<(string, Band)>)
    ensures |es| == |rows|
    ensures forall i :: 0 <= i < |rows| ==> es[i] == (SubjectOf(rows[i]), BandOf(rows[i]))
  {
    seq(|rows|, i requires 0 <= i < |rows| => (SubjectOf(rows[i]), BandOf(rows[i])))
  }

  /** `load_merit`: one group per subject named in the file, holding the
      bands of that subject's rows in file order, unsorted. */
  function LoadMerit(rows: seq<LegacyV5.CsvRow>): (g: map<string, seq<Band>>)
    ensures g.Keys == Subjects(Entries(rows))
    ensures forall s :: s in g ==> g[s] == BandsOf(Entries(rows), s) && |g[s]| > 0
  {
    Group(Entries(rows))
  }

  /** `grade_comment` on the loaded groups: the earliest row in the file
      naming the subject whose band covers the score decides. */
  lemma GradeCommentPicksFirstRow(rows: seq<LegacyV5.CsvRow>, subject: string, score: real, i: nat)
    requires i < |rows| && SubjectOf(rows[i]) == Upper(subject) && Covers(BandOf(rows[i]), score)
    requires forall j :: 0 <= j < i && SubjectOf(rows[j]) == Upper(subject) ==> !Covers(BandOf(rows[j]), score)
    ensures Resolve(LoadMerit(rows), subject, score) == (BandOf(rows[i]).grade, BandOf(rows[i]).comment)
  {
    FirstCoveringOfBandsOf(Entries(rows), Upper(subject), score, i);
  }

  /** When no row of the subject covers the score, the "ALL" rows are
      searched, again earliest first. */
  lemma GradeCommentFallsBackToAll(rows: seq<LegacyV5.CsvRow>, subject: string, score: real, i: nat)
    requires forall j :: 0 <= j < |rows| && SubjectOf(rows[j]) == Upper(subject) ==> !Covers(BandOf(rows[j]), score)
    requires i < |rows| && SubjectOf(rows[i]) == All && Covers(BandOf(rows[i]), score)
    requires forall j :: 0 <= j < i && SubjectOf(rows[j]) == All ==> !Covers(BandOf(rows[j]), score)
    ensures Resolve(LoadMerit(rows), subject, score) == (BandOf(rows[i]).grade, BandOf(rows[i]).comment)
  {
    BandsOfNotCovering(Entries(rows), Upper(subject), score);
    FirstCoveringOfBandsOf(Entries(rows), All, score, i);
  }

  // ------------------------------------------------------ login

  /** `verify_password` of this version: the stored value is always text. */
  function VerifyPassword(stored: string, provided: string, hashCheck: Option<bool>): (ok: bool)
    ensures !StartsWith(stored, Auth.HashPrefix) ==> (ok <==> provided == stored)
    ensures StartsWith(stored, Auth.HashPrefix) ==> (ok <==> hashCheck == Some(true))
  {
    if StartsWith(stored, "pbkdf2$") then hashCheck == Some(true) else stored == provided
  }

  /** It answers as the shared `auth.py` check does on a stored text. */
  lemma VerifyPasswordAgreesWithAuth(stored: string, provided: string, hashCheck: Option<bool>)
    ensures VerifyPassword(stored, provided, hashCheck) == Auth.VerifyPassword(Some(stored), provided, hashCheck)
  {
  }

  // ------------------------------------------------------ the submit block

  const SubjectHeader: TableRow := [Txt("SUBJECTS"), Txt("SCORED"), Txt("TOTAL"), Txt("GRADE"), Txt("COMMENTS")]

  /** Every subject is out of 100. */
  const OutOf: int := 100

  /** `subscores.get(s, 0)` */
  function ScoreOf(scores: map<string, int>, subject: string): int {
    if subject in scores then scores[subject] else 0
  }

  function ScoredSum(scores: map<string, int>, subjects: seq<string>): int {
    if |subjects| == 0 then 0
    else ScoredSum(scores, subjects[..|subjects| - 1]) + ScoreOf(scores, subjects[|subjects| - 1])
  }

  function SubjectRow(scores: map<string, int>, merit: map<string, seq<Band>>, subject: string): TableRow {
    var gc := Resolve(merit, subject, ScoreOf(scores, subject) as real);
    [Txt(subject), Whole(ScoreOf(scores, subject)), Whole(OutOf), Txt(gc.0), Txt(gc.1)]
  }

  /** The percentage over the seven subjects, each out of 100. */
  function Percentage(scores: map<string, int>): (p: real)
    ensures p * 700.0 == ScoredSum(scores, LegacyV5.FixedSubjects) as real * 100.0
  {
    ScoredSum(scores, LegacyV5.FixedSubjects) as real / 700.0 * 100.0
  }

  /** PASSED exactly when the seven scores add up to at least 280. */
  lemma PassesIffTwoEighty(scores: map<string, int>)
    ensures Report.Status(Percentage(scores)) == "PASSED" <==> ScoredSum(scores, LegacyV5.FixedSubjects) >= 280
  {
    var p := Percentage(scores);
    assert p == ScoredSum(scores, LegacyV5.FixedSubjects) as real / 7.0;
  }

  function SubjectRows(scores: map<string, int>, merit: map<string, seq<Band>>, subjects: seq<string>): (t: seq<TableRow>)
    ensures |t| == |subjects|
    ensures forall i :: 0 <= i < |subjects| ==> t[i] == SubjectRow(scores, merit, subjects[i])
  {
    seq(|subjects|, i requires 0 <= i < |subjects| => SubjectRow(scores, merit, subjects[i]))
  }

  lemma SubjectRowsSnoc(scores: map<string, int>, merit: map<string, seq<Band>>, subjects: seq<string>, s: string)
    ensures SubjectRows(scores, merit, subjects + [s]) == SubjectRows(scores, merit, subjects) + [SubjectRow(scores, merit, s)]
  {
    var a := SubjectRows(scores, merit, subjects + [s]);
    var b := SubjectRows(scores, merit, subjects) + [SubjectRow(scores, merit, s)];
    assert |a| == |b|;
    forall k | 0 <= k < |a|
      ensures a[k] == b[k]
    {
      if k < |subjects| {
        assert (subjects + [s])[k] == subjects[k];
      }
    }
  }

  function TotalRow(scores: map<string, int>): (r: TableRow)
    ensures |r| == 5 && r[0] == Txt("TOTAL") && r[2] == Whole(700)
    ensures r[1] == Whole(ScoredSum(scores, LegacyV5.FixedSubjects)) && r[3] == Pct(Percentage(scores))
  {
    [Txt("TOTAL"), Whole(ScoredSum(scores, LegacyV5.FixedSubjects)), Whole(700), Pct(Percentage(scores)), Txt("")]
  }

  /** The subject table, stated directly: header, the seven fixed subjects
      in order, then TOTAL with 700 marks. */
  function SubjectTable(scores: map<string, int>, merit: map<string, seq<Band>>): (t: seq<TableRow>)
    ensures |t| == 9 && t[0] == SubjectHeader && t[8] == TotalRow(scores)
    ensures t[1..8] == SubjectRows(scores, merit, LegacyV5.FixedSubjects)
  {
    var rows := SubjectRows(scores, merit, LegacyV5.FixedSubjects);
    var t := [SubjectHeader] + rows + [TotalRow(scores)];
    assert t[1..8] == rows;
    t
  }

  /** The submit loop over a list of subjects: one row per subject, the
      score added to the scored total and 100 to the marks total. */
  method SubjectLoop(scores: map<string, int>, merit: map<string, seq<Band>>, subjects: seq<string>)
    returns (rows: seq<TableRow>, totalScored: int, totalOut: int)
    ensures rows == SubjectRows(scores, merit, subjects)
    ensures totalScored == ScoredSum(scores, subjects) && totalOut == OutOf * |subjects|
  {
    rows := [];
    totalScored := 0;
    totalOut := 0;
    var i := 0;
    while i < |subjects|
      invariant 0 <= i <= |subjects|
      invariant rows == SubjectRows(scores, merit, subjects[..i])
      invariant totalScored == ScoredSum(scores, subjects[..i])
      invariant totalOut == OutOf * i
    {
      assert subjects[..i + 1] == subjects[..i] + [subjects[i]];
      assert subjects[..i + 1][..i] == subjects[..i];
      SubjectRowsSnoc(scores, merit, subjects[..i], subjects[i]);
      rows := rows + [SubjectRow(scores, merit, subjects[i])];
      totalScored := totalScored + ScoreOf(scores, subjects[i]);
      totalOut := totalOut + OutOf;
      i := i + 1;
    }
    assert subjects[..i] == subjects;
  }

  /** The submit block: the loop over the seven fixed subjects, then the
      percentage and the TOTAL row. */
  method Submit(scores: map<string, int>, merit: map<string, seq<Band>>)
    returns (table: seq<TableRow>, totalScored: int, totalOut: int, pct: real)
    ensures totalOut == 700 && totalScored == ScoredSum(scores, LegacyV5.FixedSubjects)
    ensures pct == Percentage(scores)
    ensures table == SubjectTable(scores, merit)
  {
    var rows;
    rows, totalScored, totalOut := SubjectLoop(scores, merit, LegacyV5.FixedSubjects);
    pct := if totalOut != 0 then totalScored as real / totalOut as real * 100.0 else 0.0;
    table := [SubjectHeader] + rows + [[Txt("TOTAL"), Whole(totalScored), Whole(totalOut), Pct(pct), Txt("")]];
  }

  /** What the submit block draws: the name and grade as typed but
      capitalised, the subject table and the status line. The skill scores
      and the teacher's comment are asked for but never drawn. `today` stands
      for the clock. */
  datatype V7Card = V7Card(nameLine: string, gradeLine: string, subjects: seq<TableRow>,
                           status: string, preparedOn: string, preparedBy: string)

  function RenderV7(name: string, grade: string, scores: map<string, int>, merit: map<string, seq<Band>>,
                    user: string, today: string): (c: V7Card)
    ensures c.nameLine == "Name: " + Capitalize(name) && c.gradeLine == "Grade: " + Capitalize(grade)
    ensures |c.subjects| == 9 && c.subjects == SubjectTable(scores, merit)
    ensures c.status == "PASSED" <==> ScoredSum(scores, LegacyV5.FixedSubjects) >= 280
    ensures c.preparedOn == today && c.preparedBy == CapitalizeFirst(user)
  {
    PassesIffTwoEighty(scores);
    V7Card("Name: " + Capitalize(name), "Grade: " + Capitalize(grade), SubjectTable(scores, merit),
           Report.Status(Percentage(scores)), today, CapitalizeFirst(user))
  }

  /** The download: a JPG when "JPG" was chosen and the conversion
      succeeded, else the PDF; the file is named after the student with
      spaces turned into underscores and the extension matching the data. */
  datatype Download = Download(fileName: string, data: Bytes, mime: string)

  function DownloadOf(name: string, fmt: string, pdf: Bytes, jpg: Option<Bytes>): (d: Download)
    ensures ' ' !in d.fileName
    ensures d.mime == "image/jpeg" <==> fmt == "JPG" && jpg.Some?
    ensures d.mime == "image/jpeg" ==> d.data == jpg.value && d.fileName == Underscored(name) + "_ReportCard.jpg"
    ensures d.mime != "image/jpeg" ==> d.mime == "application/pdf" && d.data == pdf
                                       && d.fileName == Underscored(name) + "_ReportCard.pdf"
  {
    if fmt == "JPG" && jpg.Some? then Download(Underscored(name) + "_ReportCard.jpg", jpg.value, "image/jpeg")
    else Download(Underscored(name) + "_ReportCard.pdf", pdf, "application/pdf")
  }
}
