/** The single-file generator `report_card_app_final_v5.py`: merit bands
    read from a CSV file and sorted by descending Min, seven fixed subjects,
    five fixed skills with a default score of 1, and the teacher's comment
    wrapped greedily at 90 characters. */
module LegacyV5 {
  import opened PyValues
  import opened PyText
  import opened Tables
  import opened Merit
  import Report

  // ------------------------------------------------------ capitalize_first

  function CapitalizeAll(ws: seq<string>): (r: seq<string>)
    ensures |r| == |ws|
    ensures forall i :: 0 <= i < |ws| ==> r[i] == Capitalize(ws[i])
  {
    if |ws| == 0 then [] else [Capitalize(ws[0])] + CapitalizeAll(ws[1..])
  }

  lemma CapitalizeAllKeepsWords(ws: seq<string>)
    requires forall i :: 0 <= i < |ws| ==> |ws[i]| > 0 && NoSpace(ws[i])
    ensures forall i :: 0 <= i < |ws| ==> |CapitalizeAll(ws)[i]| > 0 && NoSpace(CapitalizeAll(ws)[i])
  {
    forall i | 0 <= i < |ws|
      ensures |CapitalizeAll(ws)[i]| > 0 && NoSpace(CapitalizeAll(ws)[i])
    {
      CapitalizeKeepsWord(ws[i]);
    }
  }

  /** `capitalize_first`: every whitespace-separated word capitalised, the
      words joined by single spaces. The words of the result are exactly
      the capitalised words of the input. */
  function CapitalizeWords(text: string): (r: string)
    ensures Words(r) == CapitalizeAll(Words(text))
  {
    CapitalizeAllKeepsWords(Words(text));
    WordsOfJoin(CapitalizeAll(Words(text)));
    JoinSpace(CapitalizeAll(Words(text)))
  }

  /** Capitalising an already capitalised text changes nothing. */
  lemma CapitalizeWordsTwice(text: string)
    ensures CapitalizeWords(CapitalizeWords(text)) == CapitalizeWords(text)
  {
    var ws := CapitalizeAll(Words(text));
    var twice := CapitalizeAll(ws);
    forall i | 0 <= i < |ws|
      ensures twice[i] == ws[i]
    {
      CapitalizeTwice(Words(text)[i]);
    }
    assert twice == ws;
  }

  // ------------------------------------------------------ merit CSV

  /** A CSV record: column name to text; a column the file lacks is absent. */
  type CsvRow = map<string, string>

  /** `r.get(column, '')` */
  function Field(r: CsvRow, column: string): string {
    if column in r then r[column] else ""
  }

  /** The row's subject, stripped and upper-cased. */
  function SubjectOf(r: CsvRow): string {
    Upper(Strip(Field(r, "Subject")))
  }

  /** `int(r.get('Total', '') or 100)`, and 100 where that raises. */
  function TotalOf(r: CsvRow): (t: int)
    ensures Field(r, "Total") == "" ==> t == 100
    ensures ParseInt(Field(r, "Total")).Some? ==> t == ParseInt(Field(r, "Total")).value
    ensures ParseInt(Field(r, "Total")).None? ==> t == 100
  {
    ParseInt(Field(r, "Total")).GetOr(100)
  }

  /** `float(x or 0)`: an empty cell reads as 0. */
  function FloatOrZero(s: string): Option<real> {
    if s == "" then Some(0.0) else ParseFloat(s)
  }

  /** The row's band: when Min or Max fails to convert, both become 0;
      grade and comment are stripped. */
  function BandOf(r: CsvRow): (b: Band)
    ensures b.grade == Strip(Field(r, "Grade")) && b.comment == Strip(Field(r, "Comment"))
    ensures FloatOrZero(Field(r, "Min")).Some? && FloatOrZero(Field(r, "Max")).Some? ==>
              b.min == FloatOrZero(Field(r, "Min")).value && b.max == FloatOrZero(Field(r, "Max")).value
    ensures FloatOrZero(Field(r, "Min")).None? || FloatOrZero(Field(r, "Max")).None? ==> b.min == 0.0 && b.max == 0.0
  {
    var mn := FloatOrZero(Field(r, "Min"));
    var mx := FloatOrZero(Field(r, "Max"));
    var grade := Strip(Field(r, "Grade"));
    var comment := Strip(Field(r, "Comment"));
    if mn.Some? && mx.Some? then Band(mn.value, mx.value, grade, comment) else Band(0.0, 0.0, grade, comment)
  }

  function Entries(rows: seq<CsvRow>): (es: seq<(string, Band)>)
    ensures |es| == |rows|
    ensures forall i :: 0 <= i < |rows| ==> es[i] == (SubjectOf(rows[i]), BandOf(rows[i]))
  {
    seq(|rows|, i requires 0 <= i < |rows| => (SubjectOf(rows[i]), BandOf(rows[i])))
  }

  /** The Total of the last row naming the subject (100 when none does). */
  function LastTotal(rows: seq<CsvRow>, subject: string): int {
    if |rows| == 0 then 100
    else if SubjectOf(rows[|rows| - 1]) == subject then TotalOf(rows[|rows| - 1])
    else LastTotal(rows[..|rows| - 1], subject)
  }

  /** Every later row overwrites a subject's total: it is the Total of the
      last row that names the subject. */
  lemma {:induction false} LastTotalIsLastRow(rows: seq<CsvRow>, subject: string, i: nat)
    requires i < |rows| && SubjectOf(rows[i]) == subject
    requires forall j :: i < j < |rows| ==> SubjectOf(rows[j]) != subject
    ensures LastTotal(rows, subject) == TotalOf(rows[i])
    decreases |rows|
  {
    if i < |rows| - 1 {
      var init := rows[..|rows| - 1];
      assert init[i] == rows[i];
      LastTotalIsLastRow(init, subject, i);
    }
  }

  datatype SubjectMerit = SubjectMerit(total: int, ranges: seq<Band>)

  /** `load_merit_csv`: one entry per subject named in the file (none when
      the file is missing, which is the empty row list). */
  function LoadMerit(rows: seq<CsvRow>): (m: map<string, SubjectMerit>)
    ensures m.Keys == Subjects(Entries(rows))
    ensures forall s :: s in m ==> m[s].total == LastTotal(rows, s)
    ensures forall s :: s in m ==> m[s].ranges == SortDesc(BandsOf(Entries(rows), s))
  {
    var g := Group(Entries(rows));
    map s | s in g :: SubjectMerit(LastTotal(rows, s), SortDesc(g[s]))
  }

  /** A subject's bands after loading: exactly the subject's rows (as a
      multiset), sorted by descending Min, rows with the same Min still in
      file order. */
  lemma LoadMeritBands(rows: seq<CsvRow>, subject: string, m: real)
    requires subject in LoadMerit(rows)
    ensures var rs := LoadMerit(rows)[subject].ranges;
      && SortedDesc(rs)
      && multiset(rs) == multiset(BandsOf(Entries(rows), subject))
      && WithMin(rs, m) == WithMin(BandsOf(Entries(rows), subject), m)
  {
    SortDescSorted(BandsOf(Entries(rows), subject));
    SortDescStable(BandsOf(Entries(rows), subject), m);
  }

  function RangesOf(merit: map<string, SubjectMerit>): (g: map<string, seq<Band>>)
    ensures g.Keys == merit.Keys
    ensures forall s :: s in g ==> g[s] == merit[s].ranges
  {
    map s | s in merit :: merit[s].ranges
  }

  /** `find_grade_comment`: the grade and comment of a band of the subject
      or of ALL that covers the score, and ("", "") only when none does. */
  function FindGradeComment(merit: map<string, SubjectMerit>, subject: string, score: real): (r: (string, string))
    ensures r == ("", "") || exists k, i :: (k in merit && (k == Upper(subject) || k == All)
                                             && 0 <= i < |merit[k].ranges| && Covers(merit[k].ranges[i], score)
                                             && r == (merit[k].ranges[i].grade, merit[k].ranges[i].comment))
    ensures (forall k, i :: k in merit && (k == Upper(subject) || k == All) && 0 <= i < |merit[k].ranges|
               ==> !Covers(merit[k].ranges[i], score)) ==> r == ("", "")
  {
    ResolveFromCoveringBand(RangesOf(merit), subject, score);
    Resolve(RangesOf(merit), subject, score)
  }

  /** With sorted bands, the band chosen for a score has the largest Min of
      all the subject's bands that cover it. */
  lemma FindGradeCommentPicksHighestBand(rows: seq<CsvRow>, subject: string, score: real)
    requires Upper(subject) in LoadMerit(rows)
    requires FirstCovering(LoadMerit(rows)[Upper(subject)].ranges, score).Some?
    ensures var rs := LoadMerit(rows)[Upper(subject)].ranges;
      var b := rs[FirstCovering(rs, score).value];
      && FindGradeComment(LoadMerit(rows), subject, score) == (b.grade, b.comment)
      && forall c :: c in BandsOf(Entries(rows), Upper(subject)) && Covers(c, score) ==> c.min <= b.min
  {
    SortedFirstCoveringHasLargestMin(BandsOf(Entries(rows), Upper(subject)), score);
  }

  // ------------------------------------------------------ subject table

  const FixedSubjects: seq<string> := ["ENGLISH", "HINDI", "ISLAMIC", "MATHS", "SOCIAL", "SCIENCE", "IT"]

  /** A subject's score as entered; a subject without a score counts 0. */
  function ScoreOf(scores: map<string, real>, subject: string): real {
    if subject in scores then scores[subject] else 0.0
  }

  /** A subject's total marks from the merit file, 100 by default. */
  function OutOf(merit: map<string, SubjectMerit>, subject: string): int {
    if subject in merit then merit[subject].total else 100
  }

  function ScoredSum(scores: map<string, real>, subjects: seq<string>): real {
    if |subjects| == 0 then 0.0
    else ScoredSum(scores, subjects[..|subjects| - 1]) + ScoreOf(scores, subjects[|subjects| - 1])
  }

  function OutOfSum(merit: map<string, SubjectMerit>, subjects: seq<string>): int {
    if |subjects| == 0 then 0
    else OutOfSum(merit, subjects[..|subjects| - 1]) + OutOf(merit, subjects[|subjects| - 1])
  }

  /** Without a merit file every subject is out of 100, so the seven
      subjects are out of 700. */
  lemma {:induction false} DefaultOutOf(merit: map<string, SubjectMerit>, subjects: seq<string>)
    requires forall i :: 0 <= i < |subjects| ==> subjects[i] !in merit
    ensures OutOfSum(merit, subjects) == 100 * |subjects|
    decreases |subjects|
  {
    if |subjects| > 0 {
      DefaultOutOf(merit, subjects[..|subjects| - 1]);
    }
  }

  /** The overall percentage, 0 when the totals add up to 0. */
  function Percentage(scores: map<string, real>, merit: map<string, SubjectMerit>): (p: real)
    ensures OutOfSum(merit, FixedSubjects) == 0 ==> p == 0.0
    ensures OutOfSum(merit, FixedSubjects) != 0 ==>
      p * OutOfSum(merit, FixedSubjects) as real == ScoredSum(scores, FixedSubjects) * 100.0
  {
    var out := OutOfSum(merit, FixedSubjects);
    if out != 0 then ScoredSum(scores, FixedSubjects) / out as real * 100.0 else 0.0
  }

  const SubjectHeader: TableRow :=
    [Txt("SUBJECTS"), Txt("SCORED"), Txt("TOTAL MARK"), Txt("GRADE"), Txt("COMMENTS")]

  /** One fixed subject's row: truncated score, total marks, and the grade
      and comment the merit bands give for the untruncated score. */
  function SubjectRow(scores: map<string, real>, merit: map<string, SubjectMerit>, subject: string): (r: TableRow)
    ensures |r| == 5 && r[0] == Txt(subject)
    ensures r[1] == Whole(Trunc(ScoreOf(scores, subject))) && r[2] == Whole(OutOf(merit, subject))
    ensures r[3] == Txt(FindGradeComment(merit, subject, ScoreOf(scores, subject)).0)
    ensures r[4] == Txt(FindGradeComment(merit, subject, ScoreOf(scores, subject)).1)
  {
    var gc := FindGradeComment(merit, subject, ScoreOf(scores, subject));
    [Txt(subject), Whole(Trunc(ScoreOf(scores, subject))), Whole(OutOf(merit, subject)), Txt(gc.0), Txt(gc.1)]
  }

  function SubjectRows(scores: map<string, real>, merit: map<string, SubjectMerit>, subjects: seq<string>): (t: seq<TableRow>)
    ensures |t| == |subjects|
    ensures forall i :: 0 <= i < |subjects| ==> t[i] == SubjectRow(scores, merit, subjects[i])
  {
    if |subjects| == 0 then [] else [SubjectRow(scores, merit, subjects[0])] + SubjectRows(scores, merit, subjects[1..])
  }

  function TotalRow(scores: map<string, real>, merit: map<string, SubjectMerit>): (r: TableRow)
    ensures |r| == 5 && r[0] == Txt("TOTAL")
    ensures r[1] == Whole(Trunc(ScoredSum(scores, FixedSubjects)))
    ensures r[2] == Whole(OutOfSum(merit, FixedSubjects))
    ensures r[3] == Pct(Percentage(scores, merit))
  {
    [Txt("TOTAL"), Whole(Trunc(ScoredSum(scores, FixedSubjects))), Whole(OutOfSum(merit, FixedSubjects)),
     Pct(Percentage(scores, merit)), Txt("")]
  }

  /** The subject table: header, the seven fixed subjects in order, TOTAL. */
  function SubjectTable(scores: map<string, real>, merit: map<string, SubjectMerit>): (t: seq<TableRow>)
    ensures |t| == 9
    ensures t[0] == SubjectHeader
    ensures forall i :: 0 <= i < 7 ==> t[i + 1] == SubjectRow(scores, merit, FixedSubjects[i])
    ensures t[8] == TotalRow(scores, merit)
  {
    [SubjectHeader] + SubjectRows(scores, merit, FixedSubjects) + [TotalRow(scores, merit)]
  }

  // ------------------------------------------------------ skills table

  const SkillNames: seq<string> :=
    ["LEVEL 1 (REMEMBERING)", "LEVEL 2 (UNDERSTANDING)", "LEVEL 3 (APPLYING)",
     "REGULARITY & PUNCTUALITY", "NEATNESS & ORDERLINESS"]

  /** A skill's score as entered; a skill without a score counts 1. */
  function SkillScore(scores: map<string, int>, skill: string): int {
    if skill in scores then scores[skill] else 1
  }

  function SkillComment(score: int): (c: string)
    ensures c != "" <==> 1 <= score <= 4
  {
    if score == 4 then "Outstanding"
    else if score == 3 then "Accomplished"
    else if score == 2 then "Progressing"
    else if score == 1 then "Beginning"
    else ""
  }

  /** Reading a comment back as its score. */
  function CommentScore(c: string): int {
    if c == "Outstanding" then 4
    else if c == "Accomplished" then 3
    else if c == "Progressing" then 2
    else if c == "Beginning" then 1
    else 0
  }

  /** The four comments are distinct: each gives back its score. */
  lemma SkillCommentRoundTrip(score: int)
    requires 1 <= score <= 4
    ensures CommentScore(SkillComment(score)) == score
  {
    assert "Outstanding"[0] != "Accomplished"[0] && "Outstanding"[0] != "Progressing"[0];
    assert "Outstanding"[0] != "Beginning"[0] && "Accomplished"[0] != "Progressing"[0];
    assert "Accomplished"[0] != "Beginning"[0] && "Progressing"[0] != "Beginning"[0];
  }

  const SkillHeader: TableRow := [Txt("SKILLS / WORK HABITS"), Txt("SCORE"), Txt("COMMENTS")]

  function SkillRows(scores: map<string, int>, skills: seq<string>): (t: seq<TableRow>)
    ensures |t| == |skills|
    ensures forall i :: 0 <= i < |skills| ==>
      t[i] == [Txt(skills[i]), Whole(SkillScore(scores, skills[i])), Txt(SkillComment(SkillScore(scores, skills[i])))]
  {
    if |skills| == 0 then []
    else [[Txt(skills[0]), Whole(SkillScore(scores, skills[0])), Txt(SkillComment(SkillScore(scores, skills[0])))]]
           + SkillRows(scores, skills[1..])
  }

  /** The skills table: header and the five fixed skills in order; a skill
      left out of the input shows score 1 and "Beginning". */
  function SkillTable(scores: map<string, int>): (t: seq<TableRow>)
    ensures |t| == 6 && t[0] == SkillHeader
    ensures forall i :: 0 <= i < 5 ==> SkillNames[i] !in scores ==>
      t[i + 1] == [Txt(SkillNames[i]), Whole(1), Txt("Beginning")]
  {
    [SkillHeader] + SkillRows(scores, SkillNames)
  }

  // ------------------------------------------------------ comment wrapping

  const WrapWidth: nat := 90
  const MaxDrawnLines: nat := 6

  /** `(line + " " + word).strip()` for a line built from words. */
  lemma StripJoin(line: string, w: string)
    requires line == "" || (!IsSpace(line[0]) && !IsSpace(line[|line| - 1]))
    requires |w| > 0 && NoSpace(w)
    ensures Strip(line + " " + w) == if line == "" then w else line + " " + w
  {
    var s := line + " " + w;
    if line == "" {
      assert s == " " + w;
      assert s[1..] == w;
      assert LStrip(s) == LStrip(w) == w;
    } else {
      assert s[0] == line[0];
      assert LStrip(s) == s;
    }
    assert RStrip(s[|s| - |LStrip(s)|..]) == LStrip(s);
  }

  /** The greedy loop: a word that would push the line past 90 characters
      starts a new line, and the line so far is emitted even when empty. */
  function WrapFrom(words: seq<string>, lines: seq<string>, line: string): seq<string>
    decreases |words|
  {
    if |words| == 0 then (if line != "" then lines + [line] else lines)
    else
      var test := Strip(line + " " + words[0]);
      if |test| > WrapWidth then WrapFrom(words[1..], lines + [line], words[0])
      else WrapFrom(words[1..], lines, test)
  }

  /** The wrapped comment. */
  function Wrap(comment: string): seq<string> {
    WrapFrom(Words(comment), [], "")
  }

  /** The lines actually drawn: at most six. */
  function DrawnLines(comment: string): (ls: seq<string>)
    ensures |ls| <= MaxDrawnLines && |ls| <= |Wrap(comment)|
    ensures ls == Wrap(comment)[..|ls|]
    ensures |Wrap(comment)| <= MaxDrawnLines ==> ls == Wrap(comment)
  {
    var all := Wrap(comment);
    if |all| <= MaxDrawnLines then all else all[..MaxDrawnLines]
  }

  predicate ShortOrSingleWord(l: string) {
    |l| <= WrapWidth || NoSpace(l)
  }

  predicate WordList(ws: seq<string>) {
    forall i :: 0 <= i < |ws| ==> |ws[i]| > 0 && NoSpace(ws[i])
  }

  predicate Trimmed(line: string) {
    line == "" || (!IsSpace(line[0]) && !IsSpace(line[|line| - 1]))
  }

  lemma {:induction false} WrapFromShort(words: seq<string>, lines: seq<string>, line: string)
    requires WordList(words) && Trimmed(line) && ShortOrSingleWord(line)
    requires forall i :: 0 <= i < |lines| ==> ShortOrSingleWord(lines[i])
    ensures forall i :: 0 <= i < |WrapFrom(words, lines, line)| ==> ShortOrSingleWord(WrapFrom(words, lines, line)[i])
    decreases |words|
  {
    if |words| > 0 {
      var w := words[0];
      StripJoin(line, w);
      var test := Strip(line + " " + w);
      assert WordList(words[1..]);
      if |test| > WrapWidth {
        WrapFromShort(words[1..], lines + [line], w);
      } else {
        assert Trimmed(test) by {
          if line != "" { assert test == line + " " + w; }
        }
        WrapFromShort(words[1..], lines, test);
      }
    }
  }

  /** Every wrapped line fits in 90 characters or is a single long word. */
  lemma WrapLinesShort(comment: string)
    ensures forall i :: 0 <= i < |Wrap(comment)| ==> ShortOrSingleWord(Wrap(comment)[i])
  {
    WrapFromShort(Words(comment), [], "");
  }

  /** The non-empty lines. */
  function NonEmpty(ls: seq<string>): (r: seq<string>)
    ensures forall i :: 0 <= i < |r| ==> r[i] != ""
  {
    if |ls| == 0 then []
    else NonEmpty(ls[..|ls| - 1]) + (if ls[|ls| - 1] != "" then [ls[|ls| - 1]] else [])
  }

  lemma NonEmptySnoc(ls: seq<string>, x: string)
    ensures NonEmpty(ls + [x]) == NonEmpty(ls) + (if x != "" then [x] else [])
  {
    assert (ls + [x])[..|ls|] == ls;
  }

  /** Joining with a space inside one element or between two elements gives
      the same text. */
  lemma {:induction false} JoinSpaceSplitElement(a: seq<string>, x: string, y: string, b: seq<string>)
    ensures JoinSpace(a + [x + " " + y] + b) == JoinSpace(a + [x, y] + b)
    decreases |a|
  {
    if |a| == 0 {
      assert a + [x + " " + y] + b == [x + " " + y] + b;
      assert a + [x, y] + b == [x, y] + b;
      assert ([x, y] + b)[1..] == [y] + b;
      if |b| == 0 {
        assert ([y] + b) == [y];
      } else {
        assert ([x + " " + y] + b)[1..] == b;
        assert ([y] + b)[1..] == b;
      }
    } else {
      JoinSpaceSplitElement(a[1..], x, y, b);
      assert (a + [x + " " + y] + b)[1..] == a[1..] + [x + " " + y] + b;
      assert (a + [x, y] + b)[1..] == a[1..] + [x, y] + b;
    }
  }

  lemma {:induction false} WrapFromJoin(words: seq<string>, lines: seq<string>, line: string)
    requires WordList(words) && Trimmed(line)
    ensures JoinSpace(NonEmpty(WrapFrom(words, lines, line))) == JoinSpace(NonEmpty(lines + [line]) + words)
    decreases |words|
  {
    if |words| == 0 {
      NonEmptySnoc(lines, line);
      assert NonEmpty(lines + [line]) + words == NonEmpty(lines + [line]);
      if line != "" {
        assert WrapFrom(words, lines, line) == lines + [line];
      } else {
        assert WrapFrom(words, lines, line) == lines;
        assert NonEmpty(lines + [line]) == NonEmpty(lines) + [];
        assert NonEmpty(lines) + [] == NonEmpty(lines);
      }
    } else {
      var w := words[0];
      var rest := words[1..];
      assert words == [w] + rest;
      assert WordList(rest);
      StripJoin(line, w);
      var test := if line == "" then w else line + " " + w;
      assert Strip(line + " " + w) == test;
      if |test| > WrapWidth {
        assert WrapFrom(words, lines, line) == WrapFrom(rest, lines + [line], w);
        WrapFromJoin(rest, lines + [line], w);
        NewLineStep(lines, line, w, rest);
      } else {
        assert WrapFrom(words, lines, line) == WrapFrom(rest, lines, test);
        assert Trimmed(test) by {
          if line != "" { assert test[0] == line[0] && test[|test| - 1] == w[|w| - 1]; }
        }
        WrapFromJoin(rest, lines, test);
        if line == "" {
          FirstWordStep(lines, w, rest);
        } else {
          SameLineStep(lines, line, w, rest);
        }
      }
    }
  }

  lemma NewLineStep(lines: seq<string>, line: string, w: string, rest: seq<string>)
    requires |w| > 0
    ensures NonEmpty(lines + [line] + [w]) + rest == NonEmpty(lines + [line]) + ([w] + rest)
  {
    NonEmptySnoc(lines + [line], w);
  }

  lemma FirstWordStep(lines: seq<string>, w: string, rest: seq<string>)
    requires |w| > 0
    ensures NonEmpty(lines + [w]) + rest == NonEmpty(lines + [""]) + ([w] + rest)
  {
    NonEmptySnoc(lines, w);
    NonEmptySnoc(lines, "");
  }

  lemma SameLineStep(lines: seq<string>, line: string, w: string, rest: seq<string>)
    requires line != ""
    ensures JoinSpace(NonEmpty(lines + [line + " " + w]) + rest)
         == JoinSpace(NonEmpty(lines + [line]) + ([w] + rest))
  {
    var ne := NonEmpty(lines);
    var x := line + " " + w;
    assert NonEmpty(lines + [x]) + rest == ne + [x] + rest by {
      assert x != "" by { assert |x| == |line| + 1 + |w|; }
      NonEmptySnoc(lines, x);
    }
    assert NonEmpty(lines + [line]) + ([w] + rest) == ne + [line, w] + rest by {
      NonEmptySnoc(lines, line);
    }
    JoinSpaceSplitElement(ne, line, w, rest);
  }

  /** Wrapping loses and reorders nothing: the non-empty lines joined by
      single spaces are the comment's words joined by single spaces. */
  lemma WrapKeepsWords(comment: string)
    ensures JoinSpace(NonEmpty(Wrap(comment))) == JoinSpace(Words(comment))
  {
    WrapFromJoin(Words(comment), [], "");
    NonEmptySnoc([], "");
    assert [] + [""] == [""];
    assert NonEmpty([""]) == [];
    assert [] + Words(comment) == Words(comment);
  }

  /** A first word longer than 90 characters is preceded by an empty line. */
  lemma LongFirstWordLeavesBlankLine(w: string)
    requires |w| > WrapWidth && NoSpace(w)
    ensures Wrap(w) == ["", w]
  {
    SingleWord(w);
    LongWordFirst(w);
  }

  lemma SingleWord(w: string)
    requires |w| > 0 && NoSpace(w)
    ensures Words(w) == [w]
  {
    WordsCons(w, "");
    assert w + "" == w;
    assert Words("") == [];
  }

  lemma LongWordFirst(w: string)
    requires |w| > WrapWidth && NoSpace(w)
    ensures WrapFrom([w], [], "") == ["", w]
  {
    assert |Strip("" + " " + w)| > WrapWidth by {
      StripJoin("", w);
    }
    assert WrapFrom([w], [], "") == WrapFrom([], [""], w) by {
      assert [w][1..] == [];
      assert [] + [""] == [""];
    }
  }

  // ------------------------------------------------------ the page

  /** Everything `create_report_card_bytes` draws. `today` stands for the
      clock. */
  datatype V5Card = V5Card(nameLine: string, gradeLine: string, subjects: seq<TableRow>,
                           skills: seq<TableRow>, commentLines: seq<string>, status: string,
                           preparedOn: string, preparedBy: string)

  function RenderV5(name: string, grade: string, scores: map<string, real>, skillScores: map<string, int>,
                    comment: string, preparedBy: string, merit: map<string, SubjectMerit>, today: string): (c: V5Card)
    ensures c.nameLine == "Name: " + CapitalizeWords(name)
    ensures c.gradeLine == "Grade: " + CapitalizeWords(grade)
    ensures c.subjects == SubjectTable(scores, merit) && |c.subjects| == 9
    ensures c.skills == SkillTable(skillScores) && |c.skills| == 6
    ensures c.commentLines == DrawnLines(comment) && |c.commentLines| <= MaxDrawnLines
    ensures c.preparedOn == today && c.preparedBy == preparedBy
    ensures c.status == "PASSED" <==> Percentage(scores, merit) >= Report.PassMark
  {
    V5Card("Name: " + CapitalizeWords(name), "Grade: " + CapitalizeWords(grade), SubjectTable(scores, merit),
           SkillTable(skillScores), DrawnLines(comment), Report.Status(Percentage(scores, merit)), today, preparedBy)
  }

  /** The bytes returned: a JPG when "JPG" is asked for (in any case) and the
      conversion succeeds, else the PDF. */
  function OutputBytes(outputFormat: string, pdf: Bytes, jpg: Option<Bytes>): (b: Bytes)
    ensures Upper(outputFormat) == "JPG" && jpg.Some? ==> b == jpg.value
    ensures Upper(outputFormat) != "JPG" || jpg.None? ==> b == pdf
  {
    if Upper(outputFormat) == "JPG" && jpg.Some? then jpg.value else pdf
  }
}
