/** `modules/admin.py`: the administrator's rules for accounts, academic
    setup and uploads — the edit form's name split, single and bulk account
    creation, the class-teacher grade sync, new subjects, the grade-scale
    target list, bulk student import, Cartesian subject assignment and the
    names given to uploaded files. Query results are inputs and the tables
    the statements change are values. */
module Admin {
  import opened PyValues
  import opened PyText
  import Auth

  // ------------------------------------------------------------ names

  /** The edit form's split of a stored full name at its first space: the
      last name is empty when there is no space. */
  function SplitFullName(name: string): (r: (string, string))
    ensures ' ' !in r.0
    ensures ' ' !in name ==> r == (name, "")
    ensures ' ' in name ==> name == r.0 + " " + r.1
  {
    var parts := SplitOnceAtSpace(name);
    (parts[0], if |parts| > 1 then parts[1] else "")
  }

  /** `f"{first} {last}".strip()`, the full name a form stores. */
  function JoinFullName(first: string, last: string): string {
    Strip(first + " " + last)
  }

  /** Saving the edit form without touching the name fields stores the same
      full name, for every name that neither starts nor ends with
      whitespace. */
  lemma EditKeepsFullName(name: string)
    requires |name| > 0 ==> !IsSpace(name[0]) && !IsSpace(name[|name| - 1])
    ensures JoinFullName(SplitFullName(name).0, SplitFullName(name).1) == name
  {
    var (first, last) := SplitFullName(name);
    if ' ' in name {
      StripKeeps(name);
    } else {
      var t := name + " ";
      assert first + " " + last == t;
      assert t[..|t| - 1] == name;
      if |name| == 0 {
        assert LStrip(t) == LStrip("") == "";
      } else {
        assert LStrip(t) == t;
        assert RStrip(t) == RStrip(name) == name;
      }
    }
  }

  // ------------------------------------------------------------ CSV cells

  /** A CSV cell: its text, or NaN for an empty cell. A column pandas
      reads as numbers is not distinguished from text. */
  datatype CsvCell = Text(s: string) | Blank

  /** One CSV record; a column the file lacks is absent from the map. */
  type CsvRow = map<string, CsvCell>

  /** How the imports turn a cell into text. `AsWritten` is
      `str(row.get(col, default)).strip()`, where NaN prints as "nan";
      `Intended` reads an empty cell as if the column were missing. */
  datatype Reading = AsWritten | Intended

  function CellText(row: CsvRow, col: string, default: string, reading: Reading): (t: string)
    ensures col in row && row[col].Text? ==> t == Strip(row[col].s)
    ensures col !in row || (row[col].Blank? && reading == Intended) ==> t == Strip(default)
    ensures col in row && row[col].Blank? && reading == AsWritten ==> t == "nan"
  {
    if col !in row then Strip(default)
    else match row[col]
      case Text(s) => Strip(s)
      case Blank => if reading == AsWritten then "nan" else Strip(default)
  }

  // ------------------------------------------------------------ accounts

  /** One row of `users`; `password` is the password the stored PBKDF2 hash
      was made from. */
  datatype UserRecord = UserRecord(fullName: string, role: string, dashboard: string, password: string)

  /** The `users` table, keyed by its primary key `username`. */
  type Users = map<string, UserRecord>

  /** An account to insert: its username and its row of `users`. */
  datatype NewUser = NewUser(username: string, record: UserRecord)

  const DefaultRole: string := "Teacher"

  /** The account one CSV row of the bulk upload asks for: none when the
      first name is empty; otherwise the generated username and password,
      the full name `"{first} {last}"`, the role (Teacher when the column is
      missing) and the dashboard `"{role} Dashboard"`. */
  function BulkCandidate(row: CsvRow, reading: Reading): (c: Option<NewUser>)
    ensures c.None? <==> CellText(row, "First Name", "", reading) == ""
    ensures c.Some? ==> c.value.username != ""
    ensures c.Some? ==> c.value.record.dashboard == c.value.record.role + " Dashboard"
    ensures c.Some? && "Role" !in row ==> c.value.record.role == DefaultRole
  {
    var first := CellText(row, "First Name", "", reading);
    if first == "" then None
    else
      assert Strip(DefaultRole) == DefaultRole by { StripKeeps(DefaultRole); }
      Some(Account(first, CellText(row, "Last Name", "", reading), CellText(row, "Role", DefaultRole, reading)))
  }

  /** The account for a stripped, non-empty first name. */
  function Account(first: string, last: string, role: string): (n: NewUser)
    requires first != "" && Strip(first) == first
    ensures n.username != ""
    ensures n.record == UserRecord(first + " " + last, role, role + " Dashboard", n.record.password)
  {
    var u := Auth.GenerateUsername(first, last);
    assert |u| >= |first|;
    NewUser(u, UserRecord(first + " " + last, role, role + " Dashboard", Auth.GeneratePassword(first, last)))
  }

  /** `after` is `before` plus the `created` accounts: none of them existed
      before, each is listed once with its password, and no other account
      changes. */
  predicate Extends(before: Users, after: Users, created: seq<(string, string)>) {
    && before.Keys <= after.Keys
    && (forall u :: u in before ==> after[u] == before[u])
    && (forall i :: 0 <= i < |created| ==>
          created[i].0 !in before && created[i].0 in after && after[created[i].0].password == created[i].1)
    && (forall u :: u in after && u !in before ==> exists i :: 0 <= i < |created| && created[i].0 == u)
    && (forall i, j :: 0 <= i < j < |created| ==> created[i].0 != created[j].0)
  }

  lemma ExtendsStep(before: Users, after: Users, created: seq<(string, string)>, c: NewUser)
    requires Extends(before, after, created)
    requires c.username !in after
    ensures Extends(before, after[c.username := c.record], created + [(c.username, c.record.password)])
  {
    var after2 := after[c.username := c.record];
    var created2 := created + [(c.username, c.record.password)];
    forall u | u in after2 && u !in before
      ensures exists i :: 0 <= i < |created2| && created2[i].0 == u
    {
      if u != c.username {
        var i :| 0 <= i < |created| && created[i].0 == u;
        assert created2[i].0 == u;
      } else {
        assert created2[|created|].0 == u;
      }
    }
  }

  /** The insert loop: each account is inserted unless its username is
      taken (the insert fails and is skipped); the list holds the
      (username, password) pairs created. */
  function InsertAccounts(users: Users, cs: seq<Option<NewUser>>): (r: (Users, seq<(string, string)>))
    ensures Extends(users, r.0, r.1)
    ensures forall c :: Some(c) in cs ==> c.username in r.0
  {
    if |cs| == 0 then (users, [])
    else
      var prev := InsertAccounts(users, cs[..|cs| - 1]);
      assert forall x :: x in cs ==> x in cs[..|cs| - 1] || x == cs[|cs| - 1];
      match cs[|cs| - 1]
      case None => prev
      case Some(c) =>
        if c.username in prev.0 then prev
        else
          ExtendsStep(users, prev.0, prev.1, c);
          (prev.0[c.username := c.record], prev.1 + [(c.username, c.record.password)])
  }

  /** Every account the loop adds is one it was asked to insert. */
  lemma {:induction false} InsertedWasAsked(users: Users, cs: seq<Option<NewUser>>, u: string)
    requires u in InsertAccounts(users, cs).0 && u !in users
    ensures Some(NewUser(u, InsertAccounts(users, cs).0[u])) in cs
  {
    var init := cs[..|cs| - 1];
    var prev := InsertAccounts(users, init);
    var c := cs[|cs| - 1];
    if !(c.Some? && c.value.username !in prev.0 && c.value.username == u) {
      assert u in prev.0 && InsertAccounts(users, cs).0[u] == prev.0[u];
      InsertedWasAsked(users, init, u);
      assert forall x :: x in init ==> x in cs;
    }
  }

  /** The first request for a new username is the one inserted: later rows
      asking for the same username are skipped. */
  lemma {:induction false} FirstAskInserted(users: Users, cs: seq<Option<NewUser>>, i: nat)
    requires i < |cs| && cs[i].Some? && cs[i].value.username !in users
    requires forall j :: 0 <= j < i && cs[j].Some? ==> cs[j].value.username != cs[i].value.username
    ensures cs[i].value.username in InsertAccounts(users, cs).0
    ensures InsertAccounts(users, cs).0[cs[i].value.username] == cs[i].value.record
    decreases |cs|
  {
    var u := cs[i].value.username;
    var init := cs[..|cs| - 1];
    var prev := InsertAccounts(users, init);
    if i == |cs| - 1 {
      if u in prev.0 {
        InsertedWasAsked(users, init, u);
        assert false;
      }
    } else {
      assert init[i] == cs[i];
      FirstAskInserted(users, init, i);
    }
  }

  function Candidates(rows: seq<CsvRow>, reading: Reading): (cs: seq<Option<NewUser>>)
    ensures |cs| == |rows|
    ensures forall k :: 0 <= k < |rows| ==> cs[k] == BulkCandidate(rows[k], reading)
  {
    seq(|rows|, k requires 0 <= k < |rows| => BulkCandidate(rows[k], reading))
  }

  /** The bulk upload: the rows' accounts inserted in order. */
  function BulkUpload(users: Users, rows: seq<CsvRow>, reading: Reading): (r: (Users, seq<(string, string)>))
    ensures Extends(users, r.0, r.1)
    ensures forall k :: 0 <= k < |rows| && BulkCandidate(rows[k], reading).Some? ==>
      BulkCandidate(rows[k], reading).value.username in r.0
  {
    var cs := Candidates(rows, reading);
    assert forall k :: 0 <= k < |rows| ==> cs[k] in cs;
    InsertAccounts(users, cs)
  }

  /** Every account the upload adds is the one some row asked for. */
  lemma BulkUploadFromRows(users: Users, rows: seq<CsvRow>, reading: Reading, u: string)
    requires u in BulkUpload(users, rows, reading).0 && u !in users
    ensures exists k :: (0 <= k < |rows| &&
      BulkCandidate(rows[k], reading) == Some(NewUser(u, BulkUpload(users, rows, reading).0[u])))
  {
    InsertedWasAsked(users, Candidates(rows, reading), u);
  }

  /** A row whose First Name cell is empty creates an account named after
      "nan" as the upload is written. */
  lemma BlankFirstNameCreatesAccount(users: Users, row: CsvRow)
    requires "First Name" in row && row["First Name"] == Blank
    requires Auth.GenerateUsername("nan", CellText(row, "Last Name", "", AsWritten)) !in users
    ensures var created := BulkUpload(users, [row], AsWritten).1;
      |created| == 1 && StartsWith(created[0].0, "nan")
  {
    var last := CellText(row, "Last Name", "", AsWritten);
    var u := Auth.GenerateUsername("nan", last);
    var c := BulkCandidate(row, AsWritten);
    NanCandidate(row);
    NanUsername(last);
    CandidatesOfOne(row, AsWritten);
    InsertOne(users, c.value);
    assert BulkUpload(users, [row], AsWritten).1 == [(u, c.value.record.password)];
  }

  lemma NanCandidate(row: CsvRow)
    requires "First Name" in row && row["First Name"] == Blank
    ensures BulkCandidate(row, AsWritten).Some?
    ensures BulkCandidate(row, AsWritten).value.username
      == Auth.GenerateUsername("nan", CellText(row, "Last Name", "", AsWritten))
  {
    assert CellText(row, "First Name", "", AsWritten) == "nan";
  }

  lemma NanUsername(last: string)
    ensures StartsWith(Auth.GenerateUsername("nan", last), "nan")
  {
    assert Strip("nan") == "nan" by {
      StripKeeps("nan");
    }
    LowerNan();
  }

  lemma LowerNan()
    ensures Lower("nan") == "nan"
  {
    var l := Lower("nan");
    assert l[0] == LowerChar('n') == 'n';
    assert l[1] == LowerChar('a') == 'a';
    assert l[2] == LowerChar('n') == 'n';
  }

  lemma CandidatesOfOne(row: CsvRow, reading: Reading)
    ensures Candidates([row], reading) == [BulkCandidate(row, reading)]
  {
  }

  lemma InsertOne(users: Users, c: NewUser)
    requires c.username !in users
    ensures InsertAccounts(users, [Some(c)]).1 == [(c.username, c.record.password)]
  {
    assert [Some(c)][..0] == [];
  }

  /** Read as intended, an account is only ever created from a row whose
      First Name cell holds text. */
  lemma IntendedSkipsBlankFirstNames(users: Users, rows: seq<CsvRow>, u: string)
    requires u in BulkUpload(users, rows, Intended).0 && u !in users
    ensures exists k :: (0 <= k < |rows| && "First Name" in rows[k] &&
      rows[k]["First Name"].Text? && Strip(rows[k]["First Name"].s) != "")
  {
    BulkUploadFromRows(users, rows, Intended, u);
    var k :| 0 <= k < |rows| &&
      BulkCandidate(rows[k], Intended) == Some(NewUser(u, BulkUpload(users, rows, Intended).0[u]));
    assert CellText(rows[k], "First Name", "", Intended) != "";
  }

  /** The outcome of the Create User form. */
  datatype CreateOutcome =
    | NamesRequired
    | Exists(username: string)
    | Created(users: Users, assignments: seq<Assignment>, username: string, password: string)

  const NamesRequiredMessage: string := "Name fields are required."

  /** One row of `user_assignments`. A class-teacher row has subject id -1;
      SQL NULL is `None`. */
  datatype Assignment = Assignment(username: string, gradeId: Option<int>, subjectId: Option<int>)

  const ClassTeacherSubject: int := -1
  const ClassTeacherRole: string := "Class Teacher"

  predicate IsCtRowOf(x: Assignment, user: string) {
    x.username == user && x.subjectId == Some(ClassTeacherSubject)
  }

  /** The grades `user` is class teacher of. */
  function CtGrades(a: seq<Assignment>, user: string): set<int> {
    set x | x in a && IsCtRowOf(x, user) && x.gradeId.Some? :: x.gradeId.value
  }

  /** A row of the `grades` or `subjects` table: its id and unique name. */
  datatype Named = Named(id: int, name: string)

  /** `table[table['name'].isin(names)]['id'].tolist()`: the ids of the
      chosen rows, in table order. */
  function IdsNamed(table: seq<Named>, names: seq<string>): (ids: seq<int>)
    ensures |ids| <= |table|
    ensures forall g :: g in ids <==> exists k :: 0 <= k < |table| && table[k].id == g && table[k].name in names
  {
    if |table| == 0 then []
    else
      var init := IdsNamed(table[..|table| - 1], names);
      var last := table[|table| - 1];
      assert forall k :: 0 <= k < |table| - 1 ==> table[..|table| - 1][k] == table[k];
      init + (if last.name in names then [last.id] else [])
  }

  /** Class-teacher rows of `user` for each grade of `ids`. */
  function CtRows(user: string, ids: seq<int>): (rows: seq<Assignment>)
    ensures |rows| == |ids|
    ensures forall i :: 0 <= i < |ids| ==> rows[i] == Assignment(user, Some(ids[i]), Some(ClassTeacherSubject))
  {
    seq(|ids|, i requires 0 <= i < |ids| => Assignment(user, Some(ids[i]), Some(ClassTeacherSubject)))
  }

  lemma CtGradesAppendRows(a: seq<Assignment>, user: string, ids: seq<int>)
    ensures CtGrades(a + CtRows(user, ids), user) == CtGrades(a, user) + set g | g in ids
  {
    var r := a + CtRows(user, ids);
    forall g | g in CtGrades(r, user) ensures g in CtGrades(a, user) || g in ids {
      var x :| x in r && IsCtRowOf(x, user) && x.gradeId == Some(g);
      if x !in a {
        var k :| 0 <= k < |r| && r[k] == x;
        assert CtRows(user, ids)[k - |a|] == x;
      }
    }
    forall g | g in ids ensures g in CtGrades(r, user) {
      var k :| 0 <= k < |ids| && ids[k] == g;
      assert r[|a| + k] == CtRows(user, ids)[k];
    }
  }

  /** The Create User form: both name fields are required; the generated
      username must be free; a class teacher also gets a class-teacher row
      for each chosen grade. */
  function CreateUser(users: Users, a: seq<Assignment>, grades: seq<Named>,
                      first: string, last: string, role: string, dashboard: string,
                      ctGrades: seq<string>): (r: CreateOutcome)
    ensures first == "" || last == "" <==> r.NamesRequired?
    ensures first != "" && last != "" ==> (r.Exists? <==> Auth.GenerateUsername(first, last) in users)
    ensures r.Exists? ==> r.username == Auth.GenerateUsername(first, last) && r.username in users
    ensures r.Created? ==> (r.username !in users &&
      r.users == users[r.username := UserRecord(JoinFullName(first, last), role, dashboard, r.password)])
    ensures r.Created? ==> r.username == Auth.GenerateUsername(first, last) && r.password == Auth.GeneratePassword(first, last)
    ensures r.Created? ==> |a| <= |r.assignments| && r.assignments[..|a|] == a
  {
    if first == "" || last == "" then NamesRequired
    else
      var u := Auth.GenerateUsername(first, last);
      var p := Auth.GeneratePassword(first, last);
      if u in users then Exists(u)
      else
        var ids := if role == ClassTeacherRole && |ctGrades| > 0 then IdsNamed(grades, ctGrades) else [];
        var a2 := a + CtRows(u, ids);
        assert a2[..|a|] == a;
        Created(users[u := UserRecord(JoinFullName(first, last), role, dashboard, p)], a2, u, p)
  }

  /** A new class teacher is class teacher of exactly the chosen grades
      (on top of any rows a deleted account of the same name left). */
  lemma CreatedClassTeacherGrades(users: Users, a: seq<Assignment>, grades: seq<Named>,
                                  first: string, last: string, dashboard: string, ctGrades: seq<string>)
    requires CreateUser(users, a, grades, first, last, ClassTeacherRole, dashboard, ctGrades).Created?
    ensures var r := CreateUser(users, a, grades, first, last, ClassTeacherRole, dashboard, ctGrades);
      forall g :: g in CtGrades(r.assignments, r.username) <==>
        g in CtGrades(a, r.username) || exists k :: 0 <= k < |grades| && grades[k].id == g && grades[k].name in ctGrades
  {
    var r := CreateUser(users, a, grades, first, last, ClassTeacherRole, dashboard, ctGrades);
    var ids := if |ctGrades| > 0 then IdsNamed(grades, ctGrades) else [];
    assert r.assignments == a + CtRows(r.username, ids);
    CtGradesAppendRows(a, r.username, ids);
  }

  // ------------------------------------------------------------ editing accounts

  /** `UPDATE user_assignments SET username=to WHERE username=from` */
  function Rename(a: seq<Assignment>, from: string, to: string): (r: seq<Assignment>)
    ensures |r| == |a|
    ensures forall i :: 0 <= i < |a| ==>
      r[i] == (if a[i].username == from then a[i].(username := to) else a[i])
  {
    seq(|a|, i requires 0 <= i < |a| => if a[i].username == from then a[i].(username := to) else a[i])
  }

  /** The DELETE loop of the sync: a class-teacher row of `user` goes when
      its grade is in `remove`. */
  predicate Removed(x: Assignment, user: string, remove: set<int>) {
    IsCtRowOf(x, user) && x.gradeId.Some? && x.gradeId.value in remove
  }

  function Without(a: seq<Assignment>, user: string, remove: set<int>): (r: seq<Assignment>)
    ensures |r| <= |a|
    ensures forall x :: x in r <==> x in a && !Removed(x, user, remove)
  {
    if |a| == 0 then []
    else
      var rest := Without(a[..|a| - 1], user, remove);
      var x := a[|a| - 1];
      assert forall y :: y in a <==> y in a[..|a| - 1] || y == x;
      if Removed(x, user, remove) then rest else rest + [x]
  }

  /** The ids of `ids` not in `current`, each once: `set(new) - set(current)`
      as a sequence. */
  function Missing(ids: seq<int>, current: set<int>): (r: seq<int>)
    ensures forall g :: g in r <==> g in ids && g !in current
    ensures forall i, j :: 0 <= i < j < |r| ==> r[i] != r[j]
  {
    if |ids| == 0 then []
    else
      var prev := Missing(ids[..|ids| - 1], current);
      var g := ids[|ids| - 1];
      assert forall h :: h in ids <==> h in ids[..|ids| - 1] || h == g;
      if g in current || g in prev then prev else prev + [g]
  }

  /** The class-teacher sync of the edit form: rows for grades no longer
      chosen are deleted and rows for newly chosen grades are inserted. */
  function SyncClassTeacher(a: seq<Assignment>, user: string, newIds: seq<int>): seq<Assignment> {
    var current := CtGrades(a, user);
    var chosen := set g | g in newIds;
    Without(a, user, current - chosen) + CtRows(user, Missing(newIds, current))
  }

  /** After the sync the user is class teacher of exactly the chosen grades. */
  lemma SyncSetsGrades(a: seq<Assignment>, user: string, newIds: seq<int>)
    ensures CtGrades(SyncClassTeacher(a, user, newIds), user) == set g | g in newIds
  {
    var current := CtGrades(a, user);
    var chosen := set g | g in newIds;
    var kept := Without(a, user, current - chosen);
    var missing := Missing(newIds, current);
    CtGradesAppendRows(kept, user, missing);
    forall g | g in CtGrades(kept, user) ensures g in chosen {
      var x :| x in kept && IsCtRowOf(x, user) && x.gradeId == Some(g);
      assert x in a;
    }
    forall g | g in chosen && g in current ensures g in CtGrades(kept, user) {
      var x :| x in a && IsCtRowOf(x, user) && x.gradeId == Some(g);
      assert x in kept;
    }
  }

  /** The sync touches nothing but the user's class-teacher rows, and the
      rows it inserts were not there before. */
  lemma SyncKeepsOtherRows(a: seq<Assignment>, user: string, newIds: seq<int>)
    ensures var r := SyncClassTeacher(a, user, newIds);
      forall x :: !IsCtRowOf(x, user) ==> (x in r <==> x in a)
    ensures var r := SyncClassTeacher(a, user, newIds);
      forall x :: x in r && x !in a ==> IsCtRowOf(x, user) && x.gradeId.Some? && x.gradeId.value !in CtGrades(a, user)
  {
    var current := CtGrades(a, user);
    var chosen := set g | g in newIds;
    var kept := Without(a, user, current - chosen);
    var missing := Missing(newIds, current);
    var added := CtRows(user, missing);
    forall x | x in kept + added && x !in a
      ensures IsCtRowOf(x, user) && x.gradeId.Some? && x.gradeId.value !in current
    {
      var k :| 0 <= k < |kept + added| && (kept + added)[k] == x;
      assert added[k - |kept|] == x;
    }
  }

  /** The assignment part of Update User: the rename, then the sync, which
      runs only when the new role is Class Teacher. */
  function UpdateAssignments(a: seq<Assignment>, oldName: string, newName: string,
                             role: string, newIds: seq<int>): (r: seq<Assignment>)
    ensures role == ClassTeacherRole ==> CtGrades(r, newName) == set g | g in newIds
  {
    var renamed := if newName != oldName then Rename(a, oldName, newName) else a;
    if role == ClassTeacherRole then
      SyncSetsGrades(renamed, newName, newIds);
      SyncClassTeacher(renamed, newName, newIds)
    else renamed
  }

  /** The outcome of Update User: whether it committed, and both tables
      after it (unchanged when the transaction was not committed). */
  datatype UpdateOutcome = UpdateOutcome(committed: bool, users: Users, assignments: seq<Assignment>)

  /** The Update User form for the selected account `sel`: its full name,
      role and dashboard are overwritten, its password only when a new one
      is typed; then the username is changed, in `users` and in
      `user_assignments`; then, for a class teacher, the grades chosen by
      name are synced. Renaming to a username that is taken violates the
      primary key, and the error is caught before the commit, so nothing
      changes. */
  function UpdateUser(users: Users, a: seq<Assignment>, grades: seq<Named>, sel: string,
                      first: string, last: string, newUsername: string, newPass: string,
                      role: string, dashboard: string, ctGrades: seq<string>): (r: UpdateOutcome)
    requires sel in users
    ensures !r.committed <==> newUsername != sel && newUsername in users
    ensures !r.committed ==> r.users == users && r.assignments == a
    ensures r.committed ==> r.users.Keys == users.Keys - {sel} + {newUsername}
    ensures r.committed ==> (r.users[newUsername] ==
      UserRecord(JoinFullName(first, last), role, dashboard, if newPass != "" then newPass else users[sel].password))
    ensures r.committed ==> forall u :: u in users && u != sel ==> r.users[u] == users[u]
    ensures r.committed && role == ClassTeacherRole ==> forall g :: g in CtGrades(r.assignments, newUsername) <==>
      exists k :: 0 <= k < |grades| && grades[k].id == g && grades[k].name in ctGrades
  {
    if newUsername != sel && newUsername in users then UpdateOutcome(false, users, a)
    else
      var rec := UserRecord(JoinFullName(first, last), role, dashboard,
                            if newPass != "" then newPass else users[sel].password);
      var ids := if role == ClassTeacherRole then ChosenIds(grades, ctGrades) else [];
      var a2 := UpdateAssignments(a, sel, newUsername, role, ids);
      UpdateOutcome(true, MoveUser(users, sel, newUsername, rec), a2)
  }

  /** The account `sel` stored as `rec` under `to`. */
  function MoveUser(users: Users, sel: string, to: string, rec: UserRecord): (r: Users)
    requires to == sel || to !in users
    ensures r.Keys == users.Keys - {sel} + {to}
    ensures r[to] == rec
    ensures forall u :: u in users && u != sel ==> r[u] == users[u]
  {
    (map u | u in users && u != sel :: users[u])[to := rec]
  }

  /** The grade ids the edit form syncs to: those of the grades chosen by
      name, none when no grade is chosen. */
  function ChosenIds(grades: seq<Named>, ctGrades: seq<string>): (ids: seq<int>)
    ensures forall g :: g in ids <==> exists k :: 0 <= k < |grades| && grades[k].id == g && grades[k].name in ctGrades
  {
    if |ctGrades| > 0 then IdsNamed(grades, ctGrades) else []
  }

  /** Moving a class teacher to another role keeps their class-teacher rows,
      under the new username: the sync does not run. */
  lemma RoleChangeKeepsClassTeacherRows(users: Users, a: seq<Assignment>, grades: seq<Named>, sel: string,
                                        first: string, last: string, newUsername: string, newPass: string,
                                        role: string, dashboard: string, ctGrades: seq<string>)
    requires sel in users && role != ClassTeacherRole
    ensures var r := UpdateUser(users, a, grades, sel, first, last, newUsername, newPass, role, dashboard, ctGrades);
      r.committed ==> CtGrades(r.assignments, newUsername) == CtGrades(a, sel) + CtGrades(a, newUsername)
  {
    var r := UpdateUser(users, a, grades, sel, first, last, newUsername, newPass, role, dashboard, ctGrades);
    if r.committed {
      RenameMovesGrades(a, sel, newUsername);
    }
  }

  /** After the rename, the new username holds the class-teacher grades of
      both names. */
  lemma RenameMovesGrades(a: seq<Assignment>, oldName: string, newName: string)
    ensures var r := if newName != oldName then Rename(a, oldName, newName) else a;
      CtGrades(r, newName) == CtGrades(a, oldName) + CtGrades(a, newName)
  {
    if newName != oldName {
      var r := Rename(a, oldName, newName);
      forall g | g in CtGrades(r, newName) ensures g in CtGrades(a, oldName) + CtGrades(a, newName) {
        var x :| x in r && IsCtRowOf(x, newName) && x.gradeId == Some(g);
        var k :| 0 <= k < |r| && r[k] == x;
        assert a[k] in a;
      }
      forall g | g in CtGrades(a, oldName) + CtGrades(a, newName) ensures g in CtGrades(r, newName) {
        var x :| x in a && (IsCtRowOf(x, oldName) || IsCtRowOf(x, newName)) && x.gradeId == Some(g);
        var k :| 0 <= k < |a| && a[k] == x;
        assert r[k] in r;
      }
    }
  }

  // ------------------------------------------------------------ subjects

  /** Maximum marks of a subject: `te_max_marks`, `ce_max_marks`. */
  datatype SubjectMax = SubjectMax(teMax: real, ceMax: real)

  /** The `subjects` table keyed by its unique name. */
  type Subjects = map<string, SubjectMax>

  datatype SubjectOutcome = Ignored | Duplicate | Added(subjects: Subjects)

  /** Add Subject: an empty name does nothing; otherwise the upper-cased
      name is inserted with TE max 100 and CE max 0, and a name already
      taken fails. */
  function AddSubject(subjects: Subjects, name: string): (r: SubjectOutcome)
    ensures name == "" <==> r.Ignored?
    ensures r.Duplicate? <==> name != "" && Upper(name) in subjects
    ensures r.Added? ==> r.subjects == subjects[Upper(name) := SubjectMax(100.0, 0.0)]
  {
    if name == "" then Ignored
    else if Upper(name) in subjects then Duplicate
    else Added(subjects[Upper(name) := SubjectMax(100.0, 0.0)])
  }

  predicate AllUpperCase(subjects: Subjects) {
    forall k :: k in subjects ==> Upper(k) == k
  }

  /** Subject names stay upper-case, and a name differing only in case from
      one already added is refused. */
  lemma AddSubjectUpperCase(subjects: Subjects, name: string, other: string)
    requires AllUpperCase(subjects) && name != "" && other != ""
    requires Upper(other) == Upper(name)
    requires AddSubject(subjects, name).Added?
    ensures AllUpperCase(AddSubject(subjects, name).subjects)
    ensures AddSubject(AddSubject(subjects, name).subjects, other).Duplicate?
  {
    UpperTwice(name);
  }

  // ------------------------------------------------------------ grade scales

  const GlobalScale: string := "Global"

  /** The grade ids for the chosen names other than "Global", in selection
      order; unknown names are skipped. */
  function Extras(selected: seq<string>, gradeIds: map<string, int>): (t: seq<Option<int>>)
    ensures |t| <= |selected|
    ensures None !in t
    ensures forall g :: Some(g) in t <==>
      exists e :: e in selected && e != GlobalScale && e in gradeIds && gradeIds[e] == g
  {
    if |selected| == 0 then []
    else
      var prev := Extras(selected[..|selected| - 1], gradeIds);
      var e := selected[|selected| - 1];
      assert forall x :: x in selected <==> x in selected[..|selected| - 1] || x == e;
      prev + (if e != GlobalScale && e in gradeIds then [Some(gradeIds[e])] else [])
  }

  /** The grades a new grade-scale rule is added for (`None` is the global
      scale): the global scale when nothing is chosen, or when "Global" is
      chosen (then first), then each chosen known grade. */
  function ScaleTargets(selected: seq<string>, gradeIds: map<string, int>): (t: seq<Option<int>>)
    ensures None in t <==> |selected| == 0 || GlobalScale in selected
    ensures GlobalScale in selected ==> t[0] == None
    ensures forall g :: Some(g) in t <==>
      exists e :: e in selected && e != GlobalScale && e in gradeIds && gradeIds[e] == g
  {
    if |selected| == 0 then [None]
    else (if GlobalScale in selected then [None] else []) + Extras(selected, gradeIds)
  }

  /** Choosing only unknown grades adds the rule nowhere. */
  lemma UnknownGradesGiveNoTargets(selected: seq<string>, gradeIds: map<string, int>)
    requires |selected| > 0
    requires forall e :: e in selected ==> e != GlobalScale && e !in gradeIds
    ensures ScaleTargets(selected, gradeIds) == []
  {
    assert GlobalScale !in selected;
    ExtrasOfUnknown(selected, gradeIds);
  }

  lemma {:induction false} ExtrasOfUnknown(selected: seq<string>, gradeIds: map<string, int>)
    requires forall e :: e in selected ==> e !in gradeIds
    ensures Extras(selected, gradeIds) == []
  {
    if |selected| > 0 {
      ExtrasOfUnknown(selected[..|selected| - 1], gradeIds);
      assert selected[|selected| - 1] in selected;
    }
  }

  /** One row of `grade_scales`. */
  datatype ScaleRule = ScaleRule(gradeLabel: string, minPct: real, maxPct: real, gradeId: Option<int>)

  /** `UNIQUE(grade_label, min_pct, max_pct, grade_id)`: SQL NULLs are
      distinct, so a global rule never clashes. */
  predicate Clashes(rules: seq<ScaleRule>, r: ScaleRule) {
    r.gradeId.Some? && r in rules
  }

  /** The insert loop of Add Grade Scale Rule: one rule per target unless it
      clashes; the count is the number inserted. */
  function AddScaleRule(rules: seq<ScaleRule>, gradeLabel: string, minPct: real, maxPct: real,
                        targets: seq<Option<int>>): (r: (seq<ScaleRule>, nat))
    ensures |rules| <= |r.0| && r.0[..|rules|] == rules
    ensures r.1 == |r.0| - |rules| <= |targets|
    ensures forall t :: t in targets ==> ScaleRule(gradeLabel, minPct, maxPct, t) in r.0
    ensures forall i :: |rules| <= i < |r.0| ==>
      r.0[i].gradeLabel == gradeLabel && r.0[i].minPct == minPct && r.0[i].maxPct == maxPct && r.0[i].gradeId in targets
    ensures None in targets ==> r.1 > 0
  {
    if |targets| == 0 then (rules, 0)
    else
      var prev := AddScaleRule(rules, gradeLabel, minPct, maxPct, targets[..|targets| - 1]);
      var t := targets[|targets| - 1];
      var rule := ScaleRule(gradeLabel, minPct, maxPct, t);
      assert forall x :: x in targets <==> x in targets[..|targets| - 1] || x == t;
      if Clashes(prev.0, rule) then prev
      else
        assert (prev.0 + [rule])[..|rules|] == prev.0[..|rules|];
        (prev.0 + [rule], prev.1 + 1)
  }

  // ------------------------------------------------------------ students

  /** One row of `students`; `admission` is `None` for SQL NULL. */
  datatype Student = Student(name: string, admission: Option<string>, gradeId: int)

  /** `admission_no TEXT UNIQUE`: no two rows share an admission number;
      NULLs never collide. */
  predicate AdmissionsUnique(ss: seq<Student>) {
    forall i, j :: 0 <= i < j < |ss| && ss[i].admission.Some? ==> ss[i].admission != ss[j].admission
  }

  predicate AdmissionTaken(ss: seq<Student>, adm: Option<string>) {
    adm.Some? && exists i :: 0 <= i < |ss| && ss[i].admission == adm
  }

  /** The admission number a CSV row stores: the cell text as written, SQL
      NULL for an empty cell as intended. */
  function AdmissionCell(row: CsvRow, reading: Reading): (a: Option<string>)
    ensures reading == AsWritten ==> a.Some?
    ensures reading == Intended && "Admission No" in row && row["Admission No"].Blank? ==> a.None?
  {
    if reading == Intended && "Admission No" in row && row["Admission No"].Blank? then None
    else Some(CellText(row, "Admission No", "", reading))
  }

  /** The student a CSV row asks for: only when the name is non-empty and
      the grade name maps to a (truthy, non-zero) grade id. */
  function StudentCandidate(row: CsvRow, gradeIds: map<string, int>, reading: Reading): (c: Option<Student>)
    ensures c.Some? <==> (CellText(row, "Name", "", reading) != "" &&
      CellText(row, "Grade Name", "", reading) in gradeIds &&
      gradeIds[CellText(row, "Grade Name", "", reading)] != 0)
    ensures c.Some? ==> (c.value.name == CellText(row, "Name", "", reading) &&
      c.value.gradeId == gradeIds[CellText(row, "Grade Name", "", reading)] &&
      c.value.admission == AdmissionCell(row, reading))
  {
    var nm := CellText(row, "Name", "", reading);
    var gn := CellText(row, "Grade Name", "", reading);
    if nm != "" && gn in gradeIds && gradeIds[gn] != 0 then Some(Student(nm, AdmissionCell(row, reading), gradeIds[gn]))
    else None
  }

  /** The insert loop of Import Students: a candidate is inserted unless its
      admission number is taken; the count is the number inserted. */
  function InsertStudents(ss: seq<Student>, cs: seq<Option<Student>>): (r: (seq<Student>, nat))
    ensures |ss| <= |r.0| && r.0[..|ss|] == ss
    ensures r.1 == |r.0| - |ss| <= |cs|
    ensures forall i :: |ss| <= i < |r.0| ==> Some(r.0[i]) in cs
    ensures AdmissionsUnique(ss) ==> AdmissionsUnique(r.0)
    ensures forall st :: Some(st) in cs ==> st in r.0 || AdmissionTaken(r.0, st.admission)
  {
    if |cs| == 0 then (ss, 0)
    else
      var prev := InsertStudents(ss, cs[..|cs| - 1]);
      assert forall x :: x in cs[..|cs| - 1] ==> x in cs;
      assert forall x :: x in cs ==> x in cs[..|cs| - 1] || x == cs[|cs| - 1];
      match cs[|cs| - 1]
      case None => prev
      case Some(st) =>
        if AdmissionTaken(prev.0, st.admission) then prev
        else
          assert (prev.0 + [st])[..|ss|] == prev.0[..|ss|];
          assert forall i :: 0 <= i < |prev.0| ==> (prev.0 + [st])[i] == prev.0[i];
          (prev.0 + [st], prev.1 + 1)
  }

  function StudentCandidates(rows: seq<CsvRow>, gradeIds: map<string, int>, reading: Reading): (cs: seq<Option<Student>>)
    ensures |cs| == |rows|
    ensures forall k :: 0 <= k < |rows| ==> cs[k] == StudentCandidate(rows[k], gradeIds, reading)
  {
    seq(|rows|, k requires 0 <= k < |rows| => StudentCandidate(rows[k], gradeIds, reading))
  }

  /** Import Students: the rows' students inserted in order; every student
      added has a name and a known grade. */
  function ImportStudents(ss: seq<Student>, rows: seq<CsvRow>, gradeIds: map<string, int>, reading: Reading): (r: (seq<Student>, nat))
    ensures |ss| <= |r.0| && r.0[..|ss|] == ss
    ensures r.1 == |r.0| - |ss| <= |rows|
    ensures forall i :: |ss| <= i < |r.0| ==>
      r.0[i].name != "" && r.0[i].gradeId != 0 && r.0[i].gradeId in gradeIds.Values
    ensures AdmissionsUnique(ss) ==> AdmissionsUnique(r.0)
    ensures forall k :: 0 <= k < |rows| && StudentCandidate(rows[k], gradeIds, reading).Some? ==>
      var st := StudentCandidate(rows[k], gradeIds, reading).value;
      st in r.0 || AdmissionTaken(r.0, st.admission)
  {
    var cs := StudentCandidates(rows, gradeIds, reading);
    var r := InsertStudents(ss, cs);
    assert forall k :: 0 <= k < |rows| ==> cs[k] in cs;
    forall i | |ss| <= i < |r.0|
      ensures r.0[i].name != "" && r.0[i].gradeId != 0 && r.0[i].gradeId in gradeIds.Values
    {
      var k :| 0 <= k < |cs| && cs[k] == Some(r.0[i]);
    }
    r
  }

  /** As written, two rows without an admission number collide on the
      stored text "nan": the second student is silently dropped. */
  lemma BlankAdmissionsCollide(ss: seq<Student>, a: CsvRow, b: CsvRow, gradeIds: map<string, int>)
    requires forall i :: 0 <= i < |ss| ==> ss[i].admission != Some("nan")
    requires StudentCandidate(a, gradeIds, AsWritten).Some? && StudentCandidate(b, gradeIds, AsWritten).Some?
    requires "Admission No" in a && a["Admission No"] == Blank
    requires "Admission No" in b && b["Admission No"] == Blank
    ensures ImportStudents(ss, [a, b], gradeIds, AsWritten).1 == 1
  {
    var sa := StudentCandidate(a, gradeIds, AsWritten).value;
    var sb := StudentCandidate(b, gradeIds, AsWritten).value;
    assert sa.admission == Some("nan") && sb.admission == Some("nan") by {
      BlankAdmissionIsNan(a);
      BlankAdmissionIsNan(b);
    }
    assert StudentCandidates([a, b], gradeIds, AsWritten) == [Some(sa), Some(sb)];
    SameAdmissionDropped(ss, sa, sb);
  }

  lemma BlankAdmissionIsNan(row: CsvRow)
    requires "Admission No" in row && row["Admission No"] == Blank
    ensures AdmissionCell(row, AsWritten) == Some("nan")
  {
  }

  /** Inserting two students with the same admission number, new to the
      table, keeps only the first. */
  lemma SameAdmissionDropped(ss: seq<Student>, sa: Student, sb: Student)
    requires sa.admission.Some? && sb.admission == sa.admission
    requires !AdmissionTaken(ss, sa.admission)
    ensures InsertStudents(ss, [Some(sa), Some(sb)]).1 == 1
  {
    var cs := [Some(sa), Some(sb)];
    assert cs[..1] == [Some(sa)];
    assert [Some(sa)][..0] == [];
    var one := InsertStudents(ss, [Some(sa)]);
    assert one.0 == ss + [sa];
    assert (ss + [sa])[|ss|] == sa;
  }

  /** Read as intended, a student without an admission number is stored with
      NULL and is never refused: every such row that names a student and a
      known grade is imported. */
  lemma {:induction false} BlankAdmissionsAllImported(ss: seq<Student>, cs: seq<Option<Student>>)
    requires forall k :: 0 <= k < |cs| ==> cs[k].Some? && cs[k].value.admission.None?
    ensures InsertStudents(ss, cs).1 == |cs|
  {
    if |cs| > 0 {
      BlankAdmissionsAllImported(ss, cs[..|cs| - 1]);
    }
  }

  lemma BlankAdmissionRowsAllImported(ss: seq<Student>, rows: seq<CsvRow>, gradeIds: map<string, int>)
    requires forall k :: 0 <= k < |rows| ==>
      StudentCandidate(rows[k], gradeIds, Intended).Some? &&
      "Admission No" in rows[k] && rows[k]["Admission No"] == Blank
    ensures ImportStudents(ss, rows, gradeIds, Intended).1 == |rows|
  {
    BlankAdmissionsAllImported(ss, StudentCandidates(rows, gradeIds, Intended));
  }

  // ------------------------------------------------------------ assignments

  /** The inner loop of the Cartesian assignment for one grade. */
  method AssignSubjects(a: seq<Assignment>, user: string, g: int, sids: seq<int>) returns (r: seq<Assignment>)
    ensures |a| <= |r| && r[..|a|] == a
    ensures forall q :: 0 <= q < |sids| ==> Assignment(user, Some(g), Some(sids[q])) in r
    ensures forall i :: |a| <= i < |r| ==>
      r[i] !in r[..i] && r[i].username == user && r[i].gradeId == Some(g) && r[i].subjectId.Some? && r[i].subjectId.value in sids
  {
    r := a;
    var si := 0;
    while si < |sids|
      invariant 0 <= si <= |sids|
      invariant |a| <= |r| && r[..|a|] == a
      invariant forall q :: 0 <= q < si ==> Assignment(user, Some(g), Some(sids[q])) in r
      invariant forall i :: |a| <= i < |r| ==>
        r[i] !in r[..i] && r[i].username == user && r[i].gradeId == Some(g) && r[i].subjectId.Some? && r[i].subjectId.value in sids
    {
      var x := Assignment(user, Some(g), Some(sids[si]));
      if x !in r {
        assert (r + [x])[..|r|] == r;
        r := r + [x];
      }
      si := si + 1;
    }
  }

  /** Assign (Cartesian Product): every chosen (grade, subject) pair the user
      does not have yet is inserted, once; the count is the number of rows
      inserted. */
  method AssignPairs(a: seq<Assignment>, user: string, gids: seq<int>, sids: seq<int>)
    returns (r: seq<Assignment>, count: nat)
    ensures |a| <= |r| && r[..|a|] == a
    ensures count == |r| - |a|
    ensures forall p, q :: 0 <= p < |gids| && 0 <= q < |sids| ==>
      Assignment(user, Some(gids[p]), Some(sids[q])) in r
    ensures forall i :: |a| <= i < |r| ==> r[i] !in r[..i]
    ensures forall i :: |a| <= i < |r| ==>
      r[i].username == user && r[i].gradeId.Some? && r[i].gradeId.value in gids &&
      r[i].subjectId.Some? && r[i].subjectId.value in sids
  {
    r := a;
    var gi := 0;
    while gi < |gids|
      invariant 0 <= gi <= |gids|
      invariant |a| <= |r| && r[..|a|] == a
      invariant forall p, q :: 0 <= p < gi && 0 <= q < |sids| ==>
        Assignment(user, Some(gids[p]), Some(sids[q])) in r
      invariant forall i :: |a| <= i < |r| ==> r[i] !in r[..i]
      invariant forall i :: |a| <= i < |r| ==>
        r[i].username == user && r[i].gradeId.Some? && r[i].gradeId.value in gids &&
        r[i].subjectId.Some? && r[i].subjectId.value in sids
    {
      var r2 := AssignSubjects(r, user, gids[gi], sids);
      forall i | |a| <= i < |r|
        ensures r2[i] == r[i] && r2[..i] == r[..i]
      {
        assert r2[..|r|][i] == r[i];
        assert r2[..|r|][..i] == r[..i];
      }
      forall x | x in r ensures x in r2 {
        var k :| 0 <= k < |r| && r[k] == x;
        assert r2[..|r|][k] == x;
      }
      assert r2[..|a|] == r2[..|r|][..|a|];
      r := r2;
      gi := gi + 1;
    }
    count := |r| - |a|;
  }

  // ------------------------------------------------------------ uploads

  /** `f"ct_sign_{grade}.{ext}"` for the class-teacher signature of a grade. */
  function CtSignatureFile(grade: string, upload: string): string {
    "ct_sign_" + grade + "." + AfterLastDot(upload)
  }

  /** `f"parent_sign_{key}.{ext}"` for a parent signature linked by
      admission number or name. */
  function ParentSignatureFile(key: string, upload: string): string {
    "parent_sign_" + key + "." + AfterLastDot(upload)
  }

  /** `f"bg_{name.replace(' ', '_')}.{ext}"` for a report background. */
  function BackgroundFile(name: string, upload: string): string {
    "bg_" + Underscored(name) + "." + AfterLastDot(upload)
  }

  /** Each saved file keeps the uploaded file's extension. */
  lemma SavedFilesKeepExtension(grade: string, key: string, name: string, upload: string)
    ensures AfterLastDot(CtSignatureFile(grade, upload)) == AfterLastDot(upload)
    ensures AfterLastDot(ParentSignatureFile(key, upload)) == AfterLastDot(upload)
    ensures AfterLastDot(BackgroundFile(name, upload)) == AfterLastDot(upload)
  {
    var ext := AfterLastDot(upload);
    AfterLastDotOfExtension("ct_sign_" + grade, ext);
    AfterLastDotOfExtension("parent_sign_" + key, ext);
    AfterLastDotOfExtension("bg_" + Underscored(name), ext);
  }

  /** The background file name starts with "bg_" and the name with every
      space replaced, so the stem holds no space, and two names that differ
      only in spaces versus underscores share a file. */
  lemma BackgroundFileName(name: string, other: string, upload: string)
    requires |other| == |name|
    requires forall i :: 0 <= i < |name| ==> (other[i] == name[i] || (other[i] == '_' && name[i] == ' '))
    ensures var f := BackgroundFile(name, upload);
      StartsWith(f, "bg_") && ' ' !in f[..3 + |name|] && f[3 + |name|] == '.'
    ensures BackgroundFile(other, upload) == BackgroundFile(name, upload)
  {
    BackgroundStem(name, upload);
    assert Underscored(other) == Underscored(name);
  }

  lemma BackgroundStem(name: string, upload: string)
    ensures var f := BackgroundFile(name, upload);
      StartsWith(f, "bg_") && ' ' !in f[..3 + |name|] && f[3 + |name|] == '.'
  {
    var u := Underscored(name);
    var stem := "bg_" + u;
    var ext := AfterLastDot(upload);
    assert BackgroundFile(name, upload) == stem + "." + ext;
    StemThenDot(stem, ext);
    assert stem[..3] == "bg_";
    NoSpaceAfterPrefix(u);
  }

  lemma StemThenDot(stem: string, ext: string)
    requires |stem| >= 3
    ensures var f := stem + "." + ext;
      f[..|stem|] == stem && f[|stem|] == '.' && f[..3] == stem[..3]
  {
  }

  lemma NoSpaceAfterPrefix(u: string)
    requires ' ' !in u
    ensures ' ' !in "bg_" + u
  {
    var t := "bg_" + u;
    forall i | 0 <= i < |t|
      ensures t[i] != ' '
    {
      if i >= 3 {
        assert t[i] == u[i - 3];
      }
    }
  }

  /** The student a parent signature is linked to: the first with that
      admission number, else the first with that name; `None` when neither
      exists. */
  function ParentSignatureTarget(ss: seq<Student>, key: string): (r: Option<nat>)
    ensures r.Some? ==> r.value < |ss|
    ensures r.None? <==> forall i :: 0 <= i < |ss| ==> ss[i].admission != Some(key) && ss[i].name != key
    ensures r.Some? && ss[r.value].admission == Some(key) ==>
      forall i :: 0 <= i < r.value ==> ss[i].admission != Some(key)
    ensures r.Some? && ss[r.value].admission != Some(key) ==>
      ss[r.value].name == key &&
      (forall i :: 0 <= i < |ss| ==> ss[i].admission != Some(key)) &&
      (forall i :: 0 <= i < r.value ==> ss[i].name != key)
  {
    match FirstWhere(ss, key, true)
    case Some(i) => Some(i)
    case None => FirstWhere(ss, key, false)
  }

  /** The first student whose admission number (or, when `byAdmission` is
      false, whose name) is `key`. */
  function FirstWhere(ss: seq<Student>, key: string, byAdmission: bool): (r: Option<nat>)
    ensures r.Some? ==> r.value < |ss| && Matches(ss[r.value], key, byAdmission)
    ensures r.Some? ==> forall i :: 0 <= i < r.value ==> !Matches(ss[i], key, byAdmission)
    ensures r.None? ==> forall i :: 0 <= i < |ss| ==> !Matches(ss[i], key, byAdmission)
  {
    if |ss| == 0 then None
    else if Matches(ss[0], key, byAdmission) then Some(0)
    else match FirstWhere(ss[1..], key, byAdmission)
      case Some(i) => Some(i + 1)
      case None => None
  }

  predicate Matches(s: Student, key: string, byAdmission: bool) {
    if byAdmission then s.admission == Some(key) else s.name == key
  }
}
