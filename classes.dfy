/**
 * The class handlers of functions/classes.js: creating a class, a student
 * joining it, reading its details and its students' notes, and the
 * teacher editing it.
 */
module Classes {
  import opened Common
  import opened Firestore
  import Validations

  /** The six test fields of a request body, as they arrive. */
  datatype ClassForm = ClassForm(
    name: string,
    openMaterial: Value,
    testDate: string,
    testStartTime: string,
    testTimeHours: Value,
    testTimeMinutes: Value)

  /** The field check shared by `createNewClass` and `editClass`: the three
      strings non-empty, `openMaterial` a boolean, both durations numbers.
      The durations are not range-checked. */
  predicate FormComplete(f: ClassForm)
  {
    f.name != "" && f.openMaterial.Bool? && f.testDate != "" && f.testStartTime != "" &&
    f.testTimeHours.Num? && f.testTimeMinutes.Num?
  }

  /** The check of `createNewClass`, which also demands a teacherId. */
  predicate CreateRequestComplete(f: ClassForm, teacherId: string)
  {
    FormComplete(f) && teacherId != ""
  }

  /** A zero or negative duration passes the field check. */
  lemma DurationNotRangeChecked(f: ClassForm, hours: int, minutes: int)
    requires f.name != "" && f.openMaterial.Bool? && f.testDate != "" && f.testStartTime != ""
    ensures FormComplete(f.(testTimeHours := Num(hours), testTimeMinutes := Num(minutes)))
  {
  }

  /** A class that is missing a field, or whose openMaterial is not a
      boolean, fails the check whatever the other fields hold. */
  lemma FormRejections(f: ClassForm)
    ensures f.name == "" || f.testDate == "" || f.testStartTime == "" ==> !FormComplete(f)
    ensures !f.openMaterial.Bool? || !f.testTimeHours.Num? || !f.testTimeMinutes.Num? ==> !FormComplete(f)
  {
  }

  /** The stored class document a complete form becomes. */
  function NewClassDoc(f: ClassForm, teacherId: string, disconnectId: string, now: int): (doc: ClassDoc)
    requires FormComplete(f)
    ensures doc.name == f.name && Bool(doc.openMaterial) == f.openMaterial
    ensures doc.testDate == f.testDate && doc.testStartTime == f.testStartTime
    ensures Num(doc.testTimeHours) == f.testTimeHours && Num(doc.testTimeMinutes) == f.testTimeMinutes
    ensures doc.teacherId == teacherId && doc.disconnectId == disconnectId
    ensures doc.createdAt == now && doc.updatedAt == None
  {
    ClassDoc(f.name, f.openMaterial.b, f.testDate, f.testStartTime,
             f.testTimeHours.n, f.testTimeMinutes.n, teacherId, disconnectId, now, None)
  }

  /** The reply `{classId, disconnectId}`. */
  datatype Created = Created(classId: string, disconnectId: string)

  /** `createNewClass`: 400 when the form or the teacherId is missing, 400
      when the teacherId fails the token check; otherwise the form, the
      teacherId, a fresh `disconnectId` and `createdAt` are stored under a
      fresh id, and both ids are returned. `newClassId`, `disconnectId` and
      `now` stand for the store's id, `uuidv4()` and the server timestamp. */
  method CreateNewClass(db: Db, f: ClassForm, teacherId: string, newClassId: string, disconnectId: string, now: int)
    returns (r: Reply<Created>)
    requires newClassId != "" && newClassId !in db.classes
    modifies db`classes
    ensures !CreateRequestComplete(f, teacherId) ==>
      r == Fail(400, "All fields are required.") && unchanged(db)
    ensures CreateRequestComplete(f, teacherId) && !Validations.VerifyTeacherId(teacherId) ==>
      r == Fail(400, "Invalid teacherId.") && unchanged(db)
    ensures (CreateRequestComplete(f, teacherId) && Validations.VerifyTeacherId(teacherId)) ==>
      r == Ok(Created(newClassId, disconnectId)) &&
      db.classes == old(db.classes)[newClassId := NewClassDoc(f, teacherId, disconnectId, now)]
    ensures old(db.Valid()) ==> db.Valid()
  {
    if !CreateRequestComplete(f, teacherId) {
      return Fail(400, "All fields are required.");
    }
    if !Validations.VerifyTeacherId(teacherId) {
      return Fail(400, "Invalid teacherId.");
    }
    db.classes := db.classes[newClassId := NewClassDoc(f, teacherId, disconnectId, now)];
    r := Ok(Created(newClassId, disconnectId));
  }

  /** A class document without `teacherId` and `disconnectId`, as a joining
      student sees it. */
  datatype PublicClass = PublicClass(
    name: string,
    openMaterial: bool,
    testDate: string,
    testStartTime: string,
    testTimeHours: int,
    testTimeMinutes: int,
    createdAt: int,
    updatedAt: Option<int>)

  /** `delete classData.teacherId; delete classData.disconnectId`. */
  function PublicDetails(doc: ClassDoc): (p: PublicClass)
    ensures WithSecrets(p, doc.teacherId, doc.disconnectId) == doc
  {
    PublicClass(doc.name, doc.openMaterial, doc.testDate, doc.testStartTime,
                doc.testTimeHours, doc.testTimeMinutes, doc.createdAt, doc.updatedAt)
  }

  /** The two deleted fields put back. */
  function WithSecrets(p: PublicClass, teacherId: string, disconnectId: string): ClassDoc
  {
    ClassDoc(p.name, p.openMaterial, p.testDate, p.testStartTime,
             p.testTimeHours, p.testTimeMinutes, teacherId, disconnectId, p.createdAt, p.updatedAt)
  }

  /** The public view loses exactly the two secret fields: given them back,
      the stored document is recovered, and two documents that differ only in
      those fields look the same. */
  lemma PublicDetailsDropsOnlySecrets(doc: ClassDoc, other: ClassDoc)
    ensures WithSecrets(PublicDetails(doc), doc.teacherId, doc.disconnectId) == doc
    ensures PublicDetails(doc) == PublicDetails(other) <==>
      doc.(teacherId := other.teacherId, disconnectId := other.disconnectId) == other
  {
  }

  /** The reply of `joinClass`: `{success: false}` or the new student's id
      with the public class details. */
  datatype JoinResult = NotJoined | Joined(studentId: string, classDetails: PublicClass)

  /** The student document `joinClass` writes: the three names and
      `createdAt`, no status and no "Finished test". */
  function NewStudent(firstName: string, lastName: string, email: string, now: int): (s: StudentNode)
    ensures s.doc.firstName == firstName && s.doc.lastName == lastName && s.doc.email == email
    ensures s.doc.createdAt == now && s.doc.ok == Undefined && !s.doc.finishedTest
    ensures s.notes == map[]
  {
    StudentNode(StudentDoc(firstName, lastName, email, now, Undefined, false), map[])
  }

  /** `joinClass`: 400 when a field is missing; `success: false` with no
      write when the class is absent; otherwise a new student under a fresh
      id, with the class details minus its secrets. */
  method JoinClass(db: Db, classId: string, firstName: string, lastName: string, email: string,
                   newStudentId: string, now: int)
    returns (r: Reply<JoinResult>)
    requires newStudentId != "" && newStudentId !in RosterOf(db.students, classId)
    modifies db`students
    ensures classId == "" || firstName == "" || lastName == "" || email == "" ==>
      r == Fail(400, "classId, firstName, lastName, and email are required.") && unchanged(db)
    ensures classId != "" && firstName != "" && lastName != "" && email != "" && classId !in db.classes ==>
      r == Ok(NotJoined) && unchanged(db)
    ensures (classId != "" && firstName != "" && lastName != "" && email != "" && classId in db.classes) ==>
      r == Ok(Joined(newStudentId, PublicDetails(db.classes[classId]))) &&
      db.students == old(db.students)[classId :=
        RosterOf(old(db.students), classId)[newStudentId := NewStudent(firstName, lastName, email, now)]]
    ensures FinishedStays(old(db.students), db.students)
  {
    if classId == "" || firstName == "" || lastName == "" || email == "" {
      return Fail(400, "classId, firstName, lastName, and email are required.");
    }
    var classDoc := GetClassById(db.classes, classId);
    if classDoc.None? {
      return Ok(NotJoined);
    }
    var roster := RosterOf(db.students, classId);
    db.students := db.students[classId := roster[newStudentId := NewStudent(firstName, lastName, email, now)]];
    r := Ok(Joined(newStudentId, PublicDetails(classDoc.value)));
  }

  /** `getClassDetails`: the stored document as it is, secrets included. */
  method GetClassDetails(db: Db, classId: string) returns (r: Reply<ClassDoc>)
    ensures classId == "" ==> r == Fail(400, "classId is required.")
    ensures classId != "" && classId !in db.classes ==> r == Fail(404, "Class not found")
    ensures classId != "" && classId in db.classes ==> r == Ok(db.classes[classId])
  {
    if classId == "" {
      return Fail(400, "classId is required.");
    }
    var doc := GetClassById(db.classes, classId);
    if doc.None? {
      return Fail(404, "Class not found");
    }
    r := Ok(doc.value);
  }

  /** `getClassComments`: 404 when the class path has no student (whether or
      not the class exists); otherwise every note of every student once,
      newest first. Nothing is written. */
  method GetClassComments(db: Db, classId: string)
    returns (r: Reply<seq<NoteEntry>>, ghost read: seq<NoteEntry>, ghost paths: seq<NotePath>)
    ensures classId == "" ==> r == Fail(400, "classId is required.")
    ensures classId != "" && RosterOf(db.students, classId) == map[] ==>
      r == Fail(404, "No students found in the specified class.")
    ensures classId != "" && RosterOf(db.students, classId) != map[] ==>
      r.Ok? && NewestFirst(r.value) && multiset(r.value) == multiset(read) &&
      Collects(RosterOf(db.students, classId), false, read, paths)
  {
    read, paths := [], [];
    if classId == "" {
      return Fail(400, "classId is required."), read, paths;
    }
    var roster := RosterOf(db.students, classId);
    if roster == map[] {
      return Fail(404, "No students found in the specified class."), read, paths;
    }
    var comments;
    comments, paths := Gather(roster, false);
    read := comments;
    r := Ok(SortNewestFirst(comments));
  }

  /** The document after `classRef.update`: the six test fields and
      `updatedAt` replaced, the rest kept. */
  function Edited(doc: ClassDoc, f: ClassForm, now: int): (d: ClassDoc)
    requires FormComplete(f)
    ensures d.teacherId == doc.teacherId && d.disconnectId == doc.disconnectId && d.createdAt == doc.createdAt
    ensures d.name == f.name && Bool(d.openMaterial) == f.openMaterial
    ensures d.testDate == f.testDate && d.testStartTime == f.testStartTime
    ensures Num(d.testTimeHours) == f.testTimeHours && Num(d.testTimeMinutes) == f.testTimeMinutes
    ensures d.updatedAt == Some(now)
  {
    doc.(name := f.name, openMaterial := f.openMaterial.b, testDate := f.testDate,
         testStartTime := f.testStartTime, testTimeHours := f.testTimeHours.n,
         testTimeMinutes := f.testTimeMinutes.n, updatedAt := Some(now))
  }

  /** Editing twice with the same form is editing once (up to the time). */
  lemma EditedIdempotent(doc: ClassDoc, f: ClassForm, now: int, later: int)
    requires FormComplete(f)
    ensures Edited(Edited(doc, f, now), f, later) == Edited(doc, f, later)
  {
  }

  /** `editClass`: 400 for missing ids, then 400 for an incomplete form, then
      400 for a bad token, then 404, then 403; otherwise the class takes the
      new test fields and `updatedAt`, keeps its owner, `disconnectId` and
      `createdAt`, and the reply is the document as re-read. */
  method EditClass(db: Db, teacherId: string, classId: string, f: ClassForm, now: int)
    returns (r: Reply<ClassDoc>)
    modifies db`classes
    ensures teacherId == "" || classId == "" ==>
      r == Fail(400, "teacherId and classId are required.") && unchanged(db)
    ensures teacherId != "" && classId != "" && !FormComplete(f) ==>
      r == Fail(400, "All fields are required for updating.") && unchanged(db)
    ensures (teacherId != "" && classId != "" && FormComplete(f) &&
             !Validations.VerifyTeacherId(teacherId)) ==>
      r == Fail(400, "Invalid teacherId.") && unchanged(db)
    ensures (classId != "" && FormComplete(f) && Validations.VerifyTeacherId(teacherId) &&
             classId !in old(db.classes)) ==>
      r == Fail(404, "Class not found.") && unchanged(db)
    ensures (classId != "" && FormComplete(f) && Validations.VerifyTeacherId(teacherId) &&
             classId in old(db.classes) && old(db.classes)[classId].teacherId != teacherId) ==>
      r == Fail(403, "Permission denied. Teacher ID does not match.") && unchanged(db)
    ensures (classId != "" && FormComplete(f) && Validations.VerifyTeacherId(teacherId) &&
             classId in old(db.classes) && old(db.classes)[classId].teacherId == teacherId) ==>
      r == Ok(Edited(old(db.classes)[classId], f, now)) &&
      db.classes == old(db.classes)[classId := Edited(old(db.classes)[classId], f, now)]
    ensures old(db.Valid()) ==> db.Valid()
  {
    if teacherId == "" || classId == "" {
      return Fail(400, "teacherId and classId are required.");
    }
    if !FormComplete(f) {
      return Fail(400, "All fields are required for updating.");
    }
    if !Validations.VerifyTeacherId(teacherId) {
      return Fail(400, "Invalid teacherId.");
    }
    var doc := GetClassById(db.classes, classId);
    if doc.None? {
      return Fail(404, "Class not found.");
    }
    if doc.value.teacherId != teacherId {
      return Fail(403, "Permission denied. Teacher ID does not match.");
    }
    db.classes := db.classes[classId := Edited(doc.value, f, now)];
    r := Ok(db.classes[classId]);
  }
}
