/**
 * The student handlers of functions/students.js that belong to the class
 * flow: a student reporting a status, a student leaving the test, and the
 * teacher listing who is still taking it.
 */
module Students {
  import opened Common
  import opened Firestore
  import Validations

  /** The reply of `setStudentStatus`: the student and `ok` the result text
      names, and `statusNote || null`. */
  datatype StatusReply = StatusReply(studentId: string, ok: Value, statusNote: Value)

  /** `statusNote || null`. */
  function EchoedNote(statusNote: Value): (v: Value)
    ensures Truthy(statusNote) ==> v == statusNote
    ensures !Truthy(statusNote) ==> v == Null
  {
    if Truthy(statusNote) then statusNote else Null
  }

  /** A student after a status update: `ok` written, and a new note under
      `noteId` exactly when `statusNote` is truthy. */
  function WithStatus(node: StudentNode, ok: Value, statusNote: Value, noteId: string, now: int): (r: StudentNode)
    ensures r.doc == node.doc.(ok := ok)
    ensures Truthy(statusNote) ==> r.notes == node.notes[noteId := Note(statusNote, now, false)]
    ensures !Truthy(statusNote) ==> r.notes == node.notes
  {
    StudentNode(node.doc.(ok := ok),
                if Truthy(statusNote) then node.notes[noteId := Note(statusNote, now, false)] else node.notes)
  }

  /** `setStudentStatus`: 400 only for a missing classId or studentId or an
      absent `ok` (so `ok: false` and `ok: null` are accepted); 404 when the
      student document is absent. The class itself is never looked up. On
      success only `ok` is written to the student, and a note is added under
      the fresh id `noteId` when `statusNote` is truthy. */
  method SetStudentStatus(db: Db, classId: string, studentId: string, ok: Value, statusNote: Value,
                          noteId: string, now: int)
    returns (r: Reply<StatusReply>)
    requires studentId in RosterOf(db.students, classId) ==>
      noteId !in RosterOf(db.students, classId)[studentId].notes
    modifies db`students
    ensures classId == "" || studentId == "" || ok == Undefined ==>
      r == Fail(400, "classId, studentId, and ok are required.") && unchanged(db)
    ensures (classId != "" && studentId != "" && ok != Undefined &&
             studentId !in RosterOf(old(db.students), classId)) ==>
      r == Fail(404, "Student not found") && unchanged(db)
    ensures (classId != "" && studentId != "" && ok != Undefined &&
             studentId in RosterOf(old(db.students), classId)) ==>
      var roster := RosterOf(old(db.students), classId);
      r == Ok(StatusReply(studentId, ok, EchoedNote(statusNote))) &&
      db.students == old(db.students)[classId :=
        roster[studentId := WithStatus(roster[studentId], ok, statusNote, noteId, now)]]
    ensures FinishedStays(old(db.students), db.students)
  {
    if classId == "" || studentId == "" || ok == Undefined {
      return Fail(400, "classId, studentId, and ok are required.");
    }
    var roster := RosterOf(db.students, classId);
    if studentId !in roster {
      return Fail(404, "Student not found");
    }
    db.students := db.students[classId := roster[studentId := WithStatus(roster[studentId], ok, statusNote, noteId, now)]];
    r := Ok(StatusReply(studentId, ok, EchoedNote(statusNote)));
  }

  /** The reply of `disconnectClass`: `{success: true}`, or `success: false`
      with the message of the check that failed. */
  datatype DisconnectResult = Disconnected | NotDisconnected(message: string)

  /** The student after `update({"Finished test": true})`. */
  function Finished(node: StudentNode): (r: StudentNode)
    ensures r.doc == node.doc.(finishedTest := true) && r.notes == node.notes
  {
    node.(doc := node.doc.(finishedTest := true))
  }

  /** `disconnectClass`: the class must exist, then its `disconnectId` must
      match, then the student must exist; the first check that fails is
      reported with status 200 and nothing is written. Otherwise the student
      is marked as having finished the test. */
  method DisconnectClass(db: Db, classId: string, disconnectId: string, studentId: string)
    returns (r: Reply<DisconnectResult>)
    modifies db`students
    ensures classId == "" || disconnectId == "" || studentId == "" ==>
      r == Fail(400, "classId, disconnectId, and studentId are required.") && unchanged(db)
    ensures (classId != "" && disconnectId != "" && studentId != "" && classId !in db.classes) ==>
      r == Ok(NotDisconnected("Class not found")) && unchanged(db)
    ensures (classId != "" && disconnectId != "" && studentId != "" && classId in db.classes &&
             db.classes[classId].disconnectId != disconnectId) ==>
      r == Ok(NotDisconnected("Invalid disconnectId")) && unchanged(db)
    ensures (classId != "" && disconnectId != "" && studentId != "" && classId in db.classes &&
             db.classes[classId].disconnectId == disconnectId &&
             studentId !in RosterOf(old(db.students), classId)) ==>
      r == Ok(NotDisconnected("Student not found")) && unchanged(db)
    ensures (classId != "" && disconnectId != "" && studentId != "" && classId in db.classes &&
             db.classes[classId].disconnectId == disconnectId &&
             studentId in RosterOf(old(db.students), classId)) ==>
      var roster := RosterOf(old(db.students), classId);
      r == Ok(Disconnected) &&
      db.students == old(db.students)[classId := roster[studentId := Finished(roster[studentId])]]
    ensures FinishedStays(old(db.students), db.students)
  {
    if classId == "" || disconnectId == "" || studentId == "" {
      return Fail(400, "classId, disconnectId, and studentId are required.");
    }
    var classDoc := GetClassById(db.classes, classId);
    if classDoc.None? {
      return Ok(NotDisconnected("Class not found"));
    }
    if classDoc.value.disconnectId != disconnectId {
      return Ok(NotDisconnected("Invalid disconnectId"));
    }
    var roster := RosterOf(db.students, classId);
    if studentId !in roster {
      return Ok(NotDisconnected("Student not found"));
    }
    db.students := db.students[classId := roster[studentId := Finished(roster[studentId])]];
    r := Ok(Disconnected);
  }

  /** A disconnected student is finished, and a second disconnect changes
      nothing more. */
  lemma FinishedIdempotent(node: StudentNode)
    ensures Finished(node).doc.finishedTest
    ensures Finished(Finished(node)) == Finished(node)
  {
  }

  /** `{studentId: doc.id, ...studentData}`. */
  datatype StudentListing = StudentListing(studentId: string, details: StudentDoc)

  /** The `forEach` of `getConnectedStudents`: every student of the roster
      whose "Finished test" is not true, once, with its document. */
  method ListConnected(roster: Roster) returns (students: seq<StudentListing>)
    ensures forall e | e in students ::
      e.studentId in roster && e.details == roster[e.studentId].doc && !e.details.finishedTest
    ensures forall sid | sid in roster && !roster[sid].doc.finishedTest ::
      StudentListing(sid, roster[sid].doc) in students
    ensures forall i, j :: 0 <= i < j < |students| ==> students[i].studentId != students[j].studentId
  {
    var left := roster.Keys;
    students := [];
    while left != {}
      invariant left <= roster.Keys
      invariant forall e | e in students ::
        e.studentId in roster && e.studentId !in left &&
        e.details == roster[e.studentId].doc && !e.details.finishedTest
      invariant forall sid | sid in roster && sid !in left && !roster[sid].doc.finishedTest ::
        StudentListing(sid, roster[sid].doc) in students
      invariant forall i, j :: 0 <= i < j < |students| ==> students[i].studentId != students[j].studentId
      decreases left
    {
      var sid :| sid in left;
      if !roster[sid].doc.finishedTest {
        students := students + [StudentListing(sid, roster[sid].doc)];
      }
      left := left - {sid};
    }
  }

  /** `getConnectedStudents`: 400 for missing ids, 400 for a bad token, then
      404 and 403; otherwise each student of the class whose "Finished test"
      is not true, once, and no other. */
  method GetConnectedStudents(db: Db, teacherId: string, classId: string)
    returns (r: Reply<seq<StudentListing>>)
    ensures teacherId == "" || classId == "" ==> r == Fail(400, "teacherId and classId are required.")
    ensures teacherId != "" && classId != "" && !Validations.VerifyTeacherId(teacherId) ==>
      r == Fail(400, "Invalid teacherId.")
    ensures classId != "" && Validations.VerifyTeacherId(teacherId) && classId !in db.classes ==>
      r == Fail(404, "Class not found.")
    ensures (classId != "" && Validations.VerifyTeacherId(teacherId) && classId in db.classes &&
             db.classes[classId].teacherId != teacherId) ==>
      r == Fail(403, "Permission denied. Teacher ID does not match.")
    ensures (classId != "" && Validations.VerifyTeacherId(teacherId) && classId in db.classes &&
             db.classes[classId].teacherId == teacherId) ==>
      var roster := RosterOf(db.students, classId);
      r.Ok? &&
      (forall e | e in r.value ::
         e.studentId in roster && e.details == roster[e.studentId].doc && !e.details.finishedTest) &&
      (forall sid | sid in roster && !roster[sid].doc.finishedTest ::
         StudentListing(sid, roster[sid].doc) in r.value) &&
      (forall i, j :: 0 <= i < j < |r.value| ==> r.value[i].studentId != r.value[j].studentId)
  {
    if teacherId == "" || classId == "" {
      return Fail(400, "teacherId and classId are required.");
    }
    if !Validations.VerifyTeacherId(teacherId) {
      return Fail(400, "Invalid teacherId.");
    }
    var refusal := VerifyTeacher(GetClassById(db.classes, classId), teacherId);
    if refusal.Some? {
      return Refuse(refusal.value);
    }
    var students := ListConnected(RosterOf(db.students, classId));
    r := Ok(students);
  }
}
