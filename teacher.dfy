/**
 * The teacher-facing handlers of functions/teacher.js: deleting a class,
 * deleting all classes of a teacher, listing a teacher's classes and
 * fetching the notes the teacher has not seen yet.
 */
module Teacher {
  import opened Common
  import opened Firestore
  import Validations

  /** The documents the query `where("teacherId", "==", teacherId)` returns. */
  function ClassesOf(classes: map<string, ClassDoc>, teacherId: string): (r: map<string, ClassDoc>)
    ensures forall id :: id in r <==> id in classes && classes[id].teacherId == teacherId
    ensures forall id | id in r :: r[id] == classes[id]
  {
    map id | id in classes && classes[id].teacherId == teacherId :: classes[id]
  }

  /** `deleteClass`: 400 when an id is missing, then 404 when the class is
      absent, then 403 when it belongs to someone else; otherwise the blobs
      under `pdfs/<classId>/` go first and the class document second. A
      failed blob removal leaves the document and replies 500. Only the class
      document is removed: its `students` subcollection stays. */
  method DeleteClass(db: Db, teacherId: string, classId: string, storageFails: bool) returns (r: Reply<string>)
    modifies db
    ensures teacherId == "" || classId == "" ==>
      r == Fail(400, "teacherId and classId are required.") && unchanged(db)
    ensures teacherId != "" && classId != "" && classId !in old(db.classes) ==>
      r == Fail(404, "Class not found.") && unchanged(db)
    ensures (teacherId != "" && classId != "" && classId in old(db.classes) &&
             old(db.classes)[classId].teacherId != teacherId) ==>
      r == Fail(403, "Permission denied. Teacher ID does not match.") && unchanged(db)
    ensures (teacherId != "" && classId != "" && classId in old(db.classes) &&
             old(db.classes)[classId].teacherId == teacherId) ==>
      db.students == old(db.students) &&
      if storageFails then
        r == Fail(500, "Failed to delete class.") && unchanged(db)
      else
        r == Ok("Class deleted successfully, including storage files.") &&
        db.classes == old(db.classes) - {classId} &&
        db.bucket == RemoveFolder(old(db.bucket), PdfFolder(classId))
    ensures old(db.Valid()) ==> db.Valid()
  {
    if teacherId == "" || classId == "" {
      return Fail(400, "teacherId and classId are required.");
    }
    var refusal := VerifyTeacher(GetClassById(db.classes, classId), teacherId);
    if refusal.Some? {
      return Refuse(refusal.value);
    }
    var ok := DeleteFilesInFolder(db, PdfFolder(classId), storageFails);
    if !ok {
      return Fail(500, "Failed to delete class.");
    }
    db.classes := db.classes - {classId};
    r := Ok("Class deleted successfully, including storage files.");
  }

  /** One `deleteClass` call of `deleteClassesByTeacher`, on a class the
      teacher owns: its reply is discarded, and its effect is the class and
      its pdf folder gone, or nothing when the blob removal fails. Counted
      from the store before the loop (`classes0`, `bucket0`, with the
      classes `done` already deleted), the class joins `done` unless its
      removal fails. */
  method DeleteOwnedClass(db: Db, teacherId: string, classId: string, storageFails: bool,
                          ghost classes0: map<string, ClassDoc>, ghost bucket0: map<string, Blob>,
                          ghost done: set<string>)
    returns (ghost done': set<string>)
    requires db.Valid() && teacherId != ""
    requires classId in db.classes && db.classes[classId].teacherId == teacherId
    requires db.classes == classes0 - done && db.bucket == RemovePdfFolders(bucket0, done)
    modifies db
    ensures done' == if storageFails then done else done + {classId}
    ensures db.classes == classes0 - done' && db.bucket == RemovePdfFolders(bucket0, done')
    ensures db.Valid() && db.students == old(db.students)
  {
    var _ := DeleteClass(db, teacherId, classId, storageFails);
    done' := done;
    if !storageFails {
      RemoveOneMorePdfFolder(bucket0, done, classId);
      done' := done + {classId};
    }
  }

  /** The per-class loop of `deleteClassesByTeacher` over the owned class
      ids, in whatever order the query returned them: every class outside
      `storageFailures` goes, with its pdf folder. */
  method DeleteEach(db: Db, teacherId: string, ids: set<string>, storageFailures: set<string>)
    requires db.Valid() && teacherId != ""
    requires forall id | id in ids :: id in db.classes && db.classes[id].teacherId == teacherId
    modifies db
    ensures db.classes == old(db.classes) - (ids - storageFailures)
    ensures db.bucket == RemovePdfFolders(old(db.bucket), ids - storageFailures)
    ensures db.students == old(db.students) && db.Valid()
  {
    ghost var done: set<string> := {};
    var left := ids;
    RemoveNoPdfFolder(db.bucket);
    while left != {}
      invariant left <= ids
      invariant done == (ids - left) - storageFailures
      invariant db.classes == old(db.classes) - done
      invariant db.bucket == RemovePdfFolders(old(db.bucket), done)
      invariant db.students == old(db.students)
      invariant db.Valid()
      decreases left
    {
      var classId :| classId in left;
      done := DeleteOwnedClass(db, teacherId, classId, classId in storageFailures,
                               old(db.classes), old(db.bucket), done);
      left := left - {classId};
    }
  }

  /** `deleteClassesByTeacher`: 400 without a teacherId, 404 when the
      teacher owns no class; otherwise one `deleteClass` per owned class.
      Each such call catches its own failure, so the reply is 200 even when
      some blob removals failed (the classes in `storageFailures`), and those
      classes survive. The supplied id is never checked with
      `verifyTeacherId`. */
  method DeleteClassesByTeacher(db: Db, teacherId: string, storageFailures: set<string>) returns (r: Reply<string>)
    requires db.Valid()
    modifies db
    ensures teacherId == "" ==> r == Fail(400, "teacherId is required.") && unchanged(db)
    ensures teacherId != "" && ClassesOf(old(db.classes), teacherId) == map[] ==>
      r == Fail(404, "No classes found for the given teacherId.") && unchanged(db)
    ensures teacherId != "" && ClassesOf(old(db.classes), teacherId) != map[] ==>
      var deleted := ClassesOf(old(db.classes), teacherId).Keys - storageFailures;
      r == Ok("All classes deleted successfully.") &&
      db.classes == old(db.classes) - deleted &&
      db.bucket == RemovePdfFolders(old(db.bucket), deleted) &&
      db.students == old(db.students)
    ensures db.Valid()
  {
    if teacherId == "" {
      return Fail(400, "teacherId is required.");
    }
    var owned := ClassesOf(db.classes, teacherId);
    if owned == map[] {
      return Fail(404, "No classes found for the given teacherId.");
    }
    DeleteEach(db, teacherId, owned.Keys, storageFailures);
    r := Ok("All classes deleted successfully.");
  }

  /** `{classId: doc.id, ...doc.data()}`. */
  datatype ClassListing = ClassListing(classId: string, details: ClassDoc)

  /** `getClassesById`: a token failing `verifyTeacherId` is refused before
      any query; otherwise every class of that teacher once, tagged with its
      id, and nothing else. */
  method GetClassesById(db: Db, teacherId: string) returns (r: Reply<seq<ClassListing>>)
    ensures teacherId == "" ==> r == Fail(400, "teacherId is required.")
    ensures teacherId != "" && !Validations.VerifyTeacherId(teacherId) ==> r == Fail(400, "Invalid teacherId.")
    ensures Validations.VerifyTeacherId(teacherId) ==> r.Ok?
    ensures r.Ok? ==>
      (forall e | e in r.value ::
         e.classId in db.classes && e.details == db.classes[e.classId] && e.details.teacherId == teacherId) &&
      (forall id | id in db.classes && db.classes[id].teacherId == teacherId ::
         ClassListing(id, db.classes[id]) in r.value) &&
      (forall i, j :: 0 <= i < j < |r.value| ==> r.value[i].classId != r.value[j].classId)
  {
    if teacherId == "" {
      return Fail(400, "teacherId is required.");
    }
    if !Validations.VerifyTeacherId(teacherId) {
      return Fail(400, "Invalid teacherId.");
    }
    var found := ClassesOf(db.classes, teacherId);
    var ids := Snapshot(found);
    var classes: seq<ClassListing> := [];
    for k := 0 to |ids|
      invariant |classes| == k
      invariant forall i :: 0 <= i < k ==> classes[i] == ClassListing(ids[i], found[ids[i]])
    {
      classes := classes + [ClassListing(ids[k], found[ids[k]])];
    }
    forall id | id in db.classes && db.classes[id].teacherId == teacherId
      ensures ClassListing(id, db.classes[id]) in classes
    {
      var i :| 0 <= i < |ids| && ids[i] == id;
      assert classes[i] == ClassListing(id, db.classes[id]);
    }
    r := Ok(classes);
  }

  /** `getNewUpdates`: after the token check and the 404/403 checks, every
      note of the class whose `updatedToTeacher` is not true is returned once
      (`read`, with the path of each in `paths`), newest first; then every
      note of the class is marked delivered, which changes exactly the
      returned ones. */
  method GetNewUpdates(db: Db, teacherId: string, classId: string)
    returns (r: Reply<seq<NoteEntry>>, ghost read: seq<NoteEntry>, ghost paths: seq<NotePath>)
    modifies db`students
    ensures teacherId == "" || classId == "" ==>
      r == Fail(400, "teacherId and classId are required.") && unchanged(db)
    ensures teacherId != "" && classId != "" && !Validations.VerifyTeacherId(teacherId) ==>
      r == Fail(400, "Invalid teacherId.") && unchanged(db)
    ensures classId != "" && Validations.VerifyTeacherId(teacherId) && classId !in db.classes ==>
      r == Fail(404, "Class not found.") && unchanged(db)
    ensures (classId != "" && Validations.VerifyTeacherId(teacherId) && classId in db.classes &&
             db.classes[classId].teacherId != teacherId) ==>
      r == Fail(403, "Permission denied. Teacher ID does not match.") && unchanged(db)
    ensures (classId != "" && Validations.VerifyTeacherId(teacherId) && classId in db.classes &&
             db.classes[classId].teacherId == teacherId) ==>
      var roster := RosterOf(old(db.students), classId);
      r.Ok? && NewestFirst(r.value) && multiset(r.value) == multiset(read) &&
      Collects(roster, true, read, paths) &&
      db.students == if classId in old(db.students)
                     then old(db.students)[classId := MarkDelivered(roster)]
                     else old(db.students)
    ensures FinishedStays(old(db.students), db.students)
  {
    read, paths := [], [];
    if teacherId == "" || classId == "" {
      return Fail(400, "teacherId and classId are required."), read, paths;
    }
    if !Validations.VerifyTeacherId(teacherId) {
      return Fail(400, "Invalid teacherId."), read, paths;
    }
    var refusal := VerifyTeacher(GetClassById(db.classes, classId), teacherId);
    if refusal.Some? {
      return Refuse(refusal.value), read, paths;
    }
    var roster := RosterOf(db.students, classId);
    var updates;
    updates, paths := Gather(roster, true);
    read := updates;
    if classId in db.students {
      db.students := db.students[classId := MarkDelivered(roster)];
    }
    r := Ok(SortNewestFirst(updates));
  }

  /** Two fetches in a row with nothing written in between: the second
      returns nothing. */
  method FetchTwice(db: Db, teacherId: string, classId: string)
    returns (first: Reply<seq<NoteEntry>>, second: Reply<seq<NoteEntry>>)
    requires Validations.VerifyTeacherId(teacherId) && classId != ""
    requires classId in db.classes && db.classes[classId].teacherId == teacherId
    modifies db`students
    ensures second == Ok([])
  {
    ghost var read, paths;
    first, read, paths := GetNewUpdates(db, teacherId, classId);
    ghost var marked := db.students;
    second, read, paths := GetNewUpdates(db, teacherId, classId);
    if classId in old(db.students) {
      assert RosterOf(marked, classId) == MarkDelivered(RosterOf(old(db.students), classId));
      NothingPendingAfterMark(RosterOf(old(db.students), classId), read, paths);
    } else {
      assert Collects(MarkDelivered(map[]), true, read, paths);
      NothingPendingAfterMark(map[], read, paths);
    }
    assert |second.value| == |read| by {
      assert |multiset(second.value)| == |multiset(read)|;
    }
  }
}
