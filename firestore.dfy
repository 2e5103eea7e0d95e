/**
 * The data the backend keeps and the store primitives it calls through
 * (functions/utils/firestore.js, functions/utils/storage.js).
 *
 * The document store is three maps. `classes` holds the class documents by
 * id. `students` holds the `students` subcollection of each class path, by
 * class id; it is kept apart from `classes` because deleting a Firestore
 * document leaves its subcollections in place. Each student carries its own
 * `Notes` subcollection. The blob bucket is a map from path to contents.
 */
module Firestore {
  import opened Common
  import Validations

  /** A document of the `classes` collection. */
  datatype ClassDoc = ClassDoc(
    name: string,
    openMaterial: bool,
    testDate: string,        // "YYYY-MM-DD"
    testStartTime: string,   // "HH:MM"
    testTimeHours: int,
    testTimeMinutes: int,
    teacherId: string,
    disconnectId: string,
    createdAt: int,
    updatedAt: Option<int>)

  /** A document of `classes/{classId}/students`. `ok` is whatever value the
      last status update wrote (`Undefined` until then); `finishedTest` is the
      field "Finished test", absent (false) until a disconnect sets it. */
  datatype StudentDoc = StudentDoc(
    firstName: string,
    lastName: string,
    email: string,
    createdAt: int,
    ok: Value,
    finishedTest: bool)

  /** A document of `.../students/{studentId}/Notes`. The field
      `updatedToTeacher` is absent (false) until the teacher has fetched it. */
  datatype Note = Note(note: Value, timestamp: int, updatedToTeacher: bool)

  /** A student document together with its `Notes` subcollection. */
  datatype StudentNode = StudentNode(doc: StudentDoc, notes: map<string, Note>)

  type Roster = map<string, StudentNode>

  type Blob = seq<bv8>

  class Db {
    var classes: map<string, ClassDoc>
    var students: map<string, Roster>
    var bucket: map<string, Blob>

    constructor (classes: map<string, ClassDoc>, students: map<string, Roster>, bucket: map<string, Blob>)
      ensures this.classes == classes && this.students == students && this.bucket == bucket
    {
      this.classes := classes;
      this.students := students;
      this.bucket := bucket;
    }

    /** What the handlers keep true of the class collection: Firestore ids
        are never empty, and no stored `teacherId` is empty, since a class is
        only created for a token that passed the check (edits never touch
        it). */
    ghost predicate Valid()
      reads this
    {
      "" !in classes &&
      forall id | id in classes :: classes[id].teacherId != ""
    }
  }

  /** The `students` subcollection of a class path; empty when nothing was
      ever written under it. */
  function RosterOf(students: map<string, Roster>, classId: string): (r: Roster)
    ensures classId !in students ==> r == map[]
    ensures classId in students ==> r == students[classId]
  {
    if classId in students then students[classId] else map[]
  }

  /** A student who has finished the test is still there, still finished:
      no handler deletes a student or writes "Finished test" back. */
  predicate FinishedStays(before: map<string, Roster>, after: map<string, Roster>)
  {
    forall c, s | c in before && s in before[c] && before[c][s].doc.finishedTest ::
      c in after && s in after[c] && after[c][s].doc.finishedTest
  }

  /** Finishing survives any run of handlers that each keep it. */
  lemma FinishedStaysTransitive(a: map<string, Roster>, b: map<string, Roster>, c: map<string, Roster>)
    requires FinishedStays(a, b) && FinishedStays(b, c)
    ensures FinishedStays(a, c)
  {
  }

  // ---------------------------------------------------------------------
  // utils/firestore.js
  // ---------------------------------------------------------------------

  /** `getClassById(classId)`: a read of one document, which changes nothing. */
  function GetClassById(classes: map<string, ClassDoc>, classId: string): (doc: Option<ClassDoc>)
    ensures doc.Some? <==> classId in classes
    ensures doc.Some? ==> doc.value == classes[classId]
  {
    if classId in classes then Some(classes[classId]) else None
  }

  datatype AuthError = ClassNotFound | PermissionDenied

  /** `verifyTeacher(classDoc, teacherId)`: `None` when it returns normally,
      otherwise the error it throws. Existence is tested before ownership,
      and ownership is plain equality of the ids, with no format check. */
  function VerifyTeacher(classDoc: Option<ClassDoc>, teacherId: string): (thrown: Option<AuthError>)
    ensures classDoc.None? ==> thrown == Some(ClassNotFound)
    ensures classDoc.Some? && classDoc.value.teacherId != teacherId ==> thrown == Some(PermissionDenied)
    ensures thrown.None? <==> classDoc.Some? && classDoc.value.teacherId == teacherId
  {
    if classDoc.None? then Some(ClassNotFound)
    else if classDoc.value.teacherId != teacherId then Some(PermissionDenied)
    else None
  }

  /** The reply every owner-guarded handler sends for an ownership failure. */
  function Refuse<T>(e: AuthError): (r: Reply<T>)
    ensures r.Fail?
    ensures e == ClassNotFound ==> r.status == 404
    ensures e == PermissionDenied ==> r.status == 403
  {
    match e
    case ClassNotFound => Fail(404, "Class not found.")
    case PermissionDenied => Fail(403, "Permission denied. Teacher ID does not match.")
  }

  /** Any id equal to the stored one passes, even one the token check rejects. */
  lemma OwnershipIsPlainEquality()
    ensures var doc := ClassDoc("", false, "", "", 0, 0, "abc", "", 0, None);
      VerifyTeacher(Some(doc), "abc").None? && !Validations.VerifyTeacherId("abc")
  {
  }

  // ---------------------------------------------------------------------
  // utils/storage.js
  // ---------------------------------------------------------------------

  /** `pdfs/${classId}/`. */
  function PdfFolder(classId: string): string
  {
    "pdfs/" + classId + "/"
  }

  /** The pdf folder is the folder name, the class id and a closing slash,
      so the class id can be read back from it. */
  lemma PdfFolderParts(classId: string)
    ensures var folder := PdfFolder(classId);
      |folder| == |classId| + 6 && folder[..5] == "pdfs/" && folder[|folder| - 1] == '/' &&
      folder[5..|folder| - 1] == classId
  {
  }

  function UploadFolder(classId: string): string
  {
    "uploads/" + classId + "/"
  }

  /** The bucket once every blob under `prefix` is gone. */
  function RemoveFolder(bucket: map<string, Blob>, prefix: string): (r: map<string, Blob>)
    ensures forall k :: k in r <==> k in bucket && !StartsWith(k, prefix)
    ensures forall k | k in r :: r[k] == bucket[k]
  {
    map k | k in bucket && !StartsWith(k, prefix) :: bucket[k]
  }

  /** `deleteFilesInFolder(prefix)`: list the blobs under the prefix and
      delete each. `fails` is the bucket's answer; a failed call is modelled
      as deleting nothing. */
  method DeleteFilesInFolder(db: Db, prefix: string, fails: bool) returns (ok: bool)
    modifies db`bucket
    ensures ok == !fails
    ensures db.bucket == if fails then old(db.bucket) else RemoveFolder(old(db.bucket), prefix)
  {
    ok := !fails;
    if ok {
      db.bucket := RemoveFolder(db.bucket, prefix);
    }
  }

  /** Clearing the `pdfs/` folder of any class never touches an `uploads/` blob. */
  lemma UploadsSurvivePdfRemoval(bucket: map<string, Blob>, classId: string, other: string)
    ensures forall k | k in bucket && StartsWith(k, UploadFolder(other)) ::
      k in RemoveFolder(bucket, PdfFolder(classId)) && RemoveFolder(bucket, PdfFolder(classId))[k] == bucket[k]
  {
    forall k | k in bucket && StartsWith(k, UploadFolder(other))
      ensures !StartsWith(k, PdfFolder(classId))
    {
      assert k[0] == UploadFolder(other)[0] == 'u';
      assert PdfFolder(classId)[0] == 'p';
    }
  }

  predicate InSomePdfFolder(k: string, ids: set<string>)
  {
    exists id | id in ids :: StartsWith(k, PdfFolder(id))
  }

  /** The bucket once the `pdfs/` folders of all classes in `ids` are gone. */
  function RemovePdfFolders(bucket: map<string, Blob>, ids: set<string>): (r: map<string, Blob>)
    ensures forall k :: k in r <==> k in bucket && !InSomePdfFolder(k, ids)
    ensures forall k | k in r :: r[k] == bucket[k]
  {
    map k | k in bucket && !InSomePdfFolder(k, ids) :: bucket[k]
  }

  /** Clearing folders one class at a time clears the union. */
  lemma RemoveOneMorePdfFolder(bucket: map<string, Blob>, ids: set<string>, id: string)
    ensures RemoveFolder(RemovePdfFolders(bucket, ids), PdfFolder(id)) == RemovePdfFolders(bucket, ids + {id})
  {
    var l := RemoveFolder(RemovePdfFolders(bucket, ids), PdfFolder(id));
    var r := RemovePdfFolders(bucket, ids + {id});
    forall k ensures k in l <==> k in r {
      if StartsWith(k, PdfFolder(id)) {
        assert InSomePdfFolder(k, ids + {id});
      }
    }
    assert l.Keys == r.Keys;
  }

  lemma RemoveNoPdfFolder(bucket: map<string, Blob>)
    ensures RemovePdfFolders(bucket, {}) == bucket
  {
    assert RemovePdfFolders(bucket, {}).Keys == bucket.Keys;
  }

  // ---------------------------------------------------------------------
  // Query snapshots
  // ---------------------------------------------------------------------

  /** The ids among the first `k + 1` of a list are those among the first
      `k` and the next one. */
  lemma PrefixIdsStep(ids: seq<string>, k: nat)
    requires k < |ids|
    ensures (set i | 0 <= i < k + 1 :: ids[i]) == (set i | 0 <= i < k :: ids[i]) + {ids[k]}
  {
  }

  /** A snapshot of a collection: every document id exactly once, in the
      order the store returns them (not modelled, so any order). */
  method Snapshot<V>(m: map<string, V>) returns (ids: seq<string>)
    ensures forall i, j :: 0 <= i < j < |ids| ==> ids[i] != ids[j]
    ensures forall id :: id in m <==> id in ids
  {
    ids := [];
    var left := m.Keys;
    while left != {}
      invariant left <= m.Keys
      invariant forall id :: id in m <==> id in ids || id in left
      invariant forall i :: 0 <= i < |ids| ==> ids[i] !in left
      invariant forall i, j :: 0 <= i < j < |ids| ==> ids[i] != ids[j]
      decreases left
    {
      var id :| id in left;
      ids := ids + [id];
      left := left - {id};
    }
  }

  // ---------------------------------------------------------------------
  // Notes of a class, as the teacher feeds read them
  // ---------------------------------------------------------------------

  /** `{studentId, studentDetails, note}`, one per note read. */
  datatype NoteEntry = NoteEntry(studentId: string, studentDetails: StudentDoc, note: Note)

  /** The path of a note below a class: (studentId, noteId). */
  type NotePath = (string, string)

  predicate IsNotePath(roster: Roster, p: NotePath)
  {
    p.0 in roster && p.1 in roster[p.0].notes
  }

  /** The entry a handler builds for the note at `p`. */
  function EntryAt(roster: Roster, p: NotePath): NoteEntry
    requires IsNotePath(roster, p)
  {
    NoteEntry(p.0, roster[p.0].doc, roster[p.0].notes[p.1])
  }

  /** Whether a note is collected: every note, or only those not yet
      delivered (`updatedToTeacher != true`). */
  predicate Wanted(n: Note, undeliveredOnly: bool)
  {
    !undeliveredOnly || !n.updatedToTeacher
  }

  /** `paths[i]` is a wanted note of the class and `entries[i]` the entry
      read from it. */
  ghost predicate ReadFrom(roster: Roster, undeliveredOnly: bool, entries: seq<NoteEntry>, paths: seq<NotePath>)
  {
    && |entries| == |paths|
    && (forall i :: 0 <= i < |paths| ==>
         IsNotePath(roster, paths[i]) && Wanted(roster[paths[i].0].notes[paths[i].1], undeliveredOnly) &&
         entries[i] == EntryAt(roster, paths[i]))
  }

  /** No path occurs twice. */
  predicate DistinctPaths(paths: seq<NotePath>)
  {
    forall i, j :: 0 <= i < j < |paths| ==> paths[i] != paths[j]
  }

  /** `entries` holds one entry per wanted note of the class and nothing
      else: each entry is read from its path, no path occurs twice, and
      every wanted note has its path listed. */
  ghost predicate Collects(roster: Roster, undeliveredOnly: bool, entries: seq<NoteEntry>, paths: seq<NotePath>)
  {
    && ReadFrom(roster, undeliveredOnly, entries, paths)
    && DistinctPaths(paths)
    && (forall sid, nid | sid in roster && nid in roster[sid].notes && Wanted(roster[sid].notes[nid], undeliveredOnly) ::
         (sid, nid) in paths)
  }

  /** Reads concatenate. */
  lemma ReadFromAppend(roster: Roster, undeliveredOnly: bool,
                       e1: seq<NoteEntry>, p1: seq<NotePath>, e2: seq<NoteEntry>, p2: seq<NotePath>)
    requires ReadFrom(roster, undeliveredOnly, e1, p1) && ReadFrom(roster, undeliveredOnly, e2, p2)
    ensures ReadFrom(roster, undeliveredOnly, e1 + e2, p1 + p2)
  {
    forall i | 0 <= i < |p1 + p2|
      ensures IsNotePath(roster, (p1 + p2)[i]) &&
        Wanted(roster[(p1 + p2)[i].0].notes[(p1 + p2)[i].1], undeliveredOnly) &&
        (e1 + e2)[i] == EntryAt(roster, (p1 + p2)[i])
    {
      if i < |p1| {
        assert (p1 + p2)[i] == p1[i] && (e1 + e2)[i] == e1[i];
      } else {
        assert (p1 + p2)[i] == p2[i - |p1|] && (e1 + e2)[i] == e2[i - |p1|];
      }
    }
  }

  /** Two lists of distinct paths with no path in common concatenate to a
      list of distinct paths. */
  lemma DistinctAppend(p1: seq<NotePath>, p2: seq<NotePath>)
    requires DistinctPaths(p1) && DistinctPaths(p2)
    requires forall p | p in p1 :: p !in p2
    ensures DistinctPaths(p1 + p2)
  {
    forall i, j | 0 <= i < j < |p1 + p2| ensures (p1 + p2)[i] != (p1 + p2)[j] {
      if j < |p1| {
        assert (p1 + p2)[i] == p1[i] && (p1 + p2)[j] == p1[j];
      } else if i < |p1| {
        assert (p1 + p2)[i] == p1[i] && (p1 + p2)[j] == p2[j - |p1|];
        assert p1[i] in p1;
      } else {
        assert (p1 + p2)[i] == p2[i - |p1|] && (p1 + p2)[j] == p2[j - |p1|];
      }
    }
  }

  /** Every note of every student of the class marked `updatedToTeacher: true`. */
  function MarkDelivered(roster: Roster): (r: Roster)
    ensures r.Keys == roster.Keys
    ensures forall sid | sid in r ::
      r[sid].doc == roster[sid].doc && r[sid].notes.Keys == roster[sid].notes.Keys
    ensures forall sid, nid | sid in r && nid in r[sid].notes ::
      r[sid].notes[nid] == roster[sid].notes[nid].(updatedToTeacher := true)
  {
    map sid | sid in roster ::
      StudentNode(roster[sid].doc,
        map nid | nid in roster[sid].notes :: roster[sid].notes[nid].(updatedToTeacher := true))
  }

  /** Marking delivers exactly the undelivered notes: those were the only
      notes that change, and afterwards none is undelivered. */
  lemma MarkDeliveredChangesOnlyPending(roster: Roster, sid: string, nid: string)
    requires sid in roster && nid in roster[sid].notes
    ensures var before, after := roster[sid].notes[nid], MarkDelivered(roster)[sid].notes[nid];
      after.updatedToTeacher &&
      after.note == before.note && after.timestamp == before.timestamp &&
      (after != before <==> Wanted(before, true))
  {
  }

  /** Once a class was marked, collecting its undelivered notes yields nothing. */
  lemma NothingPendingAfterMark(roster: Roster, entries: seq<NoteEntry>, paths: seq<NotePath>)
    requires Collects(MarkDelivered(roster), true, entries, paths)
    ensures entries == []
  {
    if paths != [] {
      var p := paths[0];
      MarkDeliveredChangesOnlyPending(roster, p.0, p.1);
      assert false;
    }
  }

  /** The notes of one student that are wanted, one entry per note. */
  method GatherStudent(roster: Roster, sid: string, undeliveredOnly: bool)
    returns (entries: seq<NoteEntry>, ghost paths: seq<NotePath>)
    requires sid in roster
    ensures ReadFrom(roster, undeliveredOnly, entries, paths)
    ensures forall p | p in paths :: p.0 == sid
    ensures DistinctPaths(paths)
    ensures forall nid | nid in roster[sid].notes && Wanted(roster[sid].notes[nid], undeliveredOnly) ::
      (sid, nid) in paths
  {
    var notes, doc := roster[sid].notes, roster[sid].doc;
    var left := notes.Keys;
    entries, paths := [], [];
    while left != {}
      invariant left <= notes.Keys
      invariant |entries| == |paths|
      invariant forall i :: 0 <= i < |paths| ==>
        paths[i].0 == sid && paths[i].1 in notes && paths[i].1 !in left &&
        Wanted(notes[paths[i].1], undeliveredOnly) && entries[i] == NoteEntry(sid, doc, notes[paths[i].1])
      invariant DistinctPaths(paths)
      invariant forall nid | nid in notes && nid !in left && Wanted(notes[nid], undeliveredOnly) :: (sid, nid) in paths
      decreases left
    {
      var nid :| nid in left;
      if Wanted(notes[nid], undeliveredOnly) {
        entries := entries + [NoteEntry(sid, doc, notes[nid])];
        paths := paths + [(sid, nid)];
      }
      left := left - {nid};
    }
  }

  /** The wanted notes of every student of a class, one entry per note,
      each tied to the path it was read from. */
  method Gather(roster: Roster, undeliveredOnly: bool)
    returns (entries: seq<NoteEntry>, ghost paths: seq<NotePath>)
    ensures Collects(roster, undeliveredOnly, entries, paths)
  {
    var left := roster.Keys;
    entries, paths := [], [];
    while left != {}
      invariant left <= roster.Keys
      invariant ReadFrom(roster, undeliveredOnly, entries, paths)
      invariant forall p | p in paths :: p.0 !in left
      invariant DistinctPaths(paths)
      invariant forall sid, nid | sid in roster && sid !in left && nid in roster[sid].notes &&
        Wanted(roster[sid].notes[nid], undeliveredOnly) :: (sid, nid) in paths
      decreases left
    {
      var sid :| sid in left;
      var more, morePaths := GatherStudent(roster, sid, undeliveredOnly);
      ReadFromAppend(roster, undeliveredOnly, entries, paths, more, morePaths);
      DistinctAppend(paths, morePaths);
      entries := entries + more;
      paths := paths + morePaths;
      left := left - {sid};
    }
  }

  // ---------------------------------------------------------------------
  // Newest first
  // ---------------------------------------------------------------------

  predicate NewestFirst(s: seq<NoteEntry>)
  {
    forall i, j :: 0 <= i < j < |s| ==> s[i].note.timestamp >= s[j].note.timestamp
  }

  /** Insert `e` before the first entry that is not newer than it. */
  function InsertNewestFirst(e: NoteEntry, s: seq<NoteEntry>): (r: seq<NoteEntry>)
    requires NewestFirst(s)
    ensures NewestFirst(r)
    ensures multiset(r) == multiset(s) + multiset{e}
    ensures |r| == |s| + 1 && (r[0] == e || (s != [] && r[0] == s[0]))
  {
    if s == [] || s[0].note.timestamp <= e.note.timestamp then
      ConsNewestFirst(e, s);
      [e] + s
    else
      var tail := InsertNewestFirst(e, s[1..]);
      assert s == [s[0]] + s[1..];
      ConsNewestFirst(s[0], tail);
      [s[0]] + tail
  }

  /** An entry no older than the head of a newest-first list can go in
      front of it. */
  lemma ConsNewestFirst(x: NoteEntry, t: seq<NoteEntry>)
    requires NewestFirst(t) && (t == [] || t[0].note.timestamp <= x.note.timestamp)
    ensures NewestFirst([x] + t)
  {
    var r := [x] + t;
    forall i, j | 0 <= i < j < |r| ensures r[i].note.timestamp >= r[j].note.timestamp {
      assert r[j] == t[j - 1];
      if i == 0 {
        assert t[0].note.timestamp >= t[j - 1].note.timestamp;
      } else {
        assert r[i] == t[i - 1];
      }
    }
  }

  /** `entries.sort((a, b) => b.note.timestamp - a.note.timestamp)`: the same
      entries, newest first. */
  function SortNewestFirst(s: seq<NoteEntry>): (r: seq<NoteEntry>)
    ensures NewestFirst(r)
    ensures multiset(r) == multiset(s)
  {
    if s == [] then []
    else
      assert s == [s[0]] + s[1..];
      InsertNewestFirst(s[0], SortNewestFirst(s[1..]))
  }
}
