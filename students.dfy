/**
 * Student values, and the plain four-field records that saving writes and
 * loading reads back, with the conversions between the two.
 */
module Students {

  /** A student of the roster; the getters of the student class read these fields. */
  datatype Student = Student(name: string, year: int, email: string, specialization: string)

  /** The plain object built for each student when the roster is saved, and read when it is loaded. */
  datatype Record = Record(name: string, year: int, email: string, specialization: string)

  /** The record saving builds from one student. */
  function ToRecord(s: Student): Record {
    Record(s.name, s.year, s.email, s.specialization)
  }

  /** The student loading constructs from one record. */
  function FromRecord(r: Record): Student {
    Student(r.name, r.year, r.email, r.specialization)
  }

  /** The record array saving builds: one record per student, in list order. */
  function Snapshot(s: seq<Student>): (rs: seq<Record>)
    ensures |rs| == |s|
    ensures forall i :: 0 <= i < |s| ==> rs[i] == ToRecord(s[i])
  {
    if s == [] then [] else [ToRecord(s[0])] + Snapshot(s[1..])
  }

  /** The students loading adds, one per record, in array order. */
  function Rebuilt(rs: seq<Record>): (s: seq<Student>)
    ensures |s| == |rs|
    ensures forall i :: 0 <= i < |rs| ==> s[i] == FromRecord(rs[i])
  {
    if rs == [] then [] else [FromRecord(rs[0])] + Rebuilt(rs[1..])
  }

  /** Loading what was saved gives back the same students in the same order. */
  lemma {:induction false} RebuiltSnapshot(s: seq<Student>)
    ensures Rebuilt(Snapshot(s)) == s
  {
    if s != [] {
      RebuiltSnapshot(s[1..]);
      assert Snapshot(s) == [ToRecord(s[0])] + Snapshot(s[1..]);
    }
  }

  /** Saving what was loaded gives back the same records in the same order. */
  lemma {:induction false} SnapshotRebuilt(rs: seq<Record>)
    ensures Snapshot(Rebuilt(rs)) == rs
  {
    if rs != [] {
      SnapshotRebuilt(rs[1..]);
      assert Rebuilt(rs) == [FromRecord(rs[0])] + Rebuilt(rs[1..]);
    }
  }
}
