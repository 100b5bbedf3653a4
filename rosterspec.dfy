/**
 * What each roster operation means on the sequence of students the list
 * holds, in list order. The linked list's methods are proved against these.
 */
module RosterSpec {
  import opened Wrappers
  import opened Students

  /** Some student in `s` has exactly this email (case-sensitive). */
  predicate HasEmail(s: seq<Student>, email: string) {
    exists i :: 0 <= i < |s| && s[i].email == email
  }

  /** No two students of `s` share an email. */
  predicate UniqueEmails(s: seq<Student>) {
    forall i, j :: 0 <= i < j < |s| ==> s[i].email != s[j].email
  }

  /** The position of the first student whose email is `email`, or |s| when there is none. */
  function IndexOfEmail(s: seq<Student>, email: string): (i: nat)
    ensures i <= |s|
    ensures i < |s| ==> s[i].email == email
    ensures forall j :: 0 <= j < i ==> s[j].email != email
  {
    if s == [] then 0
    else if s[0].email == email then 0
    else 1 + IndexOfEmail(s[1..], email)
  }

  /** Lookup: the first student with this email, or None where the list answers -1. */
  function Find(s: seq<Student>, email: string): Option<Student> {
    var i := IndexOfEmail(s, email);
    if i < |s| then Some(s[i]) else None
  }

  /** Removal: drops the first student with this email, if any. */
  function RemoveFirst(s: seq<Student>, email: string): seq<Student> {
    var i := IndexOfEmail(s, email);
    if i < |s| then s[..i] + s[i + 1..] else s
  }

  // ---------------------------------------------------------------- find

  /** Find answers not-found exactly when no student has the email. */
  lemma FindNone(s: seq<Student>, email: string)
    ensures Find(s, email) == None <==> !HasEmail(s, email)
  {
    if HasEmail(s, email) {
      var k :| 0 <= k < |s| && s[k].email == email;
      assert IndexOfEmail(s, email) <= k;
    }
  }

  /** A found student has the email, and every student before it has another one. */
  lemma FindFirst(s: seq<Student>, email: string)
    requires Find(s, email).Some?
    ensures exists i :: 0 <= i < |s| && s[i] == Find(s, email).value && s[i].email == email &&
                        forall j :: 0 <= j < i ==> s[j].email != email
  {
    var i := IndexOfEmail(s, email);
    assert s[i] == Find(s, email).value;
  }

  /** Adding a student and then looking up its email finds the earlier student with it, if any. */
  lemma FindAfterAdd(s: seq<Student>, x: Student)
    ensures Find(s + [x], x.email) == if HasEmail(s, x.email) then Find(s, x.email) else Some(x)
  {
    var i := IndexOfEmail(s, x.email);
    var k := IndexOfEmail(s + [x], x.email);
    if i < |s| {
      assert (s + [x])[i] == s[i];
      assert k == i;
    } else {
      FindNone(s, x.email);
      assert (s + [x])[|s|] == x;
      assert k == |s|;
    }
  }

  // -------------------------------------------------------------- remove

  /** Removal shortens the list by one exactly when some student has the email. */
  lemma RemoveLength(s: seq<Student>, email: string)
    ensures |RemoveFirst(s, email)| == if HasEmail(s, email) then |s| - 1 else |s|
  {
    FindNone(s, email);
  }

  /** Removal with no matching email, or on the empty list, leaves the list as it was. */
  lemma RemoveNoMatch(s: seq<Student>, email: string)
    ensures RemoveFirst(s, email) == s <==> !HasEmail(s, email)
  {
    RemoveLength(s, email);
  }

  /**
   * Removal keeps every other student and their relative order: what is left
   * is the students before the first match followed by those after it.
   */
  lemma RemoveKeepsOthers(s: seq<Student>, email: string)
    requires HasEmail(s, email)
    ensures IndexOfEmail(s, email) < |s|
    ensures RemoveFirst(s, email) == s[..IndexOfEmail(s, email)] + s[IndexOfEmail(s, email) + 1..]
    ensures multiset(RemoveFirst(s, email)) + multiset{s[IndexOfEmail(s, email)]} == multiset(s)
  {
    FindNone(s, email);
    var i := IndexOfEmail(s, email);
    var r := s[..i] + s[i + 1..];
    assert RemoveFirst(s, email) == r;
    assert s == s[..i] + [s[i]] + s[i + 1..];
    calc {
      multiset(s);
      multiset(s[..i]) + multiset{s[i]} + multiset(s[i + 1..]);
      multiset(r) + multiset{s[i]};
    }
  }

  /**
   * With duplicate emails only the first goes: a later duplicate survives, so
   * some student with the email is still found, and when it is the second
   * one in the list it is the one found.
   */
  lemma LaterDuplicateSurvives(s: seq<Student>, email: string, j: nat)
    requires IndexOfEmail(s, email) < j < |s| && s[j].email == email
    ensures RemoveFirst(s, email)[j - 1] == s[j]
    ensures Find(RemoveFirst(s, email), email).Some?
    ensures (forall k :: IndexOfEmail(s, email) < k < j ==> s[k].email != email) ==>
            Find(RemoveFirst(s, email), email) == Some(s[j])
  {
    var r := RemoveFirst(s, email);
    var i := IndexOfEmail(s, email);
    assert r[j - 1] == s[j];
    assert HasEmail(r, email);
    FindNone(r, email);
    if forall k :: i < k < j ==> s[k].email != email {
      forall k | 0 <= k < j - 1
        ensures r[k].email != email
      {
        var k' := if k < i then k else k + 1;
        assert r[k] == s[k'];
      }
      assert IndexOfEmail(r, email) == j - 1;
    }
  }

  /** When emails are unique, a student removed by email can no longer be found. */
  lemma FindAfterRemove(s: seq<Student>, email: string)
    requires UniqueEmails(s)
    ensures Find(RemoveFirst(s, email), email) == None
  {
    var r := RemoveFirst(s, email);
    var i := IndexOfEmail(s, email);
    if i < |s| {
      forall k | 0 <= k < |r|
        ensures r[k].email != email
      {
        var k' := if k < i then k else k + 1;
        assert r[k] == s[k'];
      }
    }
    FindNone(r, email);
  }

  /** Removal keeps emails unique. */
  lemma RemovePreservesUnique(s: seq<Student>, email: string)
    requires UniqueEmails(s)
    ensures UniqueEmails(RemoveFirst(s, email))
  {
    var r := RemoveFirst(s, email);
    var i := IndexOfEmail(s, email);
    if i < |s| {
      forall a, b | 0 <= a < b < |r|
        ensures r[a].email != r[b].email
      {
        var a' := if a < i then a else a + 1;
        var b' := if b < i then b else b + 1;
        assert r[a] == s[a'] && r[b] == s[b'];
      }
    }
  }

  /** Adding a student whose email is new and then removing that email restores the list. */
  lemma AddThenRemove(s: seq<Student>, x: Student)
    requires !HasEmail(s, x.email)
    ensures RemoveFirst(s + [x], x.email) == s
  {
    var t := s + [x];
    FindNone(s, x.email);
    assert t[|s|] == x;
    assert IndexOfEmail(t, x.email) == |s|;
    assert t[..|s|] == s;
  }

  /** Adding a student whose email is new keeps emails unique. */
  lemma AddPreservesUnique(s: seq<Student>, x: Student)
    requires UniqueEmails(s) && !HasEmail(s, x.email)
    ensures UniqueEmails(s + [x])
  {
    var t := s + [x];
    forall a, b | 0 <= a < b < |t|
      ensures t[a].email != t[b].email
    {
      assert t[a] == s[a];
      if b < |s| {
        assert t[b] == s[b];
      }
    }
  }

  // ------------------------------------------------------------- display

  /** The names of the students, in list order. */
  function Names(s: seq<Student>): (ns: seq<string>)
    ensures |ns| == |s|
    ensures forall i :: 0 <= i < |s| ==> ns[i] == s[i].name
  {
    if s == [] then [] else [s[0].name] + Names(s[1..])
  }

  /** The parts separated by `sep`, as an array join does: "" for none, the part alone for one. */
  function Join(parts: seq<string>, sep: string): string {
    if |parts| == 0 then ""
    else if |parts| == 1 then parts[0]
    else parts[0] + sep + Join(parts[1..], sep)
  }

  /** Joining one more part adds the separator and that part at the end. */
  lemma {:induction false} JoinSnoc(parts: seq<string>, x: string, sep: string)
    requires parts != []
    ensures Join(parts + [x], sep) == Join(parts, sep) + sep + x
  {
    var t := parts + [x];
    if |parts| == 1 {
      assert t[1..] == [x];
    } else {
      assert t[1..] == parts[1..] + [x];
      JoinSnoc(parts[1..], x, sep);
    }
  }

  /** The length of a join: all the parts plus one separator between each neighbouring pair. */
  lemma {:induction false} JoinLength(parts: seq<string>, sep: string)
    requires parts != []
    ensures |Join(parts, sep)| == TotalLength(parts) + (|parts| - 1) * |sep|
  {
    if |parts| > 1 {
      JoinLength(parts[1..], sep);
    }
  }

  function TotalLength(parts: seq<string>): nat {
    if parts == [] then 0 else |parts[0]| + TotalLength(parts[1..])
  }

  /** Displaying after an add shows the old display, then ", " and the new name (or the name alone). */
  lemma DisplayAfterAdd(s: seq<Student>, x: Student)
    ensures Join(Names(s + [x]), ", ") ==
            if s == [] then x.name else Join(Names(s), ", ") + ", " + x.name
  {
    assert Names(s + [x]) == Names(s) + [x.name];
    if s != [] {
      JoinSnoc(Names(s), x.name, ", ");
    }
  }

  // -------------------------------------------------------------- filter

  /** The students of `s` that `keep` accepts, in list order. */
  function Select(s: seq<Student>, keep: Student -> bool): seq<Student> {
    if s == [] then []
    else (if keep(s[0]) then [s[0]] else []) + Select(s[1..], keep)
  }

  /** Selection keeps exactly the accepted students, each as often as the list holds it. */
  lemma {:induction false} SelectCount(s: seq<Student>, keep: Student -> bool)
    ensures forall x :: multiset(Select(s, keep))[x] == if keep(x) then multiset(s)[x] else 0
  {
    if s != [] {
      SelectCount(s[1..], keep);
      assert s == [s[0]] + s[1..];
    }
  }

  /** Selecting from a list with one more student at the end. */
  lemma {:induction false} SelectSnoc(s: seq<Student>, x: Student, keep: Student -> bool)
    ensures Select(s + [x], keep) == Select(s, keep) + (if keep(x) then [x] else [])
  {
    if s != [] {
      assert (s + [x])[1..] == s[1..] + [x];
      SelectSnoc(s[1..], x, keep);
    } else {
      assert [x][1..] == [];
    }
  }
}
