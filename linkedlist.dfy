/**
 * The student roster: a singly linked list of nodes with `head`, `tail` and
 * `length` fields, keeping students in insertion order.
 *
 * The ghost sequence `Nodes` lists the reachable nodes from `head` on, and
 * `Contents` the students they hold; `Valid()` ties the pointers to them.
 */
module LinkedLists {
  import opened Wrappers
  import opened Students
  import opened NameOrder
  import opened RosterSpec

  /** No node occurs twice. */
  ghost predicate Distinct(ns: seq<Node>) {
    forall i, j :: 0 <= i < j < |ns| ==> ns[i] != ns[j]
  }

  /** Dropping one node keeps the others distinct. */
  lemma DistinctWithout(ns: seq<Node>, k: nat)
    requires Distinct(ns) && k < |ns|
    ensures Distinct(ns[..k] + ns[k + 1..])
  {
    var r := ns[..k] + ns[k + 1..];
    forall a, b | 0 <= a < b < |r|
      ensures r[a] != r[b]
    {
      var a' := if a < k then a else a + 1;
      var b' := if b < k then b else b + 1;
      assert r[a] == ns[a'] && r[b] == ns[b'];
    }
  }

  /** One element of the list: a student and the link to the next node. */
  class Node {
    var data: Student
    var next: Node?

    constructor (data: Student)
      ensures this.data == data && next == null
    {
      this.data := data;
      next := null;
    }
  }

  class LinkedList {
    var head: Node?
    var tail: Node?
    var length: int

    ghost var Contents: seq<Student>
    ghost var Nodes: seq<Node>
    ghost var Repr: set<object>

    /**
     * The object invariant: following `next` from `head` visits `Nodes` in
     * order and ends in null, `length` counts them, and `tail` is the last
     * one while the list is non-empty. Once the list has been emptied by a
     * removal at the head, `tail` may still point at the dropped node.
     */
    ghost predicate Valid()
      reads this, Repr
    {
      this in Repr &&
      (forall i :: 0 <= i < |Nodes| ==> Nodes[i] in Repr) &&
      Distinct(Nodes) &&
      |Contents| == |Nodes| && length == |Nodes| &&
      (forall i :: 0 <= i < |Nodes| ==> Nodes[i].data == Contents[i]) &&
      (forall i :: 0 <= i < |Nodes| - 1 ==> Nodes[i].next == Nodes[i + 1]) &&
      (Nodes != [] ==> Nodes[|Nodes| - 1].next == null) &&
      head == (if Nodes == [] then null else Nodes[0]) &&
      (Nodes != [] ==> tail == Nodes[|Nodes| - 1])
    }

    /** A new roster is empty. */
    constructor ()
      ensures Valid() && fresh(Repr)
      ensures Contents == [] && length == 0
    {
      head, tail, length := null, null, 0;
      Contents, Nodes := [], [];
      Repr := {this};
    }

    /** Appends a student at the end; no check is made for an email already present. */
    method AddStudent(newStudent: Student)
      requires Valid()
      modifies Repr
      ensures Valid() && fresh(Repr - old(Repr))
      ensures Contents == old(Contents) + [newStudent]
      ensures length == old(length) + 1
    {
      var newNode := new Node(newStudent);
      if head == null {
        head := newNode;
        tail := newNode;
      } else {
        tail.next := newNode;
        tail := newNode;
      }
      length := length + 1;
      Contents := Contents + [newStudent];
      Nodes := Nodes + [newNode];
      Repr := Repr + {newNode};
    }

    /**
     * Unlinks the first node whose student has this email; does nothing on
     * an empty list or when no email matches.
     */
    method RemoveStudent(email: string)
      requires Valid()
      modifies Repr
      ensures Valid() && Repr == old(Repr)
      ensures Contents == RemoveFirst(old(Contents), email)
      ensures length == if HasEmail(old(Contents), email) then old(length) - 1 else old(length)
    {
      RemoveLength(Contents, email);
      if head == null {
        return;
      }
      if head.data.email == email {
        assert IndexOfEmail(Contents, email) == 0;
        UnlinkHead();
        return;
      }
      var current := head;
      ghost var i := 0;
      while current.next != null && current.next.data.email != email
        invariant 0 <= i < |Nodes| && current == Nodes[i]
        invariant forall j :: 0 <= j <= i ==> Contents[j].email != email
        decreases |Nodes| - i
      {
        current := current.next;
        i := i + 1;
      }
      if current.next != null {
        assert current.next == Nodes[i + 1] && Nodes[i + 1].data == Contents[i + 1];
        assert IndexOfEmail(Contents, email) == i + 1;
        UnlinkNext(current, i);
      } else {
        assert i == |Nodes| - 1;
        assert IndexOfEmail(Contents, email) == |Contents|;
      }
    }

    /**
     * Removal at the head: `head` moves to the second node. `tail` is left as
     * it was, so it goes stale when the only node is dropped.
     */
    method UnlinkHead()
      requires Valid() && Nodes != []
      modifies this
      ensures Valid() && Repr == old(Repr) && tail == old(tail)
      ensures Contents == old(Contents[1..]) && length == old(length) - 1
    {
      head := head.next;
      length := length - 1;
      Contents, Nodes := Contents[1..], Nodes[1..];
    }

    /**
     * The unlinking step of removal: drops the node after `current`, moving
     * `tail` back to `current` when the dropped node was the last one.
     */
    method UnlinkNext(current: Node, ghost i: nat)
      requires Valid() && i + 1 < |Nodes| && current == Nodes[i]
      modifies this, current
      ensures Valid() && Repr == old(Repr)
      ensures Contents == old(Contents[..i + 1] + Contents[i + 2..])
      ensures length == old(length) - 1
    {
      ghost var n := Nodes;
      assert current.next == n[i + 1];
      assert current.next == tail <==> i + 2 == |n|;
      if current.next == tail {
        tail := current;
      }
      current.next := current.next.next;
      length := length - 1;
      Contents := Contents[..i + 1] + Contents[i + 2..];
      Nodes := n[..i + 1] + n[i + 2..];
      DistinctWithout(n, i + 1);
      forall k | 0 <= k < |Nodes| - 1
        ensures Nodes[k].next == Nodes[k + 1]
      {
        if k < i {
          assert Nodes[k] == n[k] && Nodes[k + 1] == n[k + 1];
        } else if k > i {
          assert Nodes[k] == n[k + 1] && Nodes[k + 1] == n[k + 2];
        }
      }
    }

    /** The first student with this email, or None where the list returns -1. */
    method FindStudent(email: string) returns (found: Option<Student>)
      requires Valid()
      ensures found == Find(Contents, email)
      ensures found.None? <==> !HasEmail(Contents, email)
      ensures found.Some? ==> found.value in Contents && found.value.email == email
    {
      FindNone(Contents, email);
      var current := head;
      ghost var i := 0;
      while current != null
        invariant 0 <= i <= |Nodes|
        invariant current == if i < |Nodes| then Nodes[i] else null
        invariant forall j :: 0 <= j < i ==> Contents[j].email != email
        decreases |Nodes| - i
      {
        if current.data.email == email {
          return Some(current.data);
        }
        current := current.next;
        i := i + 1;
      }
      return None;
    }

    /** The names of all students in list order, separated by ", ". */
    method DisplayStudents() returns (shown: string)
      requires Valid()
      ensures shown == Join(Names(Contents), ", ")
      ensures Contents == [] ==> shown == ""
    {
      var result: seq<string> := [];
      var current := head;
      ghost var i := 0;
      while current != null
        invariant 0 <= i <= |Nodes|
        invariant current == if i < |Nodes| then Nodes[i] else null
        invariant |result| == i
        invariant forall k :: 0 <= k < i ==> result[k] == Contents[k].name
        decreases |Nodes| - i
      {
        result := result + [current.data.name];
        current := current.next;
        i := i + 1;
      }
      assert result == Names(Contents);
      shown := Join(result, ", ");
    }

    /** Empties the roster. */
    method ClearStudents()
      requires Valid()
      modifies this
      ensures Valid() && Repr == {this}
      ensures Contents == [] && length == 0
    {
      head, tail, length := null, null, 0;
      Contents, Nodes := [], [];
      Repr := {this};
    }

    /** The students whose specialization is exactly `specialization`, sorted by name. */
    method FilterBySpecialization(specialization: string) returns (result: seq<Student>)
      requires Valid()
      ensures SortedByName(result)
      ensures forall x :: multiset(result)[x] ==
                          if x.specialization == specialization then multiset(Contents)[x] else 0
    {
      var keep := (st: Student) => st.specialization == specialization;
      var matches := Collect(keep);
      result := SortByName(matches);
      SelectCount(Contents, keep);
    }

    /** The students whose year is at least `minAge`, sorted by name. */
    method FilterByMinAge(minAge: int) returns (result: seq<Student>)
      requires Valid()
      ensures SortedByName(result)
      ensures forall x :: multiset(result)[x] == if x.year >= minAge then multiset(Contents)[x] else 0
    {
      var keep := (st: Student) => st.year >= minAge;
      var matches := Collect(keep);
      result := SortByName(matches);
      SelectCount(Contents, keep);
    }

    /** The traversal both filters share: the accepted students, in list order. */
    method Collect(keep: Student -> bool) returns (matches: seq<Student>)
      requires Valid()
      ensures matches == Select(Contents, keep)
    {
      matches := [];
      var current := head;
      ghost var i := 0;
      while current != null
        invariant 0 <= i <= |Nodes|
        invariant current == if i < |Nodes| then Nodes[i] else null
        invariant Valid()
        invariant matches == Select(Contents[..i], keep)
        decreases |Nodes| - i
      {
        ghost var before := Contents[..i];
        var st := current.data;
        current := current.next;
        i := i + 1;
        assert Contents[..i] == before + [st];
        SelectSnoc(before, st, keep);
        if keep(st) {
          matches := matches + [st];
        }
      }
      assert Contents[..i] == Contents;
    }

    /** The record array saving writes out: one four-field record per student, in list order. */
    method SaveRecords() returns (records: seq<Record>)
      requires Valid()
      ensures records == Snapshot(Contents)
    {
      records := [];
      var current := head;
      ghost var i := 0;
      while current != null
        invariant 0 <= i <= |Nodes|
        invariant current == if i < |Nodes| then Nodes[i] else null
        invariant |records| == i
        invariant forall k :: 0 <= k < i ==> records[k] == ToRecord(Contents[k])
        decreases |Nodes| - i
      {
        records := records + [ToRecord(current.data)];
        current := current.next;
        i := i + 1;
      }
      assert records == Snapshot(Contents);
    }

    /** Loading: clears the roster, then adds one student per record in array order. */
    method LoadRecords(records: seq<Record>)
      requires Valid()
      modifies Repr
      ensures Valid() && fresh(Repr - old(Repr))
      ensures Contents == Rebuilt(records) && length == |records|
    {
      ClearStudents();
      for k := 0 to |records|
        invariant Valid() && fresh(Repr - old(Repr))
        invariant Contents == Rebuilt(records[..k])
      {
        assert records[..k + 1] == records[..k] + [records[k]];
        AddStudent(FromRecord(records[k]));
      }
      assert records[..|records|] == records;
    }

    /** Saving, clearing and loading the saved records gives back the same roster. */
    method SaveClearLoad()
      requires Valid()
      modifies Repr
      ensures Valid() && fresh(Repr - old(Repr))
      ensures Contents == old(Contents) && length == old(length)
    {
      var records := SaveRecords();
      ClearStudents();
      LoadRecords(records);
      RebuiltSnapshot(old(Contents));
    }
  }

  /** The two-student walk-through: add two students, display, remove the first and look it up. */
  method AliceAndBob()
  {
    var alice := Student("Alice", 2, "a@x.com", "CS");
    var bob := Student("Bob", 3, "b@x.com", "EE");
    var roster := new LinkedList();
    roster.AddStudent(alice);
    roster.AddStudent(bob);
    var shown := roster.DisplayStudents();
    assert Names([alice, bob]) == ["Alice", "Bob"];
    assert shown == "Alice, Bob";
    assert IndexOfEmail([alice, bob], "a@x.com") == 0;
    roster.RemoveStudent("a@x.com");
    assert roster.Contents == [bob];
    assert bob.email != "a@x.com" by {
      assert bob.email[0] != "a@x.com"[0];
    }
    var found := roster.FindStudent("a@x.com");
    assert found == None;
    BobRemains(roster, bob);
  }

  /** The rest of the walk-through: the roster now shows "Bob", and only Bob is in year 3 or later. */
  method BobRemains(roster: LinkedList, bob: Student)
    requires roster.Valid() && roster.Contents == [bob] && bob.name == "Bob" && bob.year == 3
  {
    var shown := roster.DisplayStudents();
    assert Names([bob]) == ["Bob"];
    assert shown == "Bob";
    var senior := roster.FilterByMinAge(3);
    assert multiset(senior) == multiset{bob};
  }
}
