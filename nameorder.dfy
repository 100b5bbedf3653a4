/**
 * The order the two filters sort by: names compared character by character.
 * It stands in for locale-aware collation, which is not part of this model.
 */
module NameOrder {
  import opened Students

  /** Lexicographic "at most" on names, comparing characters by code value. */
  predicate NameLe(a: string, b: string) {
    |a| == 0 || (|b| != 0 && (a[0] < b[0] || (a[0] == b[0] && NameLe(a[1..], b[1..]))))
  }

  lemma {:induction false} NameLeReflexive(a: string)
    ensures NameLe(a, a)
  {
    if |a| != 0 {
      NameLeReflexive(a[1..]);
    }
  }

  lemma {:induction false} NameLeTotal(a: string, b: string)
    ensures NameLe(a, b) || NameLe(b, a)
  {
    if |a| != 0 && |b| != 0 && a[0] == b[0] {
      NameLeTotal(a[1..], b[1..]);
    }
  }

  lemma {:induction false} NameLeAntisymmetric(a: string, b: string)
    requires NameLe(a, b) && NameLe(b, a)
    ensures a == b
  {
    if |a| != 0 && |b| != 0 {
      NameLeAntisymmetric(a[1..], b[1..]);
      assert a == [a[0]] + a[1..] && b == [b[0]] + b[1..];
    }
  }

  lemma {:induction false} NameLeTransitive(a: string, b: string, c: string)
    requires NameLe(a, b) && NameLe(b, c)
    ensures NameLe(a, c)
  {
    if |a| != 0 && a[0] == b[0] && b[0] == c[0] {
      NameLeTransitive(a[1..], b[1..], c[1..]);
    }
  }

  /** Ascending by name. Students with equal names may stand in any order. */
  predicate SortedByName(s: seq<Student>) {
    forall i, j :: 0 <= i < j < |s| ==> NameLe(s[i].name, s[j].name)
  }

  /** A name no later than the first of a sorted sequence is no later than any of them. */
  lemma LowerBound(x: Student, s: seq<Student>)
    requires SortedByName(s) && s != [] && NameLe(x.name, s[0].name)
    ensures forall j :: 0 <= j < |s| ==> NameLe(x.name, s[j].name)
  {
    forall j | 0 <= j < |s|
      ensures NameLe(x.name, s[j].name)
    {
      if j > 0 {
        NameLeTransitive(x.name, s[0].name, s[j].name);
      }
    }
  }

  /** Inserts `x` into a sorted sequence, before the first name it does not follow. */
  function InsertByName(x: Student, s: seq<Student>): (r: seq<Student>)
    requires SortedByName(s)
    ensures SortedByName(r)
    ensures multiset(r) == multiset(s) + multiset{x}
  {
    if s == [] then [x]
    else if NameLe(x.name, s[0].name) then
      LowerBound(x, s);
      [x] + s
    else
      NameLeTotal(x.name, s[0].name);
      var rest := InsertByName(x, s[1..]);
      InsertAfterHead(x, s, rest);
      assert s == [s[0]] + s[1..];
      [s[0]] + rest
  }

  lemma InsertAfterHead(x: Student, s: seq<Student>, rest: seq<Student>)
    requires SortedByName(s) && s != [] && NameLe(s[0].name, x.name)
    requires SortedByName(rest) && multiset(rest) == multiset(s[1..]) + multiset{x}
    ensures SortedByName([s[0]] + rest)
  {
    forall k | 0 <= k < |rest|
      ensures NameLe(s[0].name, rest[k].name)
    {
      assert rest[k] in multiset(rest);
      if rest[k] != x {
        assert rest[k] in s[1..];
        var j :| 0 <= j < |s[1..]| && s[1..][j] == rest[k];
        assert s[j + 1] == rest[k];
      }
    }
    var t := [s[0]] + rest;
    forall i, j | 0 <= i < j < |t|
      ensures NameLe(t[i].name, t[j].name)
    {
      if i == 0 {
        assert t[j] == rest[j - 1];
      } else {
        assert t[i] == rest[i - 1] && t[j] == rest[j - 1];
      }
    }
  }

  /** Sorts ascending by name; the result is a permutation of the input. */
  function SortByName(s: seq<Student>): (r: seq<Student>)
    ensures SortedByName(r)
    ensures multiset(r) == multiset(s)
  {
    if s == [] then []
    else
      assert s == [s[0]] + s[1..];
      InsertByName(s[0], SortByName(s[1..]))
  }
}
