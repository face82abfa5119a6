/** Sequences and sets, as far as the other modules need them. */
module Collections {
  function InsertAt<T>(s: seq<T>, i: int, x: T): seq<T>
    requires 0 <= i <= |s|
  {
    s[..i] + [x] + s[i..]
  }

  lemma InsertAtAt<T>(s: seq<T>, i: int, x: T, j: int)
    requires 0 <= i <= |s| && 0 <= j <= |s|
    ensures InsertAt(s, i, x)[j] == if j < i then s[j] else if j == i then x else s[j - 1]
  {
  }

  function RemoveAt<T>(s: seq<T>, i: int): seq<T>
    requires 0 <= i < |s|
  {
    s[..i] + s[i + 1..]
  }

  lemma RemoveAtAt<T>(s: seq<T>, i: int, j: int)
    requires 0 <= i < |s| && 0 <= j < |s| - 1
    ensures RemoveAt(s, i)[j] == s[if j < i then j else j + 1]
  {
  }

  ghost predicate Distinct(s: seq<int>) {
    forall i, j :: 0 <= i < j < |s| ==> s[i] != s[j]
  }

  lemma {:induction false} Pigeonhole(s: seq<int>, u: set<int>)
    requires Distinct(s) && forall i :: 0 <= i < |s| ==> s[i] in u
    ensures |s| <= |u|
  {
    if s != [] {
      var last := |s| - 1;
      Pigeonhole(s[..last], u - {s[last]});
    }
  }

  lemma NotEmpty(s: set<int>)
    ensures s == {} || exists x :: x in s
  {
    assert (forall x :: x !in s) ==> s == {};
  }
}
