// Optional values, and what every module needs to know about finite sets and sequences.
module Collections {

  datatype Option<+T> = None | Some(value: T)

  ghost predicate NoDuplicates<T>(s: seq<T>) {
    forall i, j :: 0 <= i < j < |s| ==> s[i] != s[j]
  }

  ghost function AnyOf<T>(s: set<T>): (x: T)
    requires s != {}
    ensures x in s
  {
    var x :| x in s;
    x
  }

  lemma {:induction false} SubsetSize<T>(a: set<T>, b: set<T>)
    requires a <= b
    ensures |a| <= |b|
    ensures |a| == |b| ==> a == b
  {
    if a != {} {
      var x :| x in a;
      SubsetSize(a - {x}, b - {x});
      assert a == (a - {x}) + {x} && b == (b - {x}) + {x};
    }
  }

  lemma {:induction false} FewerElements<T>(some: seq<T>, all: seq<T>)
    requires NoDuplicates(some) && forall x :: x in some ==> x in all
    ensures |some| <= |all|
  {
    if some != [] {
      var k := |some| - 1;
      assert some[k] in some;
      var i :| 0 <= i < |all| && all[i] == some[k];
      var rest := all[..i] + all[i + 1..];
      forall x | x in some[..k]
        ensures x in rest
      {
        assert x in some;
        var j :| 0 <= j < |all| && all[j] == x;
        assert rest[if j < i then j else j - 1] == x;
      }
      FewerElements(some[..k], rest);
    }
  }
}
