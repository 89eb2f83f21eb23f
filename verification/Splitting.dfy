/** Cutting a sequence at every occurrence of a separator. */
module Splitting {
  import Bytes

  predicate Lacks<T(==)>(s: seq<T>, sep: T) { forall k :: 0 <= k < |s| ==> s[k] != sep }

  /** The pieces between the separators; the last one is still open. */
  function Pieces<T(==)>(s: seq<T>, sep: T): (ps: seq<seq<T>>)
    ensures |ps| >= 1
  {
    if s == [] then [[]]
    else
      var ps := Pieces(s[1..], sep);
      if s[0] == sep then [[]] + ps else [[s[0]] + ps[0]] + ps[1..]
  }

  /** The pieces that a separator has closed. */
  function Closed<T(==)>(s: seq<T>, sep: T): seq<seq<T>> {
    var ps := Pieces(s, sep);
    ps[..|ps| - 1]
  }

  function NonEmpty<T(==)>(ps: seq<seq<T>>): seq<seq<T>> {
    if ps == [] then [] else (if ps[0] == [] then [] else [ps[0]]) + NonEmpty(ps[1..])
  }

  lemma SeparatorInside<T>(s: seq<T>, sep: T, lo: nat, hi: nat, k: nat)
    requires lo <= k < hi <= |s| && s[k] == sep
    ensures !Lacks(s[lo..hi], sep)
  {
    assert s[lo..hi][k - lo] == sep;
  }

  lemma {:induction false} PiecesOfOne<T>(a: seq<T>, sep: T)
    requires Lacks(a, sep)
    ensures Pieces(a, sep) == [a]
  {
    if a != [] {
      PiecesOfOne(a[1..], sep);
      assert a == [a[0]] + a[1..];
    }
  }

  lemma {:induction false} PiecesAtSeparator<T>(a: seq<T>, sep: T, b: seq<T>)
    requires Lacks(a, sep)
    ensures Pieces(a + [sep] + b, sep) == [a] + Pieces(b, sep)
  {
    var s := a + [sep] + b;
    if a == [] {
      assert s == [sep] + b;
      assert s[1..] == b;
    } else {
      assert s[0] == a[0] && s[1..] == a[1..] + [sep] + b;
      PiecesAtSeparator(a[1..], sep, b);
      assert a == [a[0]] + a[1..];
      assert ([a[1..]] + Pieces(b, sep))[1..] == Pieces(b, sep);
    }
  }

  lemma DropLastOfCons<T>(a: seq<T>, ps: seq<seq<T>>)
    requires |ps| >= 1
    ensures ([a] + ps)[..|ps|] == [a] + ps[..|ps| - 1]
  {
  }

  /** The first separator closes the first piece. */
  lemma ClosedAtSeparator<T>(a: seq<T>, sep: T, b: seq<T>)
    requires Lacks(a, sep)
    ensures Closed(a + [sep] + b, sep) == [a] + Closed(b, sep)
  {
    PiecesAtSeparator(a, sep, b);
    DropLastOfCons(a, Pieces(b, sep));
  }

  lemma ClosedOfOne<T>(a: seq<T>, sep: T)
    requires Lacks(a, sep)
    ensures Closed(a, sep) == []
  {
    PiecesOfOne(a, sep);
  }

  /** The open piece at the end. */
  function Open<T(==)>(s: seq<T>, sep: T): seq<T> {
    var ps := Pieces(s, sep);
    ps[|ps| - 1]
  }

  lemma {:induction false} OpenLacks<T>(s: seq<T>, sep: T)
    ensures Lacks(Open(s, sep), sep) && |Open(s, sep)| <= |s|
  {
    if s != [] { OpenLacks(s[1..], sep); }
  }

  lemma FirstSeparator<T>(s: seq<T>, sep: T) returns (k: nat)
    requires !Lacks(s, sep)
    ensures k < |s| && s[k] == sep && Lacks(s[..k], sep)
    ensures s == s[..k] + [sep] + s[k + 1..]
  {
    k := 0;
    while s[k] != sep
      invariant k < |s| && Lacks(s[..k], sep) && !Lacks(s[k..], sep)
      decreases |s| - k
    {
      assert s[k..] == [s[k]] + s[k + 1..];
      k := k + 1;
    }
  }

  lemma OpenAtSeparator<T>(a: seq<T>, sep: T, b: seq<T>)
    requires Lacks(a, sep)
    ensures Open(a + [sep] + b, sep) == Open(b, sep)
  {
    PiecesAtSeparator(a, sep, b);
  }

  /** Cutting can be resumed from the open piece: nothing depends on where a stream is interrupted. */
  lemma {:induction false} PiecesResume<T>(s: seq<T>, sep: T, more: seq<T>)
    ensures Pieces(s + more, sep) == Closed(s, sep) + Pieces(Open(s, sep) + more, sep)
    decreases |s|
  {
    if Lacks(s, sep) {
      PiecesOfOne(s, sep);
      assert [] + Pieces(s + more, sep) == Pieces(s + more, sep);
    } else {
      var k := FirstSeparator(s, sep);
      var a, b := s[..k], s[k + 1..];
      PiecesResume(b, sep, more);
      ClosedAtSeparator(a, sep, b);
      OpenAtSeparator(a, sep, b);
      assert s + more == a + [sep] + (b + more);
      PiecesAtSeparator(a, sep, b + more);
      hide Pieces, Closed, Open;
      Bytes.Assoc([a], Closed(b, sep), Pieces(Open(b, sep) + more, sep));
    }
  }

  lemma DropLastOfConcat<T>(a: seq<seq<T>>, ps: seq<seq<T>>)
    requires |ps| >= 1
    ensures var all := a + ps; all[..|all| - 1] == a + ps[..|ps| - 1] && all[|all| - 1] == ps[|ps| - 1]
  {
  }

  /** Resuming, seen from the pieces that get closed. */
  lemma ClosedResume<T>(s: seq<T>, sep: T, more: seq<T>)
    ensures Closed(s + more, sep) == Closed(s, sep) + Closed(Open(s, sep) + more, sep)
    ensures Open(s + more, sep) == Open(Open(s, sep) + more, sep)
  {
    hide Pieces;
    PiecesResume(s, sep, more);
    DropLastOfConcat(Closed(s, sep), Pieces(Open(s, sep) + more, sep));
  }

  /** What the first separator opens and a later one closes, if anything is in between. */
  function Bodies<T(==)>(s: seq<T>, sep: T): seq<seq<T>> {
    var cs := Closed(s, sep);
    if cs == [] then [] else NonEmpty(cs[1..])
  }

  /** The bodies of what follows a separator. */
  function BodiesAfter<T(==)>(b: seq<T>, sep: T): seq<seq<T>> { NonEmpty(Closed(b, sep)) }

  lemma BodiesFromSeparator<T>(a: seq<T>, sep: T, b: seq<T>)
    requires Lacks(a, sep)
    ensures Bodies(a + [sep] + b, sep) == BodiesAfter(b, sep)
  {
    ClosedAtSeparator(a, sep, b);
    hide Closed;
    assert ([a] + Closed(b, sep))[1..] == Closed(b, sep);
  }

  lemma BodiesAfterSeparator<T>(a: seq<T>, sep: T, b: seq<T>)
    requires Lacks(a, sep)
    ensures BodiesAfter(a + [sep] + b, sep) == (if a == [] then [] else [a]) + BodiesAfter(b, sep)
  {
    ClosedAtSeparator(a, sep, b);
    hide Closed;
    assert ([a] + Closed(b, sep))[1..] == Closed(b, sep);
  }

  lemma BodiesOfOne<T>(a: seq<T>, sep: T)
    requires Lacks(a, sep)
    ensures Bodies(a, sep) == [] && BodiesAfter(a, sep) == []
  {
    ClosedOfOne(a, sep);
  }
}
