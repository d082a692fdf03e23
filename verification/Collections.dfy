/** Small facts about sequences and sets used by the other modules. */
module Collections {

  datatype Option<+T> = None | Some(value: T) {
    function GetOr(default: T): T {
      if Some? then value else default
    }
  }

  ghost predicate NoDup<T>(s: seq<T>) {
    forall i, j | 0 <= i < j < |s| :: s[i] != s[j]
  }

  function Range<T>(s: seq<T>): set<T> {
    set x | x in s
  }

  lemma {:induction false} NoDupCard<T>(s: seq<T>)
    requires NoDup(s)
    ensures |Range(s)| == |s|
  {
    if s != [] {
      NoDupCard(s[1..]);
      assert Range(s) == Range(s[1..]) + {s[0]};
    }
  }

  lemma NoDupAppend<T>(s: seq<T>, x: T)
    requires NoDup(s) && x !in s
    ensures NoDup(s + [x])
  {
  }

  lemma SubsetCard<T>(a: set<T>, b: set<T>)
    requires a <= b
    ensures |a| <= |b|
  {
    assert b == a + (b - a);
  }

  ghost predicate Ascending(s: seq<nat>) {
    forall i, j | 0 <= i < j < |s| :: s[i] < s[j]
  }

  lemma {:induction false} Enumerate(of: set<nat>) returns (s: seq<nat>)
    ensures NoDup(s) && Range(s) == of
    decreases of
  {
    if of == {} {
      s := [];
    } else {
      var x :| x in of;
      var rest := Enumerate(of - {x});
      assert x !in Range(rest);
      s := [x] + rest;
      assert Range(s) == {x} + Range(rest);
    }
  }

  lemma TwoOf(of: set<nat>) returns (x: nat, y: nat)
    requires |of| > 1
    ensures x in of && y in of && x != y
  {
    x :| x in of;
    assert |of - {x}| == |of| - 1;
    y :| y in of - {x};
  }

  lemma BeginningWith(of: set<nat>, x: nat, y: nat) returns (s: seq<nat>)
    requires x in of && y in of && x != y
    ensures NoDup(s) && Range(s) == of && |s| >= 2 && s[0] == x && s[1] == y
  {
    var rest := Enumerate(of - {x, y});
    assert x !in Range(rest) && y !in Range(rest);
    s := [x, y] + rest;
    assert Range(s) == {x, y} + Range(rest);
  }

  lemma {:induction false} Greatest(of: set<nat>) returns (x: nat)
    requires of != {}
    ensures x in of && forall y <- of :: y <= x
    decreases of
  {
    var z :| z in of;
    var rest := of - {z};
    assert of == rest + {z};
    x := z;
    if rest != {} {
      var y := Greatest(rest);
      x := if z < y then y else z;
    }
  }

  lemma {:induction false} Sorted(of: set<nat>) returns (s: seq<nat>)
    ensures Ascending(s) && |s| == |of| && Range(s) == of
    decreases of
  {
    if of == {} {
      s := [];
    } else {
      var x := Greatest(of);
      var rest := Sorted(of - {x});
      assert forall i | 0 <= i < |rest| :: rest[i] in Range(rest);
      s := rest + [x];
      assert Range(s) == Range(rest) + {x};
    }
  }
}
