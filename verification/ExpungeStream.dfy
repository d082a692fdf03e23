/** EXPUNGE responses: a client removes position n of its list for each `* n EXPUNGE`
    (section 7.4.1 of RFC 3501).  `marks[i]` says that the message at index i goes. */
module ExpungeStream {
  import opened Collections

  function Remove<T>(list: seq<T>, n: int): Option<seq<T>> {
    if 1 <= n <= |list| then Some(list[..n - 1] + list[n..]) else None
  }

  /** The client's list after a stream; None once a number names no message. */
  function Replay<T>(list: seq<T>, stream: seq<int>): Option<seq<T>> {
    if stream == [] then Some(list)
    else
      var rest := Replay(list, stream[..|stream| - 1]);
      if rest.None? then None else Remove(rest.value, stream[|stream| - 1])
  }

  lemma ReplayAppend<T>(list: seq<T>, stream: seq<int>, n: int)
    ensures Replay(list, stream + [n]) ==
      var rest := Replay(list, stream); if rest.None? then None else Remove(rest.value, n)
  {
    assert (stream + [n])[..|stream|] == stream;
  }

  function Survivors<T>(list: seq<T>, marks: seq<bool>): seq<T>
    requires |marks| == |list|
  {
    if list == [] then []
    else (if marks[0] then [] else [list[0]]) + Survivors(list[1..], marks[1..])
  }

  /** How many marks there are at `from` and above. */
  function Count(marks: seq<bool>, from: nat): nat
    requires from <= |marks|
    decreases |marks| - from
  {
    if from == |marks| then 0 else (if marks[from] then 1 else 0) + Count(marks, from + 1)
  }

  /** MOVE's stream: the marked positions from the highest down to index `stop`. */
  function Descending(marks: seq<bool>, stop: nat): seq<int>
    requires stop <= |marks|
    decreases |marks| - stop
  {
    if stop == |marks| then []
    else Descending(marks, stop + 1) + (if marks[stop] then [stop + 1] else [])
  }

  /** EXPUNGE's stream as written: each position less the number already deleted. */
  function Written(marks: seq<bool>, stop: nat): seq<int>
    requires stop <= |marks|
    decreases |marks| - stop
  {
    if stop == |marks| then []
    else Written(marks, stop + 1) + (if marks[stop] then [stop + 1 - Count(marks, stop + 1)] else [])
  }

  lemma SurvivorsFrom<T>(list: seq<T>, marks: seq<bool>, stop: nat)
    requires |marks| == |list| && stop < |list|
    ensures var rest := Survivors(list[stop + 1..], marks[stop + 1..]);
      Survivors(list[stop..], marks[stop..]) == if marks[stop] then rest else [list[stop]] + rest
  {
    assert list[stop..][1..] == list[stop + 1..] && marks[stop..][1..] == marks[stop + 1..];
    var rest := Survivors(list[stop + 1..], marks[stop + 1..]);
    assert [] + rest == rest;
  }

  lemma RemoveAt<T>(list: seq<T>, stop: nat, rest: seq<T>)
    requires stop < |list|
    ensures Remove(list[..stop + 1] + rest, stop + 1) == Some(list[..stop] + rest)
  {
    var was := list[..stop + 1] + rest;
    assert was[..stop] == list[..stop] && was[stop + 1..] == rest;
  }

  /** Stopped anywhere, the descending stream leaves the client with the server's list. */
  lemma {:induction false} DescendingReplays<T>(list: seq<T>, marks: seq<bool>, stop: nat)
    requires |marks| == |list| && stop <= |list|
    ensures Replay(list, Descending(marks, stop)) == Some(list[..stop] + Survivors(list[stop..], marks[stop..]))
    decreases |list| - stop
  {
    if stop == |list| {
      assert list[..stop] + [] == list;
    } else {
      DescendingReplays(list, marks, stop + 1);
      var rest := Survivors(list[stop + 1..], marks[stop + 1..]);
      SurvivorsFrom(list, marks, stop);
      if marks[stop] {
        ReplayAppend(list, Descending(marks, stop + 1), stop + 1);
        RemoveAt(list, stop, rest);
      } else {
        assert Descending(marks, stop) == Descending(marks, stop + 1);
        assert list[..stop + 1] + rest == list[..stop] + ([list[stop]] + rest);
      }
    }
  }

  lemma {:induction false} WrittenAgrees(marks: seq<bool>, stop: nat)
    requires stop <= |marks| && Count(marks, stop) <= 1
    ensures Written(marks, stop) == Descending(marks, stop)
    decreases |marks| - stop
  {
    if stop < |marks| {
      WrittenAgrees(marks, stop + 1);
    }
  }

  /** A number that hits below x leaves x in the list. */
  lemma MissBelow<T>(list: seq<T>, stream: seq<int>, n: int, below: seq<T>, x: T, above: seq<T>) returns (less: seq<T>)
    requires Replay(list, stream).None? || Replay(list, stream) == Some(below + [x] + above)
    requires Replay(list, stream).Some? ==> n <= |below|
    ensures Replay(list, stream + [n]).None?
         || (Replay(list, stream + [n]) == Some(less + [x] + above) && |below| - 1 <= |less|)
  {
    ReplayAppend(list, stream, n);
    less := below;
    if Replay(list, stream).Some? && 1 <= n {
      var was := below + [x] + above;
      less := below[..n - 1] + below[n..];
      assert was[..n - 1] + was[n..] == less + [x] + above;
    }
  }

  /** From the second deletion (at j) on, the written stream hits too low: the message
      at j is never removed. */
  lemma {:induction false} WrittenMisses<T>(list: seq<T>, marks: seq<bool>, j: nat, stop: nat)
    returns (below: seq<T>, above: seq<T>)
    requires |marks| == |list| && stop <= j < |list|
    requires marks[j] && Count(marks, j + 1) == 1
    ensures Replay(list, Written(marks, stop)).None?
         || (Replay(list, Written(marks, stop)) == Some(below + [list[j]] + above) && stop - 1 <= |below|)
    decreases j - stop
  {
    if stop == j {
      WrittenAgrees(marks, j + 1);
      DescendingReplays(list, marks, j + 1);
      above := Survivors(list[j + 1..], marks[j + 1..]);
      below := MissAt(list, Written(marks, j + 1), j, above);
    } else {
      below, above := WrittenMisses(list, marks, j, stop + 1);
      CountMonotone(marks, stop + 1, j);
      if marks[stop] {
        below := MissBelow(list, Written(marks, stop + 1), stop + 1 - Count(marks, stop + 1), below, list[j], above);
      } else {
        WrittenSkips(marks, stop);
      }
    }
  }

  lemma WrittenSkips(marks: seq<bool>, stop: nat)
    requires stop < |marks| && !marks[stop]
    ensures Written(marks, stop) == Written(marks, stop + 1)
  {
    assert Written(marks, stop + 1) + [] == Written(marks, stop + 1);
  }

  /** Number j, one too low for index j, takes the message before it instead. */
  lemma MissAt<T>(list: seq<T>, stream: seq<int>, j: nat, above: seq<T>) returns (below: seq<T>)
    requires j < |list| && Replay(list, stream) == Some(list[..j + 1] + above)
    ensures Replay(list, stream + [j]).None?
         || (Replay(list, stream + [j]) == Some(below + [list[j]] + above) && j - 1 <= |below|)
  {
    ReplayAppend(list, stream, j);
    below := [];
    if j > 0 {
      below := list[..j - 1];
      var was := list[..j + 1] + above;
      assert was[..j - 1] == below && was[j..] == [list[j]] + above;
      assert below + ([list[j]] + above) == below + [list[j]] + above;
    }
  }

  lemma {:induction false} CountMonotone(marks: seq<bool>, low: nat, high: nat)
    requires low <= high < |marks| && marks[high]
    ensures Count(marks, low) >= 1 + Count(marks, high + 1)
    decreases high - low
  {
    if low < high {
      CountMonotone(marks, low + 1, high);
    }
  }

  lemma {:induction false} SecondMark(marks: seq<bool>, from: nat) returns (j: nat)
    requires from <= |marks| && Count(marks, from) >= 2
    ensures from <= j < |marks| && marks[j] && Count(marks, j + 1) == 1
    decreases |marks| - from
  {
    if Count(marks, from + 1) == 1 {
      j := from;
    } else {
      j := SecondMark(marks, from + 1);
    }
  }

  lemma {:induction false} SurvivorsAre<T>(list: seq<T>, marks: seq<bool>, x: T)
    requires |marks| == |list|
    ensures x in Survivors(list, marks) <==> exists i | 0 <= i < |list| :: !marks[i] && list[i] == x
  {
    if list != [] {
      SurvivorsAre(list[1..], marks[1..], x);
      if x in Survivors(list[1..], marks[1..]) {
        var i :| 0 <= i < |list[1..]| && !marks[1..][i] && list[1..][i] == x;
        assert !marks[i + 1] && list[i + 1] == x;
      }
      if i :| 0 <= i < |list| && !marks[i] && list[i] == x {
        assert i > 0 ==> !marks[1..][i - 1] && list[1..][i - 1] == x;
      }
    }
  }

  /** The stream with plain positions, as MOVE sends it, is always right. */
  lemma DescendingRight<T>(list: seq<T>, marks: seq<bool>)
    requires |marks| == |list|
    ensures Replay(list, Descending(marks, 0)) == Some(Survivors(list, marks))
  {
    DescendingReplays(list, marks, 0);
    assert list[0..] == list && marks[0..] == marks;
    assert list[..0] + Survivors(list, marks) == Survivors(list, marks);
  }

  /** The written EXPUNGE stream is right exactly when at most one message goes. */
  lemma WrittenRightIff<T>(list: seq<T>, marks: seq<bool>)
    requires |marks| == |list| && NoDup(list)
    ensures Replay(list, Written(marks, 0)) == Some(Survivors(list, marks)) <==> Count(marks, 0) <= 1
  {
    if Count(marks, 0) <= 1 {
      WrittenAgrees(marks, 0);
      DescendingRight(list, marks);
    } else {
      var j := SecondMark(marks, 0);
      var below, above := WrittenMisses(list, marks, j, 0);
      SurvivorsAre(list, marks, list[j]);
      assert (below + [list[j]] + above)[|below|] == list[j];
    }
  }

  /** Two of two messages deleted: the written stream is 2, 0. */
  lemma WrittenWrongExample()
    ensures Written([true, true], 0) == [2, 0]
    ensures Replay(["a", "b"], [2, 0]) == None
    ensures Replay(["a", "b"], Descending([true, true], 0)) == Some([])
  {
    var marks := [true, true];
    assert Count(marks, 2) == 0 && Count(marks, 1) == 1;
    assert Written(marks, 2) == [] && Written(marks, 1) == [2];
    var both := ["a", "b"];
    assert Replay(both, [2]) == Some(both[..1] + both[2..]) by { ReplayAppend(both, [], 2); }
    ReplayAppend(both, [2], 0);
    DescendingRight(["a", "b"], marks);
    assert Survivors(["a", "b"], marks) == [] + Survivors(["b"], [true]);
  }
}
