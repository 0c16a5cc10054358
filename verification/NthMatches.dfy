/** The search both header lookups make: for the nth of the headers that match. */
module NthMatches {
  import opened Bytes

  /** The count goes down at every marked place, and the search ends where it is found to be -1. */
  function FindNth(marks: seq<bool>, i: nat, nth: int): (found: Option<nat>)
    requires i <= |marks|
    ensures found.Some? ==> i <= found.value < |marks|
    decreases |marks| - i
  {
    if i == |marks| then None
    else
      var n := if marks[i] then nth - 1 else nth;
      if n == -1 then Some(i) else FindNth(marks, i + 1, n)
  }

  function CountMarks(marks: seq<bool>, i: nat, j: nat): nat
    requires i <= j <= |marks|
    decreases j - i
  {
    if i == j then 0 else (if marks[i] then 1 else 0) + CountMarks(marks, i + 1, j)
  }

  /** The nth marked place is the marked one with n marked ones before it. */
  lemma {:induction false} FindNthMeans(marks: seq<bool>, i: nat, nth: nat, j: nat)
    requires i <= j < |marks|
    ensures FindNth(marks, i, nth) == Some(j) <==> marks[j] && CountMarks(marks, i, j) == nth
    decreases |marks| - i
  {
    if i < j {
      if !marks[i] {
        FindNthMeans(marks, i + 1, nth, j);
      } else if nth > 0 {
        FindNthMeans(marks, i + 1, nth - 1, j);
      }
    }
  }

  /** A negative count finds nothing, but for -1, which finds the first place if that is not marked. */
  lemma {:induction false} FindNegative(marks: seq<bool>, i: nat, nth: int)
    requires i <= |marks| && nth < 0
    ensures FindNth(marks, i, nth) == if nth == -1 && i < |marks| && !marks[i] then Some(i) else None
    decreases |marks| - i
  {
    if i < |marks| {
      var n := if marks[i] then nth - 1 else nth;
      if n != -1 {
        FindNegative(marks, i + 1, n);
      }
    }
  }

  lemma {:induction false} FindFirst(marks: seq<bool>, i: nat)
    requires i <= |marks|
    ensures FindNth(marks, i, 0).Some? <==> exists j :: i <= j < |marks| && marks[j]
    ensures FindNth(marks, i, 0).Some? ==> marks[FindNth(marks, i, 0).value]
    decreases |marks| - i
  {
    if i < |marks| && !marks[i] {
      FindFirst(marks, i + 1);
    }
  }

  /** Another place behind the others is found only if nothing was found before. */
  lemma {:induction false} FindFirstAppend(marks: seq<bool>, last: bool, i: nat)
    requires i <= |marks|
    ensures FindNth(marks + [last], i, 0)
         == if FindNth(marks, i, 0).Some? then FindNth(marks, i, 0) else if last then Some(|marks|) else None
    decreases |marks| - i
  {
    var more := marks + [last];
    if i < |marks| {
      assert more[i] == marks[i];
      if !marks[i] {
        FindFirstAppend(marks, last, i + 1);
      }
    } else {
      assert more[i] == last;
    }
  }

  /** Every place that only a marks has one before it that b marks. */
  ghost predicate MarkedBefore(a: seq<bool>, b: seq<bool>, i: nat)
    requires |a| == |b|
  {
    forall k :: i <= k < |a| && a[k] && !b[k] ==> exists j :: i <= j < k && b[j]
  }

  /** Where a marks all that b marks, and more, the first marked places agree exactly if b's comes first. */
  lemma {:induction false} SameFirst(a: seq<bool>, b: seq<bool>, i: nat)
    requires i <= |a| == |b| && forall j :: i <= j < |a| && b[j] ==> a[j]
    ensures FindNth(a, i, 0) == FindNth(b, i, 0) <==> MarkedBefore(a, b, i)
    ensures FindNth(a, i, 0) != FindNth(b, i, 0) ==> FindNth(a, i, 0).Some? && !b[FindNth(a, i, 0).value]
    decreases |a| - i
  {
    if i < |a| && !a[i] {
      SameFirst(a, b, i + 1);
      MarkedLater(a, b, i);
    } else if i < |a| && !b[i] {
      assert !MarkedBefore(a, b, i);
    }
  }

  lemma MarkedLater(a: seq<bool>, b: seq<bool>, i: nat)
    requires i < |a| == |b| && !a[i] && !b[i]
    ensures MarkedBefore(a, b, i) <==> MarkedBefore(a, b, i + 1)
  {
    if MarkedBefore(a, b, i) {
      forall k | i + 1 <= k < |a| && a[k] && !b[k]
        ensures exists j :: i + 1 <= j < k && b[j]
      {
        var j :| i <= j < k && b[j];
        assert j != i;
      }
    }
  }

  ghost predicate SameFinds(a: seq<bool>, b: seq<bool>, i: nat)
    requires i <= |a| && i <= |b|
  {
    forall nth: int :: FindNth(a, i, nth) == FindNth(b, i, nth)
  }

  lemma SameFindsSameMark(a: seq<bool>, b: seq<bool>, i: nat, j: nat)
    requires i <= j < |a| == |b| && SameFinds(a, b, i)
    ensures a[j] == b[j]
  {
    var m, n := CountMarks(a, i, j), CountMarks(b, i, j);
    FindNthMeans(a, i, m, j);
    FindNthMeans(b, i, m, j);
    FindNthMeans(a, i, n, j);
    FindNthMeans(b, i, n, j);
    assert FindNth(a, i, m) == FindNth(b, i, m) && FindNth(a, i, n) == FindNth(b, i, n);
  }

  /** Two markings give the same lookups for every n exactly when they mark the same places. */
  lemma SameLookups(a: seq<bool>, b: seq<bool>, i: nat)
    requires i <= |a| == |b|
    ensures SameFinds(a, b, i) <==> a[i..] == b[i..]
  {
    if SameFinds(a, b, i) {
      forall j | i <= j < |a|
        ensures a[j] == b[j]
      {
        SameFindsSameMark(a, b, i, j);
      }
      assert a[i..] == b[i..];
    } else if a[i..] == b[i..] {
      var nth :| FindNth(a, i, nth) != FindNth(b, i, nth);
      SameMarksFind(a, b, i, nth);
      assert false;
    }
  }

  lemma {:induction false} SameMarksFind(a: seq<bool>, b: seq<bool>, i: nat, nth: int)
    requires i <= |a| == |b| && a[i..] == b[i..]
    ensures FindNth(a, i, nth) == FindNth(b, i, nth)
    decreases |a| - i
  {
    if i < |a| {
      assert a[i] == a[i..][0] == b[i..][0] == b[i];
      assert a[i + 1..] == a[i..][1..] && b[i + 1..] == b[i..][1..];
      SameMarksFind(a, b, i + 1, if a[i] then nth - 1 else nth);
    }
  }
}
