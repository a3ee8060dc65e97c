/** `remove_double_counting`: a technosphere matrix, seen as its coordinate
    triples, loses every cross term of a marked activity. */
module DoubleCounting {

  /** One stored entry of a sparse matrix in coordinate form. */
  datatype Triple = Triple(row: int, col: int, value: real)

  /** The `idx` of every variable of every region of `vars_info`, in
      iteration order (region and variable names play no part). */
  type Marks = seq<seq<int>>

  /** All marked indices, regions in order, variables in order. */
  function Flatten(marks: Marks): seq<int> {
    if |marks| == 0 then [] else Flatten(marks[..|marks| - 1]) + marks[|marks| - 1]
  }

  function MarkedSet(marks: Marks): set<int> {
    set x | x in Flatten(marks)
  }

  /** An entry of a marked activity's row outside its own diagonal. */
  predicate CrossTerm(t: Triple, marked: set<int>) {
    t.row in marked && t.col != t.row
  }

  predicate Survives(t: Triple, marked: set<int>) {
    t.value != 0.0 && !CrossTerm(t, marked)
  }

  /** The entries that survive, in their original order. */
  function Kept(a: seq<Triple>, marked: set<int>): (r: seq<Triple>)
    ensures |r| <= |a|
    ensures forall t :: t in r <==> t in a && Survives(t, marked)
  {
    if |a| == 0 then []
    else
      var last := a[|a| - 1];
      assert a == a[..|a| - 1] + [last];
      Kept(a[..|a| - 1], marked) + (if Survives(last, marked) then [last] else [])
  }

  /** Zeroes the cross terms of each distinct marked index in first-seen
      order, then drops every zero entry (`eliminate_zeros`). Diagonal entries
      and rows of unmarked activities keep their values; nothing new appears. */
  method RemoveDoubleCounting(a: seq<Triple>, marks: Marks) returns (r: seq<Triple>)
    ensures r == Kept(a, MarkedSet(marks))
  {
    var coo := a;
    var seen: seq<int> := [];
    var i := 0;
    while i < |marks|
      invariant 0 <= i <= |marks|
      invariant forall x :: x in seen <==> x in Flatten(marks[..i])
      invariant |coo| == |a|
      invariant forall k :: 0 <= k < |a| ==>
        coo[k] == if CrossTerm(a[k], set x | x in seen) then a[k].(value := 0.0) else a[k]
    {
      assert marks[..i + 1][..i] == marks[..i];
      assert Flatten(marks[..i + 1]) == Flatten(marks[..i]) + marks[i];
      var j := 0;
      while j < |marks[i]|
        invariant 0 <= j <= |marks[i]|
        invariant forall x :: x in seen <==> x in Flatten(marks[..i]) + marks[i][..j]
        invariant |coo| == |a|
        invariant forall k :: 0 <= k < |a| ==>
          coo[k] == if CrossTerm(a[k], set x | x in seen) then a[k].(value := 0.0) else a[k]
      {
        var idx := marks[i][j];
        assert marks[i][..j + 1] == marks[i][..j] + [idx];
        if idx !in seen {
          seen := seen + [idx];
          coo := seq(|coo|, k requires 0 <= k < |coo| =>
            if coo[k].row == idx && coo[k].col != idx then coo[k].(value := 0.0) else coo[k]);
        }
        j := j + 1;
      }
      assert marks[i][..j] == marks[i];
      i := i + 1;
    }
    assert marks[..i] == marks;
    ghost var marked := MarkedSet(marks);
    assert (set x | x in seen) == marked by {
      forall x ensures x in (set y | y in seen) <==> x in marked {
        assert x in seen <==> x in Flatten(marks);
      }
    }
    r := [];
    var k := 0;
    while k < |coo|
      invariant 0 <= k <= |coo|
      invariant r == Kept(a[..k], marked)
    {
      assert a[..k + 1][..k] == a[..k];
      if coo[k].value != 0.0 {
        r := r + [coo[k]];
      }
      k := k + 1;
    }
    assert a[..k] == a;
  }

  /** A list whose entries all survive is left as it is. */
  lemma {:induction false} KeptAllSurvive(s: seq<Triple>, marked: set<int>)
    requires forall t :: t in s ==> Survives(t, marked)
    ensures Kept(s, marked) == s
  {
    if |s| > 0 {
      var n := |s| - 1;
      assert s[n] in s;
      forall t | t in s[..n] ensures Survives(t, marked) {
        assert t in s;
      }
      KeptAllSurvive(s[..n], marked);
      assert s == s[..n] + [s[n]];
    }
  }

  /** Removing double counting twice removes nothing more. */
  lemma {:induction false} KeptIdempotent(a: seq<Triple>, marked: set<int>)
    ensures Kept(Kept(a, marked), marked) == Kept(a, marked)
  {
    KeptAllSurvive(Kept(a, marked), marked);
  }
}
