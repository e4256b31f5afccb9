/** The in-place sort at the end of List (internal/storage/storage.go). */
module NewestFirst {

  datatype Object = Object(key: string, size: int, modified: int)

  predicate Newest(s: seq<Object>) {
    forall i, j | 0 <= i < j < |s| :: s[i].modified >= s[j].modified
  }

  /** The objects of one modification time, in order. */
  function OfTime(s: seq<Object>, t: int): seq<Object> {
    if s == [] then []
    else OfTime(s[..|s| - 1], t) + (if s[|s| - 1].modified == t then [s[|s| - 1]] else [])
  }

  /** The same objects, those of equal time in the same order. */
  ghost predicate StableRearrangement(a: seq<Object>, b: seq<Object>) {
    |a| == |b| && forall t :: OfTime(a, t) == OfTime(b, t)
  }

  lemma {:induction false} OfTimeAppend(a: seq<Object>, b: seq<Object>, t: int)
    ensures OfTime(a + b, t) == OfTime(a, t) + OfTime(b, t)
  {
    if b == [] {
      assert a + b == a;
    } else {
      var n := |b| - 1;
      OfTimeAppend(a, b[..n], t);
      assert (a + b)[..|a| + n] == a + b[..n];
    }
  }

  /** Exchanging two neighbours of different times is a stable rearrangement. */
  lemma SwapIsStable(s: seq<Object>, j: nat)
    requires 0 < j < |s| && s[j].modified != s[j - 1].modified
    ensures StableRearrangement(s, s[j := s[j - 1]][j - 1 := s[j]])
  {
    var x, y := s[j - 1], s[j];
    var front, back := s[..j - 1], s[j + 1..];
    assert s == front + ([x, y] + back);
    assert s[j := x][j - 1 := y] == front + ([y, x] + back);
    forall t
      ensures OfTime(front + ([x, y] + back), t) == OfTime(front + ([y, x] + back), t)
    {
      PairIsStable(front, x, y, back, t);
    }
  }

  lemma PairIsStable(front: seq<Object>, x: Object, y: Object, back: seq<Object>, t: int)
    requires x.modified != y.modified
    ensures OfTime(front + ([x, y] + back), t) == OfTime(front + ([y, x] + back), t)
  {
    hide OfTime;
    OfTimeAppend(front, [x, y] + back, t);
    OfTimeAppend(front, [y, x] + back, t);
    OfTimeAppend([x, y], back, t);
    OfTimeAppend([y, x], back, t);
    OfTimeOfPair(x, y, t);
    OfTimeOfPair(y, x, t);
  }

  lemma OfTimeOfPair(x: Object, y: Object, t: int)
    ensures OfTime([x, y], t) == (if x.modified == t then [x] else []) + (if y.modified == t then [y] else [])
  {
    assert [x, y][..1] == [x] && [x][..0] == [];
    assert OfTime([x], t) == if x.modified == t then [x] else [];
  }

  method SortNewestFirst(objects: array<Object>)
    modifies objects
    ensures forall i, j | 0 <= i < j < objects.Length :: objects[i].modified >= objects[j].modified
    ensures StableRearrangement(old(objects[..]), objects[..])
  {
    hide OfTime;
    var i := 1;
    while i < objects.Length
      invariant 1 <= i && (i <= objects.Length || i == 1)
      invariant Newest(objects[..if i <= objects.Length then i else objects.Length])
      invariant StableRearrangement(old(objects[..]), objects[..])
    {
      SinkInto(objects, i);
      i := i + 1;
    }
  }

  /** The inner loop: object i moves down to its place among the sorted ones below it. */
  method SinkInto(objects: array<Object>, i: nat)
    requires i < objects.Length && Newest(objects[..i])
    modifies objects
    ensures Newest(objects[..i + 1])
    ensures StableRearrangement(old(objects[..]), objects[..])
  {
    hide OfTime;
    var j := i;
    while j > 0 && objects[j].modified > objects[j - 1].modified
      invariant 0 <= j <= i
      invariant forall a, b | 0 <= a < b <= i && b != j :: objects[a].modified >= objects[b].modified
      invariant StableRearrangement(old(objects[..]), objects[..])
      decreases j
    {
      ghost var before := objects[..];
      SwapIsStable(before, j);
      objects[j], objects[j - 1] := objects[j - 1], objects[j];
      assert objects[..] == before[j := before[j - 1]][j - 1 := before[j]];
      j := j - 1;
    }
  }

  // ---- There is only one such order ----

  lemma {:induction false} OfTimeMembers(s: seq<Object>, t: int)
    ensures forall o :: o in OfTime(s, t) <==> o in s && o.modified == t
  {
    if s != [] {
      OfTimeMembers(s[..|s| - 1], t);
      assert s == s[..|s| - 1] + [s[|s| - 1]];
    }
  }

  lemma SameLastTime(a: seq<Object>, b: seq<Object>)
    requires Newest(a) && Newest(b) && StableRearrangement(a, b) && a != []
    ensures a[|a| - 1] == b[|b| - 1]
  {
    var x, y := a[|a| - 1], b[|b| - 1];
    OfTimeMembers(a, x.modified);
    OfTimeMembers(b, x.modified);
    OfTimeMembers(a, y.modified);
    OfTimeMembers(b, y.modified);
    assert x in OfTime(a, x.modified) && y in OfTime(b, y.modified);
    assert x in b && y in a;
    assert x.modified == y.modified;
    assert OfTime(a, x.modified)[|OfTime(a, x.modified)| - 1] == x;
    assert OfTime(b, x.modified)[|OfTime(b, x.modified)| - 1] == y;
  }

  /** The newest-first stable order of a listing is unique. */
  lemma {:induction false} OnlyOneOrder(a: seq<Object>, b: seq<Object>)
    requires Newest(a) && Newest(b) && StableRearrangement(a, b)
    ensures a == b
    decreases |a|
  {
    if a != [] {
      SameLastTime(a, b);
      var n := |a| - 1;
      assert StableRearrangement(a[..n], b[..n]) by {
        forall t
          ensures OfTime(a[..n], t) == OfTime(b[..n], t)
        {
          var ta, tb := OfTime(a, t), OfTime(b, t);
          if a[n].modified == t {
            assert OfTime(a[..n], t) == ta[..|ta| - 1] && OfTime(b[..n], t) == tb[..|tb| - 1];
          } else {
            assert OfTime(a[..n], t) == ta && OfTime(b[..n], t) == tb;
          }
        }
      }
      OnlyOneOrder(a[..n], b[..n]);
      assert a == a[..n] + [a[n]] && b == b[..n] + [b[n]];
    }
  }

  /** A stable rearrangement is a permutation. */
  lemma {:induction false} RearrangementIsPermutation(a: seq<Object>, b: seq<Object>)
    requires StableRearrangement(a, b)
    ensures multiset(a) == multiset(b)
  {
    forall o: Object
      ensures multiset(a)[o] == multiset(b)[o]
    {
      Occurrences(a, o);
      Occurrences(b, o);
    }
  }

  lemma {:induction false} Occurrences(s: seq<Object>, o: Object)
    ensures multiset(s)[o] == multiset(OfTime(s, o.modified))[o]
  {
    if s != [] {
      Occurrences(s[..|s| - 1], o);
      assert s == s[..|s| - 1] + [s[|s| - 1]];
    }
  }
}
