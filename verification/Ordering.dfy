/** The order of std::string, and std::list::sort and std::list::merge under it. */
module Ordering {

  /** a <= b, character by character. */
  predicate LessEq(a: string, b: string) {
    a == "" || (b != "" && (a[0] < b[0] || (a[0] == b[0] && LessEq(a[1..], b[1..]))))
  }

  lemma {:induction false} Total(a: string, b: string)
    ensures LessEq(a, b) || LessEq(b, a)
  {
    if a == "" || b == "" || a[0] != b[0] {
    } else {
      Total(a[1..], b[1..]);
    }
  }

  lemma {:induction false} Antisymmetric(a: string, b: string)
    requires LessEq(a, b) && LessEq(b, a)
    ensures a == b
  {
    if a == "" {
    } else {
      Antisymmetric(a[1..], b[1..]);
      assert a == [a[0]] + a[1..] && b == [b[0]] + b[1..];
    }
  }

  lemma {:induction false} Transitive(a: string, b: string, c: string)
    requires LessEq(a, b) && LessEq(b, c)
    ensures LessEq(a, c)
  {
    if a == "" || a[0] != b[0] || b[0] != c[0] {
    } else {
      Transitive(a[1..], b[1..], c[1..]);
    }
  }

  ghost predicate Sorted(l: seq<string>) {
    forall i, j | 0 <= i < j < |l| :: LessEq(l[i], l[j])
  }

  /** A sorted list has one arrangement only. */
  lemma {:induction false} SortedUnique(a: seq<string>, b: seq<string>)
    requires Sorted(a) && Sorted(b) && multiset(a) == multiset(b)
    ensures a == b
  {
    hide LessEq;
    SameLength(a, b);
    if a == [] {
    } else {
      SameFirst(a, b);
      TailElements(a);
      TailElements(b);
      SortedUnique(a[1..], b[1..]);
      assert a == [a[0]] + a[1..] && b == [b[0]] + b[1..];
    }
  }

  lemma SameLength<T>(a: seq<T>, b: seq<T>)
    requires multiset(a) == multiset(b)
    ensures |a| == |b|
  {
    assert |multiset(a)| == |a| && |multiset(b)| == |b|;
  }

  lemma TailElements<T>(a: seq<T>)
    requires a != []
    ensures multiset(a[1..]) == multiset(a) - multiset{a[0]}
  {
    assert a == [a[0]] + a[1..];
  }

  lemma SameFirst(a: seq<string>, b: seq<string>)
    requires a != [] && b != [] && Sorted(a) && Sorted(b) && multiset(a) == multiset(b)
    ensures a[0] == b[0]
  {
    hide LessEq;
    if a[0] != b[0] {
      assert a[0] in multiset(b) && b[0] in multiset(a);
      var i :| 0 <= i < |b| && b[i] == a[0];
      var j :| 0 <= j < |a| && a[j] == b[0];
      assert LessEq(a[0], a[j]) && LessEq(b[0], b[i]);
      Antisymmetric(a[0], b[0]);
    }
  }

  function Inserted(x: string, l: seq<string>): (r: seq<string>)
    ensures multiset(r) == multiset(l) + multiset{x}
  {
    if l == [] || LessEq(x, l[0]) then [x] + l
    else
      assert l == [l[0]] + l[1..];
      [l[0]] + Inserted(x, l[1..])
  }

  /** std::list::sort. */
  function Sort(l: seq<string>): (r: seq<string>)
    ensures multiset(r) == multiset(l)
  {
    if l == [] then []
    else
      assert l == [l[0]] + l[1..];
      Inserted(l[0], Sort(l[1..]))
  }

  lemma {:induction false} InsertedSorted(x: string, l: seq<string>)
    requires Sorted(l)
    ensures Sorted(Inserted(x, l))
  {
    hide LessEq;
    if l == [] {
    } else {
      if LessEq(x, l[0]) {
        forall j | 0 < j < |l|
          ensures LessEq(x, l[j])
        {
          Transitive(x, l[0], l[j]);
        }
      } else {
        Total(x, l[0]);
        InsertedSorted(x, l[1..]);
        AboveAll(l[0], Inserted(x, l[1..]), l[1..], x);
      }
    }
  }

  lemma AboveAll(low: string, l: seq<string>, from: seq<string>, x: string)
    requires multiset(l) == multiset(from) + multiset{x}
    requires LessEq(low, x) && forall i | 0 <= i < |from| :: LessEq(low, from[i])
    ensures forall i | 0 <= i < |l| :: LessEq(low, l[i])
  {
    hide LessEq;
    forall i | 0 <= i < |l|
      ensures LessEq(low, l[i])
    {
      assert l[i] in multiset(l);
      if l[i] != x {
        assert l[i] in multiset(from);
      }
    }
  }

  lemma {:induction false} SortSorts(l: seq<string>)
    ensures Sorted(Sort(l))
  {
    hide LessEq, Inserted;
    if l == [] {
    } else {
      SortSorts(l[1..]);
      InsertedSorted(l[0], Sort(l[1..]));
    }
  }

  /** Sorting forgets the arrangement and nothing else. */
  lemma SortPermuted(a: seq<string>, b: seq<string>)
    ensures multiset(a) == multiset(b) <==> Sort(a) == Sort(b)
  {
    hide Sort;
    SortSorts(a);
    SortSorts(b);
    if multiset(a) == multiset(b) {
      SortedUnique(Sort(a), Sort(b));
    }
  }

  /** std::list::merge; of equal elements those of the first list come first. */
  function Merge(a: seq<string>, b: seq<string>): (r: seq<string>)
    ensures multiset(r) == multiset(a) + multiset(b)
  {
    if a == [] then b
    else if b == [] then a
    else if !LessEq(a[0], b[0]) then
      assert b == [b[0]] + b[1..];
      [b[0]] + Merge(a, b[1..])
    else
      assert a == [a[0]] + a[1..];
      [a[0]] + Merge(a[1..], b)
  }

  /** One text is not behind another if it starts it, or has the lower character where they first differ. */
  lemma {:induction false} LessEqIs(a: string, b: string)
    ensures LessEq(a, b) <==>
            a <= b || exists k :: 0 <= k < |a| && k < |b| && a[..k] == b[..k] && a[k] < b[k]
  {
    if a == "" || b == "" {
    } else if a[0] != b[0] {
      FirstDiffers(a, b);
    } else {
      LessEqIs(a[1..], b[1..]);
      SameStart(a, b);
    }
  }

  lemma FirstDiffers(a: string, b: string)
    requires a != "" && b != "" && a[0] != b[0]
    ensures (exists k :: 0 <= k < |a| && k < |b| && a[..k] == b[..k] && a[k] < b[k]) <==> a[0] < b[0]
  {
    if a[0] < b[0] {
      assert a[..0] == b[..0];
    }
    if k :| 0 <= k < |a| && k < |b| && a[..k] == b[..k] && a[k] < b[k] {
      assert k > 0 ==> a[..k][0] == b[..k][0];
    }
  }

  lemma SameStart(a: string, b: string)
    requires a != "" && b != "" && a[0] == b[0]
    ensures a <= b <==> a[1..] <= b[1..]
    ensures (exists k :: 0 <= k < |a| && k < |b| && a[..k] == b[..k] && a[k] < b[k]) <==>
            exists k :: 0 <= k < |a[1..]| && k < |b[1..]| && a[1..][..k] == b[1..][..k] && a[1..][k] < b[1..][k]
  {
    assert a == [a[0]] + a[1..] && b == [b[0]] + b[1..];
    if k :| 0 <= k < |a| && k < |b| && a[..k] == b[..k] && a[k] < b[k] {
      assert k > 0;
      assert a[1..][..k - 1] == a[..k][1..] && b[1..][..k - 1] == b[..k][1..];
      assert a[1..][k - 1] < b[1..][k - 1];
    }
    if k :| 0 <= k < |a[1..]| && k < |b[1..]| && a[1..][..k] == b[1..][..k] && a[1..][k] < b[1..][k] {
      assert a[..k + 1] == [a[0]] + a[1..][..k] && b[..k + 1] == [b[0]] + b[1..][..k];
      assert a[k + 1] < b[k + 1];
    }
  }
}
