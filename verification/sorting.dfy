/** What the model needs of Go's `sort` package and of Go's string order. */
module Sorting {

  ghost predicate TotalPreorder<T(!new)>(leq: (T, T) -> bool) {
    && (forall a, b :: leq(a, b) || leq(b, a))
    && (forall a, b, c :: leq(a, b) && leq(b, c) ==> leq(a, c))
  }

  ghost predicate Sorted<T>(s: seq<T>, leq: (T, T) -> bool) {
    forall i, j :: 0 <= i < j < |s| ==> leq(s[i], s[j])
  }

  /** Puts `x` in front of the first element that is not below it. */
  function Insert<T>(x: T, s: seq<T>, leq: (T, T) -> bool): seq<T> {
    if s == [] || leq(x, s[0]) then [x] + s else [s[0]] + Insert(x, s[1..], leq)
  }

  /** A stable sort; stands for `sort.Strings`, `sort.Slice` and `sort.SliceStable`. */
  function Sort<T>(s: seq<T>, leq: (T, T) -> bool): seq<T> {
    if s == [] then [] else Insert(s[0], Sort(s[1..], leq), leq)
  }

  lemma {:induction false} InsertPermutes<T>(x: T, s: seq<T>, leq: (T, T) -> bool)
    ensures multiset(Insert(x, s, leq)) == multiset{x} + multiset(s)
  {
    if s != [] && !leq(x, s[0]) {
      InsertPermutes(x, s[1..], leq);
      assert s == [s[0]] + s[1..];
    }
  }

  lemma {:induction false} InsertSorts<T(!new)>(x: T, s: seq<T>, leq: (T, T) -> bool)
    requires TotalPreorder(leq) && Sorted(s, leq)
    ensures Sorted(Insert(x, s, leq), leq)
  {
    if s != [] && !leq(x, s[0]) {
      var rest := Insert(x, s[1..], leq);
      InsertSorts(x, s[1..], leq);
      InsertPermutes(x, s[1..], leq);
      forall k | 0 <= k < |rest| ensures leq(s[0], rest[k]) {
        assert rest[k] in multiset(rest);
        assert rest[k] == x || rest[k] in s[1..];
      }
    }
  }

  lemma {:induction false} PermutationMembers<T>(a: seq<T>, b: seq<T>)
    requires multiset(a) == multiset(b)
    ensures |a| == |b| && forall x :: x in a <==> x in b
  {
    assert |multiset(a)| == |a| && |multiset(b)| == |b|;
    forall x ensures x in a <==> x in b {
      assert x in a <==> x in multiset(a);
      assert x in b <==> x in multiset(b);
    }
  }

  lemma {:induction false} SortPermutes<T>(s: seq<T>, leq: (T, T) -> bool)
    ensures multiset(Sort(s, leq)) == multiset(s)
    ensures |Sort(s, leq)| == |s| && forall x :: x in Sort(s, leq) <==> x in s
  {
    if s != [] {
      SortPermutes(s[1..], leq);
      InsertPermutes(s[0], Sort(s[1..], leq), leq);
      assert s == [s[0]] + s[1..];
    }
    PermutationMembers(Sort(s, leq), s);
  }

  lemma {:induction false} SortSorts<T(!new)>(s: seq<T>, leq: (T, T) -> bool)
    requires TotalPreorder(leq)
    ensures Sorted(Sort(s, leq), leq)
  {
    if s != [] {
      SortSorts(s[1..], leq);
      InsertSorts(s[0], Sort(s[1..], leq), leq);
    }
  }

  /** Go's `<=` on strings: lexicographic. */
  predicate StringLeq(a: string, b: string) {
    if a == "" then true
    else if b == "" then false
    else if a[0] != b[0] then a[0] < b[0]
    else StringLeq(a[1..], b[1..])
  }

  lemma {:induction false} FirstDifferenceBehindHead(a: string, b: string, k: nat)
    requires a != "" && b != "" && a[0] == b[0]
    requires k < |a[1..]| && k < |b[1..]| && a[1..][..k] == b[1..][..k] && a[1..][k] < b[1..][k]
    ensures a[..k + 1] == b[..k + 1] && a[k + 1] < b[k + 1]
  {
    assert a[..k + 1] == [a[0]] + a[1..][..k] && b[..k + 1] == [b[0]] + b[1..][..k];
  }

  /** The order is lexicographic: a prefix comes first, and else the first difference decides. */
  lemma {:induction false} StringLeqIsLexicographic(a: string, b: string)
    ensures StringLeq(a, b) <==>
            a <= b || exists k :: 0 <= k < |a| && k < |b| && a[..k] == b[..k] && a[k] < b[k]
  {
    if a != "" && b != "" {
      if a[0] != b[0] {
        assert a[..0] == b[..0];
        assert forall k :: 0 < k <= |a| && k <= |b| ==> a[..k][0] != b[..k][0];
      } else {
        StringLeqIsLexicographic(a[1..], b[1..]);
        assert a == [a[0]] + a[1..] && b == [b[0]] + b[1..];
        if k: nat :| k < |a[1..]| && k < |b[1..]| && a[1..][..k] == b[1..][..k] && a[1..][k] < b[1..][k] {
          FirstDifferenceBehindHead(a, b, k);
        }
        if k: nat :| k < |a| && k < |b| && a[..k] == b[..k] && a[k] < b[k] {
          assert k > 0 && a[1..][..k - 1] == a[..k][1..] && b[1..][..k - 1] == b[..k][1..];
          assert a[1..][k - 1] < b[1..][k - 1];
        }
      }
    }
  }

  /** What strictly before means. */
  lemma {:induction false} StrictlyBeforeIsLexicographic(a: string, b: string)
    ensures StringLeq(a, b) && a != b <==>
            a < b || exists k :: 0 <= k < |a| && k < |b| && a[..k] == b[..k] && a[k] < b[k]
  {
    StringLeqIsLexicographic(a, b);
  }

  lemma {:induction false} StringLeqTotal(a: string, b: string)
    ensures StringLeq(a, b) || StringLeq(b, a)
    ensures StringLeq(a, b) && StringLeq(b, a) ==> a == b
    ensures a == b ==> StringLeq(a, b)
  {
    if a != "" && b != "" {
      StringLeqTotal(a[1..], b[1..]);
      if a[0] == b[0] && a[1..] == b[1..] {
        assert a == [a[0]] + a[1..] == b;
      }
    }
  }

  lemma {:induction false} StringLeqTransitive(a: string, b: string, c: string)
    requires StringLeq(a, b) && StringLeq(b, c)
    ensures StringLeq(a, c)
  {
    if a != "" && a[0] == b[0] == c[0] {
      StringLeqTransitive(a[1..], b[1..], c[1..]);
    }
  }

  lemma {:induction false} StringLeqIsTotalPreorder()
    ensures TotalPreorder(StringLeq)
    ensures forall a, b :: StringLeq(a, b) && StringLeq(b, a) ==> a == b
  {
    forall a, b
      ensures StringLeq(a, b) || StringLeq(b, a)
      ensures StringLeq(a, b) && StringLeq(b, a) ==> a == b
    {
      StringLeqTotal(a, b);
    }
    forall a, b, c | StringLeq(a, b) && StringLeq(b, c) ensures StringLeq(a, c) {
      StringLeqTransitive(a, b, c);
    }
  }

  // ---- Lists without ties ----

  ghost predicate StrictlySorted<T>(s: seq<T>, leq: (T, T) -> bool) {
    forall i, j :: 0 <= i < j < |s| ==> leq(s[i], s[j]) && !leq(s[j], s[i])
  }

  /** No two items at different places are tied. */
  ghost predicate NoTies<T>(s: seq<T>, leq: (T, T) -> bool) {
    forall i, j :: 0 <= i < j < |s| ==> !leq(s[i], s[j]) || !leq(s[j], s[i])
  }

  lemma {:induction false} InsertKeepsStrict<T(!new)>(x: T, s: seq<T>, leq: (T, T) -> bool)
    requires TotalPreorder(leq) && StrictlySorted(s, leq)
    requires forall u :: u in s ==> !leq(u, x) || !leq(x, u)
    ensures StrictlySorted(Insert(x, s, leq), leq)
    ensures forall u :: u in Insert(x, s, leq) <==> u == x || u in s
  {
    if s != [] && !leq(x, s[0]) {
      InsertKeepsStrict(x, s[1..], leq);
      var rest := Insert(x, s[1..], leq);
      forall k | 0 <= k < |rest| ensures leq(s[0], rest[k]) && !leq(rest[k], s[0]) {
        assert rest[k] == x || rest[k] in s[1..];
      }
    } else if s != [] {
      forall k | 0 <= k < |s| ensures leq(x, s[k]) && !leq(s[k], x) {
        assert s[k] in s && (k == 0 || leq(s[0], s[k]));
      }
    }
  }

  lemma {:induction false} SortIsStrict<T(!new)>(s: seq<T>, leq: (T, T) -> bool)
    requires TotalPreorder(leq) && NoTies(s, leq)
    ensures StrictlySorted(Sort(s, leq), leq)
    ensures forall u :: u in Sort(s, leq) <==> u in s
  {
    if s != [] {
      SortIsStrict(s[1..], leq);
      InsertKeepsStrict(s[0], Sort(s[1..], leq), leq);
    }
  }

  lemma {:induction false} StrictHead<T>(a: seq<T>, u: T, leq: (T, T) -> bool)
    requires StrictlySorted(a, leq) && u in a
    ensures u == a[0] || !leq(u, a[0])
    ensures u != a[0] ==> u in a[1..]
    ensures a[0] !in a[1..]
  {
    var i :| 0 <= i < |a| && a[i] == u;
    if i > 0 {
      assert a[1..][i - 1] == u;
    }
  }

  lemma {:induction false} StrictHeadIsBelow<T>(a: seq<T>, u: T, leq: (T, T) -> bool)
    requires StrictlySorted(a, leq) && u in a
    ensures u == a[0] || leq(a[0], u)
  {
  }

  lemma {:induction false} HasMember<T>(a: seq<T>)
    ensures a == [] || exists u :: u in a
  {
    if a != [] {
      assert a[0] in a;
    }
  }

  /** Strictly sorted lists with the same members are the same list. */
  lemma {:induction false} StrictListIsUnique<T>(a: seq<T>, b: seq<T>, leq: (T, T) -> bool)
    requires StrictlySorted(a, leq) && StrictlySorted(b, leq)
    requires forall u :: u in a <==> u in b
    ensures a == b
  {
    if a == [] {
      HasMember(b);
    } else if b == [] {
      HasMember(a);
    } else {
      assert a[0] in a && b[0] in b;
      StrictHead(a, b[0], leq);
      StrictHead(b, a[0], leq);
      StrictHeadIsBelow(a, b[0], leq);
      forall u ensures u in a[1..] <==> u in b[1..] {
        if u in a { StrictHead(a, u, leq); }
        if u in b { StrictHead(b, u, leq); }
      }
      StrictListIsUnique(a[1..], b[1..], leq);
      assert a == [a[0]] + a[1..] && b == [b[0]] + b[1..];
    }
  }
}
