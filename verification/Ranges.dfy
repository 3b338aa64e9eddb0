/** A set of numbers kept as its maximal intervals, in order. */
module RangeSets {
  import opened Collections

  datatype Range = Range(first: nat, second: nat)

  predicate In(r: Range, x: nat) { r.first <= x < r.second }

  /** Intervals that are not empty, in order, and with a gap between any two. */
  predicate Normal(s: seq<Range>) {
    && (forall i :: 0 <= i < |s| ==> s[i].first < s[i].second)
    && (forall i, j :: 0 <= i < j < |s| ==> s[i].second < s[j].first)
  }

  predicate Member(s: seq<Range>, x: nat) { exists i :: 0 <= i < |s| && In(s[i], x) }

  lemma MemberConcat(a: seq<Range>, b: seq<Range>, x: nat)
    ensures Member(a + b, x) <==> Member(a, x) || Member(b, x)
  {
    if Member(a, x) {
      var i :| 0 <= i < |a| && In(a[i], x);
      assert (a + b)[i] == a[i];
    }
    if Member(b, x) {
      var i :| 0 <= i < |b| && In(b[i], x);
      assert (a + b)[|a| + i] == b[i];
    }
  }

  lemma MemberOne(r: Range, x: nat)
    ensures Member([r], x) <==> In(r, x)
  {
    assert [r][0] == r;
  }

  /** Intervals i to k are replaced by others. */
  function Spliced(s: seq<Range>, i: nat, k: nat, mid: seq<Range>): seq<Range>
    requires i <= k <= |s|
  {
    s[..i] + mid + s[k..]
  }

  lemma SplicedMember(s: seq<Range>, i: nat, k: nat, mid: seq<Range>, x: nat)
    requires i <= k <= |s|
    ensures Member(Spliced(s, i, k, mid), x) <==> Member(s[..i], x) || Member(mid, x) || Member(s[k..], x)
    ensures Member(s, x) <==> Member(s[..i], x) || Member(s[i..k], x) || Member(s[k..], x)
  {
    hide Member;
    MemberConcat(s[..i] + mid, s[k..], x);
    MemberConcat(s[..i], mid, x);
    MemberConcat(s[..i] + s[i..k], s[k..], x);
    MemberConcat(s[..i], s[i..k], x);
    assert s[..i] + s[i..k] + s[k..] == s;
  }

  /** Intervals i to k, each of which meets or touches r, make one interval with it. */
  lemma Merged(s: seq<Range>, r: Range, i: nat, k: nat, x: nat)
    requires Normal(s) && i < k <= |s| && r.first < r.second && s[i].first <= r.second && r.first <= s[i].second
    requires forall j :: i < j < k ==> s[j].first <= r.second
    ensures In(Range(Min(r.first, s[i].first), Max(r.second, s[k - 1].second)), x) <==> In(r, x) || Member(s[i..k], x)
  {
    var m := Range(Min(r.first, s[i].first), Max(r.second, s[k - 1].second));
    assert s[i..k][0] == s[i] && s[i..k][k - 1 - i] == s[k - 1];
    if In(m, x) && !In(r, x) {
      assert In(s[i], x) || In(s[k - 1], x);
    }
    if Member(s[i..k], x) {
      var j :| 0 <= j < k - i && In(s[i..k][j], x);
      assert s[i..k][j] == s[i + j];
    }
  }

  lemma NormalConcat(a: seq<Range>, b: seq<Range>)
    requires Normal(a) && Normal(b) && (a != [] && b != [] ==> a[|a| - 1].second < b[0].first)
    ensures Normal(a + b)
  {
    forall x, y | 0 <= x < y < |a + b| ensures (a + b)[x].second < (a + b)[y].first {
      if x < |a| <= y {
        assert a[x].second <= a[|a| - 1].second && b[0].first <= b[y - |a|].first;
      }
    }
  }

  /** Some intervals between others, which end before them and begin after them. */
  lemma SplicedNormal(s: seq<Range>, i: nat, k: nat, mid: seq<Range>)
    requires Normal(s) && i <= k <= |s| && Normal(mid)
    requires mid != [] && i > 0 ==> s[i - 1].second < mid[0].first
    requires mid != [] && k < |s| ==> mid[|mid| - 1].second < s[k].first
    ensures Normal(Spliced(s, i, k, mid))
  {
    hide Normal;
    NormalParts(s, i, k);
    if mid == [] {
      Before(s, i, k);
      assert s[..i] + mid == s[..i];
      NormalConcat(s[..i], s[k..]);
    } else {
      NormalConcat(s[..i], mid);
      assert (s[..i] + mid)[|s[..i] + mid| - 1] == mid[|mid| - 1];
      NormalConcat(s[..i] + mid, s[k..]);
    }
  }

  lemma NormalParts(s: seq<Range>, i: nat, k: nat)
    requires Normal(s) && i <= k <= |s|
    ensures Normal(s[..i]) && Normal(s[k..])
  {
  }

  lemma Before(s: seq<Range>, i: nat, k: nat)
    requires Normal(s) && i <= k <= |s|
    ensures 0 < i && k < |s| ==> s[i - 1].second < s[k].first
  {
  }

  class Ranges {
    var items: seq<Range>

    ghost predicate Valid() reads this { Normal(items) }

    ghost predicate Contains(x: nat) reads this { Member(items, x) }

    constructor ()
      ensures Valid() && items == []
    {
      items := [];
    }

    /** The first interval that ends after x. */
    method Find(x: nat) returns (i: nat)
      requires Valid()
      ensures i <= |items| && (i < |items| ==> x < items[i].second)
      ensures forall j :: 0 <= j < i ==> items[j].second <= x
      ensures Contains(x) <==> i < |items| && items[i].first <= x
    {
      i := 0;
      while i < |items| && items[i].second <= x
        invariant i <= |items| && forall j :: 0 <= j < i ==> items[j].second <= x
      {
        i := i + 1;
      }
      if i < |items| && items[i].first <= x { assert In(items[i], x); }
    }

    /** Nothing between x and the first interval that ends after it, and nothing after the last. */
    lemma Gap(i: nat, x: nat)
      requires Valid() && i <= |items| && forall j :: 0 <= j < i ==> items[j].second <= x
      ensures i == |items| ==> forall y :: x <= y ==> !Contains(y)
      ensures i < |items| ==> (forall y :: x <= y < items[i].first ==> !Contains(y)) && Contains(items[i].first)
    {
      if i < |items| { assert In(items[i], items[i].first); }
    }

    method Has(x: nat) returns (r: bool)
      requires Valid()
      ensures r == Contains(x)
    {
      var i := Find(x);
      r := i < |items| && x >= items[i].first;
    }

    /** The first interval that ends at or after x. */
    method Touching(x: nat) returns (i: nat)
      ensures i <= |items| && (i < |items| ==> x <= items[i].second) && forall j :: 0 <= j < i ==> items[j].second < x
    {
      i := 0;
      while i < |items| && items[i].second < x
        invariant i <= |items| && forall j :: 0 <= j < i ==> items[j].second < x
      {
        i := i + 1;
      }
    }

    /** After interval i, the first that ends after x. */
    method Beyond(i: nat, x: nat) returns (k: nat)
      requires i < |items|
      ensures i < k <= |items| && (k < |items| ==> x < items[k].second)
              && forall j :: i < j < k ==> items[j].second <= x
    {
      k := i + 1;
      while k < |items| && items[k].second <= x
        invariant i < k <= |items| && forall j :: i < j < k ==> items[j].second <= x
      {
        k := k + 1;
      }
    }

    method Insert(r: Range)
      requires Valid()
      modifies this
      ensures Valid() && forall x :: Contains(x) <==> old(Contains(x)) || In(r, x)
    {
      hide Normal, Member, In;
      if r.first >= r.second {
        EmptyRange(r);
        return;
      }
      var i := Touching(r.first);
      if i == |items| || r.second < items[i].first {
        InsertedHere(items, i, r);
        items := items[..i] + [r] + items[i..];
      } else {
        var m := Range(Min(r.first, items[i].first), Max(r.second, items[i].second));
        var k := Beyond(i, m.second);
        SwallowedBy(items, i, k, r);
        if k < |items| && m.second >= items[k].first {
          m := Range(m.first, items[k].second);
          k := k + 1;
        }
        MergedHere(items, i, k, r);
        items := items[..i] + [m] + items[k..];
      }
    }

    /** The first interval that ends after r begins, and from there the first that ends after r does. */
    method Bounds(r: Range) returns (f: nat, l: nat)
      ensures f <= l <= |items|
      ensures (forall j :: 0 <= j < f ==> items[j].second <= r.first) && (f < |items| ==> r.first < items[f].second)
      ensures (forall j :: f <= j < l ==> items[j].second <= r.second) && (l < |items| ==> r.second < items[l].second)
    {
      f := 0;
      while f < |items| && items[f].second <= r.first
        invariant f <= |items| && forall j :: 0 <= j < f ==> items[j].second <= r.first
      {
        f := f + 1;
      }
      l := f;
      while l < |items| && items[l].second <= r.second
        invariant f <= l <= |items| && forall j :: f <= j < l ==> items[j].second <= r.second
      {
        l := l + 1;
      }
    }

    method Erase(r: Range)
      requires Valid()
      modifies this
      ensures Valid() && forall x :: Contains(x) <==> old(Contains(x)) && !In(r, x)
    {
      hide Normal, Member, In;
      if r.first >= r.second {
        EmptyRange(r);
        return;
      }
      var f, l := Bounds(r);
      ErasedHere(items, f, l, r);
      WithoutIs(items, f, l, r);
      hide Without;
      if f == |items| { return; }
      if f == l {
        if r.first > items[f].first {
          items := items[..f] + [Range(items[f].first, r.first), Range(r.second, items[f].second)] + items[f + 1..];
        } else if r.second > items[f].first {
          items := items[f := Range(r.second, items[f].second)];
        }
      } else {
        var begin := f;
        if r.first > items[f].first {
          items := items[f := Range(items[f].first, r.first)];
          begin := f + 1;
        }
        if l < |items| && r.second > items[l].first { items := items[l := Range(r.second, items[l].second)]; }
        items := items[..begin] + items[l..];
      }
    }
  }

  /** The same, by changing intervals in place where they stay. */
  lemma WithoutIs(s: seq<Range>, f: nat, l: nat, r: Range)
    requires f <= l <= |s| && r.first < r.second && (l < |s| ==> r.second < s[l].second)
    ensures f == |s| ==> Without(s, f, l, r) == s
    ensures f == l < |s| ==>
              Without(s, f, l, r) ==
                if r.first > s[f].first then
                  s[..f] + [Range(s[f].first, r.first), Range(r.second, s[f].second)] + s[f + 1..]
                else if r.second > s[f].first then s[f := Range(r.second, s[f].second)] else s
    ensures f < l ==>
              var s1 := if r.first > s[f].first then s[f := Range(s[f].first, r.first)] else s;
              var s2 := if l < |s| && r.second > s[l].first then s1[l := Range(r.second, s[l].second)] else s1;
              Without(s, f, l, r) == s2[..if r.first > s[f].first then f + 1 else f] + s2[l..]
  {
    if f < l { WithoutSome(s, f, l, r); } else if f < |s| { WithoutOne(s, f, r); }
    hide Left, Right;
  }

  lemma WithoutOne(s: seq<Range>, f: nat, r: Range)
    requires f < |s| && r.first < r.second < s[f].second
    ensures Without(s, f, f, r) ==
              if r.first > s[f].first then
                s[..f] + [Range(s[f].first, r.first), Range(r.second, s[f].second)] + s[f + 1..]
              else if r.second > s[f].first then s[f := Range(r.second, s[f].second)] else s
  {
  }

  lemma WithoutSome(s: seq<Range>, f: nat, l: nat, r: Range)
    requires f < l <= |s| && r.first < r.second && (l < |s| ==> r.second < s[l].second)
    ensures var s1 := if r.first > s[f].first then s[f := Range(s[f].first, r.first)] else s;
            var s2 := if l < |s| && r.second > s[l].first then s1[l := Range(r.second, s[l].second)] else s1;
            Without(s, f, l, r) == s2[..if r.first > s[f].first then f + 1 else f] + s2[l..]
  {
    var s1 := if r.first > s[f].first then s[f := Range(s[f].first, r.first)] else s;
    var s2 := if l < |s| && r.second > s[l].first then s1[l := Range(r.second, s[l].second)] else s1;
    ChangedHead(s, s1, f, l, Left(s, f, r));
    ChangedTail(s1, s2, f, l, Right(s, l, r));
    Grouped(s[..f], Left(s, f, r), Right(s, l, r), s[l + |Right(s, l, r)|..]);
  }

  /** s1 is s with interval f replaced, or the same. */
  lemma ChangedHead(s: seq<Range>, s1: seq<Range>, f: nat, l: nat, left: seq<Range>)
    requires f < l <= |s| && if left == [] then s1 == s else left == [left[0]] && s1 == s[f := left[0]]
    ensures s1[..f + |left|] == s[..f] + left && |s1| == |s| && s1[l..] == s[l..]
  {
  }

  lemma ChangedTail(s1: seq<Range>, s2: seq<Range>, f: nat, l: nat, right: seq<Range>)
    requires f < l <= |s1|
    requires if right == [] then s2 == s1 else l < |s1| && right == [right[0]] && s2 == s1[l := right[0]]
    ensures |s2| == |s1| && s2[..f] == s1[..f] && s2[..f + 1] == s1[..f + 1]
    ensures s2[l..] == right + s1[l..][|right|..]
  {
  }

  lemma Grouped(a: seq<Range>, b: seq<Range>, c: seq<Range>, d: seq<Range>)
    ensures (a + b) + (c + d) == a + (b + c) + d
  {
  }

  /** What is left of interval f before r, and of interval l after r. */
  function Left(s: seq<Range>, f: nat, r: Range): seq<Range>
  {
    if f < |s| && r.first > s[f].first then [Range(s[f].first, r.first)] else []
  }

  function Right(s: seq<Range>, l: nat, r: Range): seq<Range>
  {
    if l < |s| && r.second > s[l].first then [Range(r.second, s[l].second)] else []
  }

  /** The intervals without r, which begins before the end of f and ends before that of l. */
  function Without(s: seq<Range>, f: nat, l: nat, r: Range): seq<Range>
    requires f <= l <= |s|
  {
    Spliced(s, f, l + |Right(s, l, r)|, Left(s, f, r) + Right(s, l, r))
  }

  lemma ErasedHere(s: seq<Range>, f: nat, l: nat, r: Range)
    requires Normal(s) && r.first < r.second && f <= l <= |s|
    requires forall j :: 0 <= j < f ==> s[j].second <= r.first
    requires f < |s| ==> r.first < s[f].second
    requires forall j :: f <= j < l ==> s[j].second <= r.second
    requires l < |s| ==> r.second < s[l].second
    ensures Normal(Without(s, f, l, r)) && forall x :: Member(Without(s, f, l, r), x) <==> Member(s, x) && !In(r, x)
  {
    hide Normal, Member;
    var k := l + |Right(s, l, r)|;
    var mid := Left(s, f, r) + Right(s, l, r);
    ErasedNormal(s, f, l, r);
    forall x ensures Member(Without(s, f, l, r), x) <==> Member(s, x) && !In(r, x) {
      SplicedMember(s, f, k, mid, x);
      ErasedMember(s, f, l, r, x);
    }
  }

  lemma ErasedNormal(s: seq<Range>, f: nat, l: nat, r: Range)
    requires Normal(s) && r.first < r.second && f <= l <= |s|
    requires f < |s| ==> r.first < s[f].second
    requires l < |s| ==> r.second < s[l].second
    ensures Normal(Without(s, f, l, r))
  {
    hide Normal, Left, Right, Spliced;
    var k := l + |Right(s, l, r)|;
    var mid := Left(s, f, r) + Right(s, l, r);
    MidNormal(s, f, l, r);
    SplicedNormal(s, f, k, mid);
  }

  lemma MidNormal(s: seq<Range>, f: nat, l: nat, r: Range)
    requires Normal(s) && r.first < r.second && f <= l <= |s|
    requires f < |s| ==> r.first < s[f].second
    requires l < |s| ==> r.second < s[l].second
    ensures var k := l + |Right(s, l, r)|; var mid := Left(s, f, r) + Right(s, l, r);
            && Normal(mid) && k <= |s|
            && (mid != [] && f > 0 ==> s[f - 1].second < mid[0].first)
            && (mid != [] && k < |s| ==> mid[|mid| - 1].second < s[k].first)
  {
    hide Normal, Left, Right;
    LeftNormal(s, f, l, r);
    RightNormal(s, f, l, r);
    if Left(s, f, r) == [] {
      assert Left(s, f, r) + Right(s, l, r) == Right(s, l, r);
    } else if Right(s, l, r) == [] {
      assert Left(s, f, r) + Right(s, l, r) == Left(s, f, r);
    } else {
      NormalConcat(Left(s, f, r), Right(s, l, r));
    }
  }

  lemma LeftNormal(s: seq<Range>, f: nat, l: nat, r: Range)
    requires Normal(s) && r.first < r.second && f <= l <= |s|
    requires f < |s| ==> r.first < s[f].second
    requires l < |s| ==> r.second < s[l].second
    ensures var left := Left(s, f, r);
            && Normal(left) && |left| <= 1
            && (left != [] ==> left[0].second == r.first && (f > 0 ==> s[f - 1].second < left[0].first))
            && (left != [] && l < |s| && Right(s, l, r) == [] ==> r.first < s[l].first)
  {
    if f > 0 { Before(s, f, f); }
    hide Normal;
    NormalOne(Range(if f < |s| then s[f].first else 0, r.first));
  }

  lemma RightNormal(s: seq<Range>, f: nat, l: nat, r: Range)
    requires Normal(s) && r.first < r.second && f <= l <= |s|
    requires l < |s| ==> r.second < s[l].second
    ensures var right := Right(s, l, r);
            && Normal(right) && |right| <= 1 && l + |right| <= |s|
            && (right != [] ==> right[0].first == r.second && (f > 0 ==> s[f - 1].second < r.second))
            && (right != [] && l + 1 < |s| ==> right[0].second < s[l + 1].first)
  {
    Before(s, f, l);
    if l < |s| { Before(s, l + 1, l + 1); }
    hide Normal;
    NormalOne(Range(r.second, if l < |s| then s[l].second else 0));
  }

  lemma NormalOne(a: Range)
    ensures Normal([]) && (a.first < a.second ==> Normal([a]))
  {
  }

  /** The intervals before f, and those after what r meets, have nothing in common with it. */
  lemma OutsideErased(s: seq<Range>, f: nat, l: nat, r: Range, x: nat)
    requires Normal(s) && r.first < r.second && f <= l <= |s|
    requires forall j :: 0 <= j < f ==> s[j].second <= r.first
    requires l < |s| ==> r.second < s[l].second
    ensures Member(s[..f], x) || Member(s[l + |Right(s, l, r)|..], x) ==> !In(r, x)
  {
    var k := l + |Right(s, l, r)|;
    if Member(s[k..], x) {
      var j :| 0 <= j < |s[k..]| && In(s[k..][j], x);
      assert s[k..][j] == s[k + j];
      assert r.second <= s[k + j].first;
    }
  }

  /** What r leaves of interval f and of interval l is theirs, and not its own. */
  lemma LeftErased(s: seq<Range>, f: nat, r: Range, x: nat)
    requires f < |s| ==> r.first < s[f].second
    ensures Member(Left(s, f, r), x) <==> f < |s| && In(s[f], x) && x < r.first
  {
    hide Member;
    if f < |s| && r.first > s[f].first { MemberOne(Range(s[f].first, r.first), x); } else { MemberNone(x); }
  }

  lemma RightErased(s: seq<Range>, l: nat, r: Range, x: nat)
    requires l < |s| ==> r.second < s[l].second
    ensures Member(Right(s, l, r), x) <==> l < |s| && r.second > s[l].first && In(s[l], x) && r.second <= x
  {
    hide Member;
    if l < |s| && r.second > s[l].first { MemberOne(Range(r.second, s[l].second), x); } else { MemberNone(x); }
  }

  lemma MemberNone(x: nat)
    ensures !Member([], x)
  {
  }

  lemma ErasedMember(s: seq<Range>, f: nat, l: nat, r: Range, x: nat)
    requires Normal(s) && r.first < r.second && f <= l <= |s|
    requires forall j :: 0 <= j < f ==> s[j].second <= r.first
    requires f < |s| ==> r.first < s[f].second
    requires forall j :: f <= j < l ==> s[j].second <= r.second
    requires l < |s| ==> r.second < s[l].second
    ensures var k := l + |Right(s, l, r)|;
            && (Member(s[..f], x) || Member(s[k..], x) ==> !In(r, x))
            && (Member(Left(s, f, r) + Right(s, l, r), x) <==> Member(s[f..k], x) && !In(r, x))
  {
    var k := l + |Right(s, l, r)|;
    OutsideErased(s, f, l, r, x);
    MemberConcat(Left(s, f, r), Right(s, l, r), x);
    LeftErased(s, f, r, x);
    RightErased(s, l, r, x);
    if Member(s[f..k], x) && !In(r, x) { InsideErased(s, f, l, k, r, x); }
    hide Normal, Left;
    if Member(Left(s, f, r), x) && f < k { assert s[f..k][0] == s[f]; }
    if Member(Right(s, l, r), x) { assert s[f..k][l - f] == s[l]; }
  }

  /** What is left of the intervals that r meets is at the two ends. */
  lemma InsideErased(s: seq<Range>, f: nat, l: nat, k: nat, r: Range, x: nat)
    requires Normal(s) && f <= l <= k <= |s| && k <= l + 1 && Member(s[f..k], x) && !In(r, x)
    requires f < |s| ==> r.first < s[f].second
    requires forall j :: f <= j < l ==> s[j].second <= r.second
    ensures f < |s| && if x < r.first then In(s[f], x) else k == l + 1 && In(s[l], x)
  {
    var j :| 0 <= j < k - f && In(s[f..k][j], x);
    assert s[f..k][j] == s[f + j];
    if x < r.first { assert j == 0; } else { assert f + j == l; }
  }

  lemma EmptyRange(r: Range)
    requires r.first >= r.second
    ensures forall x :: !In(r, x)
  {
  }

  /** Which intervals make one with r: those up to k, and k as well if r reaches it. */
  lemma SwallowedBy(s: seq<Range>, i: nat, k: nat, r: Range)
    requires Normal(s) && i < k <= |s| && r.first <= s[i].second && s[i].first <= r.second
    requires forall j :: i < j < k ==> s[j].second <= Max(r.second, s[i].second)
    requires k < |s| ==> Max(r.second, s[i].second) < s[k].second
    ensures forall j :: i < j < k ==> s[j].first <= r.second
    ensures Max(r.second, s[i].second) == Max(r.second, s[k - 1].second)
    ensures k < |s| && Max(r.second, s[i].second) >= s[k].first ==>
              s[k].first <= r.second < s[k].second && (k + 1 < |s| ==> r.second < s[k + 1].first)
    ensures k < |s| && Max(r.second, s[i].second) < s[k].first ==> r.second < s[k].first
  {
    assert forall j :: i < j < |s| ==> s[i].second < s[j].first < s[j].second;
    if k < |s| && k + 1 < |s| { assert s[k].second < s[k + 1].first; }
  }

  lemma InsertedHere(s: seq<Range>, i: nat, r: Range)
    requires Normal(s) && i <= |s| && r.first < r.second
    requires forall j :: 0 <= j < i ==> s[j].second < r.first
    requires i < |s| ==> r.second < s[i].first
    ensures Normal(Spliced(s, i, i, [r])) && forall x :: Member(Spliced(s, i, i, [r]), x) <==> Member(s, x) || In(r, x)
  {
    SplicedNormal(s, i, i, [r]);
    forall x ensures Member(Spliced(s, i, i, [r]), x) <==> Member(s, x) || In(r, x) {
      SplicedMember(s, i, i, [r], x);
      MemberOne(r, x);
    }
  }

  lemma MergedHere(s: seq<Range>, i: nat, k: nat, r: Range)
    requires Normal(s) && i < k <= |s| && r.first < r.second && s[i].first <= r.second && r.first <= s[i].second
    requires forall j :: 0 <= j < i ==> s[j].second < r.first
    requires forall j :: i < j < k ==> s[j].first <= r.second
    requires k < |s| ==> r.second < s[k].first
    ensures var m := Range(Min(r.first, s[i].first), Max(r.second, s[k - 1].second)); var t := Spliced(s, i, k, [m]);
            Normal(t) && forall x :: Member(t, x) <==> Member(s, x) || In(r, x)
  {
    var m := Range(Min(r.first, s[i].first), Max(r.second, s[k - 1].second));
    SplicedNormal(s, i, k, [m]);
    forall x ensures Member(Spliced(s, i, k, [m]), x) <==> Member(s, x) || In(r, x) {
      SplicedMember(s, i, k, [m], x);
      MemberOne(m, x);
      Merged(s, r, i, k, x);
    }
  }
}
