/**
  `records.sort_by_key(|r| r.birthdate)`: a stable sort of the records by their
  `Option<NaiveDate>` key, where `None` comes before every date.
*/
module Sorting {
  import opened Results
  import opened Calendar
  import opened Reminder

  /** The ordering of `Option<NaiveDate>` keys: `None` first, then dates in calendar order. */
  predicate KeyLe(a: Option<NaiveDate>, b: Option<NaiveDate>) {
    match a
    case None => true
    case Some(x) => b.Some? && NotAfter(x, b.value)
  }

  lemma KeyLeTotal(a: Option<NaiveDate>, b: Option<NaiveDate>)
    ensures KeyLe(a, b) || KeyLe(b, a)
    ensures KeyLe(a, b) && KeyLe(b, a) ==> a == b
  {
  }

  lemma KeyLeTransitive(a: Option<NaiveDate>, b: Option<NaiveDate>, c: Option<NaiveDate>)
    requires KeyLe(a, b) && KeyLe(b, c)
    ensures KeyLe(a, c)
  {
  }

  /** Non-decreasing by birthdate. */
  ghost predicate Sorted(s: seq<Record>) {
    forall i, j :: 0 <= i < j < |s| ==> KeyLe(s[i].birthdate, s[j].birthdate)
  }

  /** The records of `s` whose key is `k`, in the order of `s`. */
  function WithKey(s: seq<Record>, k: Option<NaiveDate>): seq<Record>
  {
    if s == [] then []
    else WithKey(s[..|s| - 1], k) + (if s[|s| - 1].birthdate == k then [s[|s| - 1]] else [])
  }

  /** Stable: records with equal keys keep their relative order. */
  ghost predicate SameOrderPerKey(s: seq<Record>, t: seq<Record>) {
    forall k :: WithKey(s, k) == WithKey(t, k)
  }

  /** Put `x` after the last record of `s` whose key is not greater than its own. */
  function Insert(s: seq<Record>, x: Record): seq<Record>
  {
    if s == [] || KeyLe(s[|s| - 1].birthdate, x.birthdate) then s + [x]
    else Insert(s[..|s| - 1], x) + [s[|s| - 1]]
  }

  /** The stable sort by birthdate: insert the records one by one, in order. */
  function SortByBirthdate(s: seq<Record>): seq<Record>
  {
    if s == [] then [] else Insert(SortByBirthdate(s[..|s| - 1]), s[|s| - 1])
  }

  lemma {:induction false} InsertPermutes(s: seq<Record>, x: Record)
    ensures multiset(Insert(s, x)) == multiset(s) + multiset{x}
  {
    if s != [] && !KeyLe(s[|s| - 1].birthdate, x.birthdate) {
      InsertPermutes(s[..|s| - 1], x);
      assert s == s[..|s| - 1] + [s[|s| - 1]];
    }
  }

  lemma {:induction false} InsertSorted(s: seq<Record>, x: Record)
    requires Sorted(s)
    ensures Sorted(Insert(s, x))
  {
    if s != [] {
      var last := s[|s| - 1];
      if KeyLe(last.birthdate, x.birthdate) {
        forall i | 0 <= i < |s| ensures KeyLe(s[i].birthdate, x.birthdate) {
          if i < |s| - 1 { KeyLeTransitive(s[i].birthdate, last.birthdate, x.birthdate); }
        }
      } else {
        var init := s[..|s| - 1];
        InsertSorted(init, x);
        InsertPermutes(init, x);
        KeyLeTotal(last.birthdate, x.birthdate);
        var t := Insert(init, x);
        forall i | 0 <= i < |t| ensures KeyLe(t[i].birthdate, last.birthdate) {
          assert t[i] in multiset(init) + multiset{x};
          if t[i] != x {
            var j :| 0 <= j < |init| && init[j] == t[i];
          }
        }
      }
    }
  }

  lemma {:induction false} WithKeyAppend(a: seq<Record>, b: seq<Record>, k: Option<NaiveDate>)
    ensures WithKey(a + b, k) == WithKey(a, k) + WithKey(b, k)
    decreases |b|
  {
    if b == [] {
      assert a + b == a;
    } else {
      var b' := b[..|b| - 1];
      assert (a + b)[..|a + b| - 1] == a + b';
      assert (a + b)[|a + b| - 1] == b[|b| - 1];
      WithKeyAppend(a, b', k);
    }
  }

  lemma {:induction false} InsertKeepsKeyOrder(s: seq<Record>, x: Record, k: Option<NaiveDate>)
    ensures WithKey(Insert(s, x), k) == WithKey(s, k) + WithKey([x], k)
  {
    if s == [] || KeyLe(s[|s| - 1].birthdate, x.birthdate) {
      WithKeyAppend(s, [x], k);
    } else {
      var init, last := s[..|s| - 1], s[|s| - 1];
      InsertKeepsKeyOrder(init, x, k);
      WithKeyAppend(Insert(init, x), [last], k);
      assert s == init + [last];
      WithKeyAppend(init, [last], k);
      assert WithKey([x], k) == (if x.birthdate == k then [x] else []) by {
        assert [x][..0] == [];
      }
      assert WithKey([last], k) == (if last.birthdate == k then [last] else []) by {
        assert [last][..0] == [];
      }
      assert last.birthdate != x.birthdate by {
        KeyLeTotal(last.birthdate, x.birthdate);
      }
    }
  }

  /** The sort's result is non-decreasing by birthdate. */
  lemma {:induction false} SortSorts(s: seq<Record>)
    ensures Sorted(SortByBirthdate(s))
  {
    if s != [] {
      SortSorts(s[..|s| - 1]);
      InsertSorted(SortByBirthdate(s[..|s| - 1]), s[|s| - 1]);
    }
  }

  /** The sort's result holds the same records, as many times each. */
  lemma {:induction false} SortPermutes(s: seq<Record>)
    ensures multiset(SortByBirthdate(s)) == multiset(s)
  {
    if s != [] {
      var init, last := s[..|s| - 1], s[|s| - 1];
      SortPermutes(init);
      InsertPermutes(SortByBirthdate(init), last);
      assert s == init + [last];
      assert multiset(s) == multiset(init) + multiset{last};
    }
  }

  /** The sort is stable: records with the same birthdate keep their relative order. */
  lemma {:induction false} SortIsStable(s: seq<Record>)
    ensures SameOrderPerKey(SortByBirthdate(s), s)
  {
    if s != [] {
      var init, last := s[..|s| - 1], s[|s| - 1];
      SortIsStable(init);
      forall k ensures WithKey(SortByBirthdate(s), k) == WithKey(s, k) {
        InsertKeepsKeyOrder(SortByBirthdate(init), last, k);
        assert WithKey([last], k) == (if last.birthdate == k then [last] else []) by {
          assert [last][..0] == [];
        }
      }
    }
  }

  lemma {:induction false} WithKeyMembers(s: seq<Record>, k: Option<NaiveDate>, x: Record)
    ensures x in WithKey(s, k) <==> x in s && x.birthdate == k
  {
    if s != [] {
      WithKeyMembers(s[..|s| - 1], k, x);
      assert s == s[..|s| - 1] + [s[|s| - 1]];
    }
  }

  /** The last record of a sorted sequence has the greatest key. */
  lemma LastIsGreatest(s: seq<Record>, x: Record)
    requires Sorted(s) && x in s
    ensures KeyLe(x.birthdate, s[|s| - 1].birthdate)
  {
  }

  /**
    A stable sort has only one possible result: two sorted sequences that hold the records
    of each key in the same order are equal. So whatever algorithm `sort_by_key` runs, its
    result is `SortByBirthdate` of its input.
  */
  lemma {:induction false} StableSortIsUnique(t: seq<Record>, u: seq<Record>)
    requires Sorted(t) && Sorted(u) && SameOrderPerKey(t, u)
    ensures t == u
    decreases |t|
  {
    if t == [] || u == [] {
      if t != [] {
        var x := t[|t| - 1];
        WithKeyMembers(t, x.birthdate, x);
        WithKeyMembers(u, x.birthdate, x);
      } else if u != [] {
        var x := u[|u| - 1];
        WithKeyMembers(t, x.birthdate, x);
        WithKeyMembers(u, x.birthdate, x);
      }
    } else {
      var t', lt := t[..|t| - 1], t[|t| - 1];
      var u', lu := u[..|u| - 1], u[|u| - 1];
      WithKeyMembers(t, lt.birthdate, lt);
      WithKeyMembers(u, lt.birthdate, lt);
      WithKeyMembers(t, lu.birthdate, lu);
      WithKeyMembers(u, lu.birthdate, lu);
      LastIsGreatest(u, lt);
      LastIsGreatest(t, lu);
      KeyLeTotal(lt.birthdate, lu.birthdate);
      var key := lt.birthdate;
      assert WithKey(t, key) == WithKey(t', key) + [lt];
      assert WithKey(u, key) == WithKey(u', key) + [lu];
      assert lt.birthdate == lu.birthdate;
      var wt, wu := WithKey(t', key), WithKey(u', key);
      assert WithKey(t, key) == WithKey(u, key);
      assert (wt + [lt])[..|wt|] == wt && (wu + [lu])[..|wu|] == wu;
      assert |wt| == |wu|;
      assert wt == wu && lt == lu;
      forall k ensures WithKey(t', k) == WithKey(u', k) {
        assert WithKey(t, k) == WithKey(u, k);
        if k != key {
          assert WithKey(t, k) == WithKey(t', k);
          assert WithKey(u, k) == WithKey(u', k);
        }
      }
      StableSortIsUnique(t', u');
      assert t == t' + [lt] && u == u' + [lu];
    }
  }

  /** Any sorted, stable rearrangement of `s` is `SortByBirthdate(s)`. */
  lemma StableSortSpec(s: seq<Record>, t: seq<Record>)
    requires Sorted(t) && SameOrderPerKey(t, s)
    ensures t == SortByBirthdate(s)
  {
    SortSorts(s);
    SortIsStable(s);
    StableSortIsUnique(t, SortByBirthdate(s));
  }

  /** `records.sort_by_key(|r| r.birthdate)` in place, as an insertion sort. */
  method SortRecords(a: array<Record>)
    modifies a
    ensures a[..] == SortByBirthdate(old(a[..]))
  {
    ghost var input := a[..];
    for i := 0 to a.Length
      invariant a[..i] == SortByBirthdate(input[..i])
      invariant a[i..] == input[i..]
    {
      ghost var before := a[..];
      assert before[i] == input[i];
      InsertAt(a, i);
      assert input[..i + 1][..i] == input[..i] && input[..i + 1][i] == input[i];
      assert SortByBirthdate(input[..i + 1]) == Insert(SortByBirthdate(input[..i]), input[i]);
      assert a[i + 1..] == before[i + 1..] == input[i + 1..];
    }
    assert input[..a.Length] == input;
  }

  /** One step of the insertion: `x` goes before `s[j - 1]`, whose key is greater. */
  lemma InsertStep(s: seq<Record>, x: Record, j: nat)
    requires 0 < j <= |s| && !KeyLe(s[j - 1].birthdate, x.birthdate)
    ensures Insert(s[..j], x) + s[j..] == Insert(s[..j - 1], x) + s[j - 1..]
  {
    assert s[..j][..j - 1] == s[..j - 1];
    assert s[j - 1..] == [s[j - 1]] + s[j..];
  }

  /** Where the insertion stops: `x` goes after `s[j - 1]`, or first. */
  lemma InsertStop(s: seq<Record>, x: Record, j: nat)
    requires j <= |s| && (j == 0 || KeyLe(s[j - 1].birthdate, x.birthdate))
    ensures Insert(s[..j], x) == s[..j] + [x]
  {
  }

  /** Moves `a[i]` left past the records with a greater key: `a[..i + 1]` becomes `Insert(a[..i], a[i])`. */
  method InsertAt(a: array<Record>, i: nat)
    requires i < a.Length
    modifies a
    ensures a[..i + 1] == Insert(old(a[..i]), old(a[i]))
    ensures a[i + 1..] == old(a[i + 1..])
  {
    var x := a[i];
    ghost var sorted := a[..i];
    var j := ShiftGreater(a, i, x);
    a[j] := x;
    assert a[..i + 1] == sorted[..j] + [x] + sorted[j..];
    assert a[i + 1..] == old(a[i + 1..]);
  }

  /**
    Shifts `a[j..i]` one place right, for the longest such run of records whose key is greater
    than `x`'s, so that `x` belongs at `j`.
  */
  method ShiftGreater(a: array<Record>, i: nat, x: Record) returns (j: nat)
    requires i < a.Length
    modifies a
    ensures j <= i
    ensures forall k :: 0 <= k < j ==> a[k] == old(a[k])
    ensures forall k :: j < k <= i ==> a[k] == old(a[k - 1])
    ensures forall k :: i < k < a.Length ==> a[k] == old(a[k])
    ensures Insert(old(a[..i]), x) == old(a[..i])[..j] + [x] + old(a[..i])[j..]
  {
    ghost var sorted := a[..i];
    j := i;
    assert sorted[..i] == sorted && sorted[i..] == [];
    assert Insert(sorted, x) + [] == Insert(sorted, x);
    while j > 0 && !KeyLe(a[j - 1].birthdate, x.birthdate)
      invariant 0 <= j <= i
      invariant forall k :: 0 <= k < j ==> a[k] == old(a[k])
      invariant forall k :: j < k <= i ==> a[k] == old(a[k - 1])
      invariant forall k :: i < k < a.Length ==> a[k] == old(a[k])
      invariant Insert(sorted, x) == Insert(sorted[..j], x) + sorted[j..]
    {
      assert a[j - 1] == sorted[j - 1];
      InsertStep(sorted, x, j);
      a[j] := a[j - 1];
      j := j - 1;
    }
    assert j > 0 ==> a[j - 1] == sorted[j - 1];
    InsertStop(sorted, x, j);
  }
}
