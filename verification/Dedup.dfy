/** pkg/mapper/mapper.go:300-305, 361-368: appending what is not there yet. */
module Dedup {

  function AddOnce<T(==)>(s: seq<T>, e: T): seq<T> { if e in s then s else s + [e] }

  /** `xs` appended one by one. */
  function AddAll<T(==)>(s: seq<T>, xs: seq<T>): seq<T>
    decreases xs
  {
    if xs == [] then s else AddAll(AddOnce(s, xs[0]), xs[1..])
  }

  function Distinct<T(==)>(xs: seq<T>): seq<T> { AddAll([], xs) }

  /** appendIfNotExists */
  method AppendIfNotExists<T(==)>(s: seq<T>, e: T) returns (r: seq<T>)
    ensures r == AddOnce(s, e)
  {
    for i := 0 to |s|
      invariant e !in s[..i]
    {
      if s[i] == e {
        return s;
      }
      assert s[..i + 1] == s[..i] + [s[i]];
    }
    assert s[..|s|] == s;
    return s + [e];
  }

  /** prepareElasticField */
  method PrepareElasticField<T(==)>(elasticField: seq<T>, annIDs: seq<T>) returns (r: seq<T>)
    ensures r == AddAll(elasticField, annIDs)
  {
    r := elasticField;
    for i := 0 to |annIDs|
      invariant AddAll(r, annIDs[i..]) == AddAll(elasticField, annIDs)
    {
      r := AppendIfNotExists(r, annIDs[i]);
    }
  }

  lemma {:induction false} AddAllConcat<T>(s: seq<T>, xs: seq<T>, ys: seq<T>)
    ensures AddAll(s, xs + ys) == AddAll(AddAll(s, xs), ys)
    decreases xs
  {
    if xs == [] {
      assert xs + ys == ys;
    } else {
      assert (xs + ys)[0] == xs[0] && (xs + ys)[1..] == xs[1..] + ys;
      AddAllConcat(AddOnce(s, xs[0]), xs[1..], ys);
    }
  }

  lemma AddAllOne<T>(s: seq<T>, e: T)
    ensures AddAll(s, [e]) == AddOnce(s, e)
  {
    assert [e][1..] == [];
  }

  lemma DistinctSnoc<T>(xs: seq<T>, e: T)
    ensures Distinct(xs + [e]) == AddOnce(Distinct(xs), e)
  {
    AddAllConcat([], xs, [e]);
  }

  // ----- what de-duplication means -----

  ghost predicate NoDuplicates<T>(s: seq<T>) { forall i, j :: 0 <= i < j < |s| ==> s[i] != s[j] }

  /** Index of the first occurrence, or |xs|. */
  function FirstIndex<T(==)>(xs: seq<T>, e: T): (i: nat)
    ensures i <= |xs| && (i < |xs| ==> xs[i] == e) && forall j :: 0 <= j < i ==> xs[j] != e
  {
    if xs == [] then 0 else if xs[0] == e then 0 else 1 + FirstIndex(xs[1..], e)
  }

  /** `r` lists each element of `xs` once, in the order in which they first occur. */
  ghost predicate ListsOnce<T>(xs: seq<T>, r: seq<T>) {
    && NoDuplicates(r)
    && (forall e :: e in r ==> e in xs) && (forall e :: e in xs ==> e in r)
    && (forall i, j :: 0 <= i < j < |r| ==> FirstIndex(xs, r[i]) < FirstIndex(xs, r[j]))
  }

  lemma FirstIndexSnoc<T>(xs: seq<T>, e: T, f: T)
    ensures f in xs ==> FirstIndex(xs + [e], f) == FirstIndex(xs, f) < |xs|
    ensures e !in xs ==> FirstIndex(xs + [e], e) == |xs|
  {
    var all := xs + [e];
    var i := FirstIndex(all, f);
    assert forall j :: 0 <= j < |xs| ==> all[j] == xs[j];
    assert all[|xs|] == e;
  }

  lemma ListsOnceSnoc<T>(xs: seq<T>, r: seq<T>, e: T)
    requires ListsOnce(xs, r)
    ensures ListsOnce(xs + [e], AddOnce(r, e))
  {
    var r' := AddOnce(r, e);
    forall i | 0 <= i < |r'| ensures r'[i] in r ==> FirstIndex(xs + [e], r'[i]) == FirstIndex(xs, r'[i]) < |xs| {
      FirstIndexSnoc(xs, e, r'[i]);
    }
    FirstIndexSnoc(xs, e, e);
    forall i, j | 0 <= i < j < |r'| ensures FirstIndex(xs + [e], r'[i]) < FirstIndex(xs + [e], r'[j]) {
      assert r'[i] == r[i] && r[i] in r;
      assert j < |r| ==> r'[j] == r[j] && r[j] in r;
    }
  }

  lemma {:induction false} DistinctListsOnce<T>(xs: seq<T>)
    ensures ListsOnce(xs, Distinct(xs))
  {
    if xs != [] {
      var n := |xs| - 1;
      DistinctListsOnce(xs[..n]);
      assert xs == xs[..n] + [xs[n]];
      DistinctSnoc(xs[..n], xs[n]);
      ListsOnceSnoc(xs[..n], Distinct(xs[..n]), xs[n]);
    }
  }

  ghost predicate InOrder<T>(xs: seq<T>, r: seq<T>) {
    NoDuplicates(r) && forall i, j :: 0 <= i < j < |r| ==> FirstIndex(xs, r[i]) < FirstIndex(xs, r[j])
  }

  ghost predicate SameElements<T>(r: seq<T>, q: seq<T>) {
    (forall e :: e in r ==> e in q) && (forall e :: e in q ==> e in r)
  }

  lemma HeadsAgree<T>(xs: seq<T>, r: seq<T>, q: seq<T>)
    requires r != [] && q != [] && SameElements(r, q) && InOrder(xs, r) && InOrder(xs, q)
    ensures r[0] == q[0]
  {
    assert r[0] in r && q[0] in q;
    var i :| 0 <= i < |r| && r[i] == q[0];
    var j :| 0 <= j < |q| && q[j] == r[0];
  }

  lemma FirstIsElement<T>(r: seq<T>)
    ensures r != [] ==> r[0] in r
  {
  }

  lemma TailElements<T>(r: seq<T>, e: T)
    requires r != [] && NoDuplicates(r)
    ensures e in r[1..] <==> e in r && e != r[0]
  {
    assert r == [r[0]] + r[1..];
    if e in r[1..] {
      var i :| 0 <= i < |r[1..]| && r[1..][i] == e;
      assert r[i + 1] == e && r[0] != r[i + 1];
    }
  }

  lemma TailInOrder<T>(xs: seq<T>, r: seq<T>)
    requires r != [] && InOrder(xs, r)
    ensures InOrder(xs, r[1..])
  {
    var t := r[1..];
    forall i, j | 0 <= i < j < |t| ensures t[i] != t[j] && FirstIndex(xs, t[i]) < FirstIndex(xs, t[j]) {
      assert t[i] == r[i + 1] && t[j] == r[j + 1];
    }
  }

  lemma {:induction false} SameOrderSame<T>(xs: seq<T>, r: seq<T>, q: seq<T>)
    requires SameElements(r, q) && InOrder(xs, r) && InOrder(xs, q)
    ensures r == q
    decreases |r|
  {
    if r != [] && q != [] {
      HeadsAgree(xs, r, q);
      TailInOrder(xs, r);
      TailInOrder(xs, q);
      forall e | e in r[1..] ensures e in q[1..] { TailElements(r, e); TailElements(q, e); }
      forall e | e in q[1..] ensures e in r[1..] { TailElements(r, e); TailElements(q, e); }
      SameOrderSame(xs, r[1..], q[1..]);
      assert r == [r[0]] + r[1..] && q == [q[0]] + q[1..];
    } else {
      FirstIsElement(r);
      FirstIsElement(q);
    }
  }

  /** `Distinct` is the one list of the elements once each in order of first occurrence. */
  lemma DistinctExact<T>(xs: seq<T>, r: seq<T>)
    ensures ListsOnce(xs, r) <==> r == Distinct(xs)
  {
    DistinctListsOnce(xs);
    if ListsOnce(xs, r) {
      SameOrderSame(xs, r, Distinct(xs));
    }
  }
}
