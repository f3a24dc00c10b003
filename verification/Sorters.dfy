/** Sorts by label: one that is stable, and for each annotation one that puts it first among equal labels. */
module Sorters {
  import opened Strings
  import opened Dedup
  import opened Annotations

  function Inserted(a: Thing, s: seq<Thing>): seq<Thing> {
    if s != [] && Less(s[0].prefLabel, a.prefLabel) then [s[0]] + Inserted(a, s[1..]) else [a] + s
  }

  function Sorted(s: seq<Thing>): seq<Thing> { if s == [] then [] else Inserted(s[0], Sorted(s[1..])) }

  lemma {:induction false} InsertedElements(a: Thing, s: seq<Thing>)
    ensures multiset(Inserted(a, s)) == multiset{a} + multiset(s)
  {
    if s != [] && Less(s[0].prefLabel, a.prefLabel) {
      InsertedElements(a, s[1..]);
      assert s == [s[0]] + s[1..];
    }
  }

  lemma {:induction false} SortedElements(s: seq<Thing>)
    ensures multiset(Sorted(s)) == multiset(s)
  {
    if s != [] {
      SortedElements(s[1..]);
      InsertedElements(s[0], Sorted(s[1..]));
      assert s == [s[0]] + s[1..];
    }
  }

  /** No label is below this one. */
  ghost predicate Least(name: string, s: seq<Thing>) { forall i :: 0 <= i < |s| ==> !Less(s[i].prefLabel, name) }

  lemma LeastInFront(a: Thing, s: seq<Thing>)
    requires SortedByLabel(s) && Least(a.prefLabel, s)
    ensures SortedByLabel([a] + s)
  {
  }

  lemma SortedParts(s: seq<Thing>)
    requires s != [] && SortedByLabel(s)
    ensures Least(s[0].prefLabel, s[1..]) && SortedByLabel(s[1..])
  {
    forall i, j | 0 <= i < j < |s| - 1 ensures !Less(s[1..][j].prefLabel, s[1..][i].prefLabel) {
      assert s[1..][i] == s[i + 1] && s[1..][j] == s[j + 1];
    }
  }

  /** What is least among some elements and not above another is least among all. */
  lemma {:induction false} LeastInserted(name: string, a: Thing, s: seq<Thing>)
    requires Least(name, s) && !Less(a.prefLabel, name)
    ensures Least(name, Inserted(a, s))
  {
    if s != [] && Less(s[0].prefLabel, a.prefLabel) {
      LeastInserted(name, a, s[1..]);
    }
  }

  lemma LeastBelow(name: string, s: seq<Thing>, a: Thing)
    requires s != [] && SortedByLabel(s) && name == a.prefLabel && !Less(s[0].prefLabel, name)
    ensures Least(name, s)
  {
    SortedParts(s);
    forall i | 0 <= i < |s| ensures !Less(s[i].prefLabel, name) {
      LessIsTotal(s[0].prefLabel, name);
      LessIsStrictOrder(s[i].prefLabel, name, s[0].prefLabel);
    }
  }

  lemma {:induction false} InsertedSorted(a: Thing, s: seq<Thing>)
    requires SortedByLabel(s)
    ensures SortedByLabel(Inserted(a, s))
  {
    if s != [] {
      SortedParts(s);
      if Less(s[0].prefLabel, a.prefLabel) {
        InsertedSorted(a, s[1..]);
        LessIsStrictOrder(s[0].prefLabel, a.prefLabel, []);
        LeastInserted(s[0].prefLabel, a, s[1..]);
        LeastInFront(s[0], Inserted(a, s[1..]));
      } else {
        LeastBelow(a.prefLabel, s, a);
        LeastInFront(a, s);
      }
    }
  }

  lemma {:induction false} SortedSorts(s: seq<Thing>)
    ensures SortedByLabel(Sorted(s))
  {
    if s != [] {
      SortedSorts(s[1..]);
      InsertedSorted(s[0], Sorted(s[1..]));
    }
  }

  /** The first `a` moved to the front, where there is one. */
  function ToFront(a: Thing, s: seq<Thing>): seq<Thing> {
    var i := FirstIndex(s, a);
    if i < |s| then [a] + (s[..i] + s[i + 1..]) else s
  }

  lemma ToFrontElements(a: Thing, s: seq<Thing>)
    ensures multiset(ToFront(a, s)) == multiset(s)
  {
    var i := FirstIndex(s, a);
    if i < |s| {
      assert s == s[..i] + ([a] + s[i + 1..]);
    }
  }

  /** A sort that puts `a` first among equal labels. */
  function Favouring(a: Thing): Sorter { (s: seq<Thing>) => Sorted(ToFront(a, s)) }

  lemma FavouringSorts(a: Thing)
    ensures Sorts(Favouring(a))
  {
    forall s ensures multiset(Favouring(a)(s)) == multiset(s) && SortedByLabel(Favouring(a)(s)) {
      ToFrontElements(a, s);
      SortedElements(ToFront(a, s));
      SortedSorts(ToFront(a, s));
    }
  }

  lemma SortedHead(a: Thing, rest: seq<Thing>)
    requires forall b :: b in rest ==> !Less(b.prefLabel, a.prefLabel)
    ensures Sorted([a] + rest) != [] && Sorted([a] + rest)[0] == a
  {
    assert ([a] + rest)[1..] == rest;
    SortedElements(rest);
    if Sorted(rest) != [] {
      assert Sorted(rest)[0] in multiset(Sorted(rest));
      assert Sorted(rest)[0] in multiset(rest);
    }
  }

  lemma FavouringFirst(a: Thing, s: seq<Thing>)
    requires a in s && forall b :: b in s ==> !Less(b.prefLabel, a.prefLabel)
    ensures Favouring(a)(s) != [] && Favouring(a)(s)[0] == a
  {
    var i := FirstIndex(s, a);
    var rest := s[..i] + s[i + 1..];
    forall b | b in rest ensures b in s {
    }
    SortedHead(a, rest);
  }
}
