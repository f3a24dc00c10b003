/** What the annotation part of the index document promises, whatever the annotations. */
module MapperProperties {
  import opened Strings
  import opened Concordance
  import opened Taxonomy
  import opened Dedup
  import opened Annotations
  import opened Sorters

  // ----- membership -----

  lemma {:induction false} LabelsHave(cs: seq<Contribution>, category: Category, name: string)
    ensures name in Labels(cs, category) <==> exists c :: c in cs && c.category == category && c.prefLabel == name
  {
    if cs != [] {
      LabelsHave(cs[1..], category, name);
      assert cs == [cs[0]] + cs[1..];
    }
  }

  lemma {:induction false} IDsHave(cs: seq<Contribution>, category: Category, id: string)
    ensures id in IDs(cs, category) <==> exists c :: c in cs && c.category == category && id in c.ids
  {
    if cs != [] {
      IDsHave(cs[1..], category, id);
      assert cs == [cs[0]] + cs[1..];
    }
  }

  lemma {:induction false} StreamHas(cfg: Config, anns: seq<Thing>, concepts: ConceptMap, c: Contribution)
    ensures c in Stream(cfg, anns, concepts) <==> exists a :: a in anns && c in ThingContributions(cfg, a, concepts)
  {
    if anns != [] {
      var n := |anns| - 1;
      StreamHas(cfg, anns[..n], concepts, c);
      assert anns == anns[..n] + [anns[n]];
    }
  }

  lemma {:induction false} TypesHave(cfg: Config, a: Thing, ids: seq<string>, canonicalID: string, types: seq<string>,
                                     c: Contribution)
    ensures c in TypesContributions(cfg, a, ids, canonicalID, types) <==>
            exists t :: t in types && c in TypeContributions(cfg, a, ids, canonicalID, t)
  {
    if types != [] {
      var n := |types| - 1;
      TypesHave(cfg, a, ids, canonicalID, types[..n], c);
      assert types == types[..n] + [types[n]];
    }
  }

  lemma ListMembers(cs: seq<Contribution>, category: Category, e: string)
    ensures e in ListsOf(cs)[category].names <==> exists c :: c in cs && c.category == category && c.prefLabel == e
    ensures e in ListsOf(cs)[category].ids <==> exists c :: c in cs && c.category == category && e in c.ids
  {
    DistinctListsOnce(Labels(cs, category));
    DistinctListsOnce(IDs(cs, category));
    LabelsHave(cs, category, e);
    IDsHave(cs, category, e);
  }

  /** Every list of the document holds each contributed entry once, in the order of first arrival. */
  lemma ListsAreFirstOccurrences(cfg: Config, sorter: Sorter, anns: seq<Thing>, concepts: ConceptMap,
                                 category: Category)
    requires Sorts(sorter)
    ensures var stream, l := Stream(cfg, anns, concepts), TagsOf(cfg, sorter, anns, concepts).lists[category];
            ListsOnce(Labels(stream, category), l.names) && ListsOnce(IDs(stream, category), l.ids)
  {
    var stream := Stream(cfg, anns, concepts);
    DistinctListsOnce(Labels(stream, category));
    DistinctListsOnce(IDs(stream, category));
  }

  // ----- people and authors -----

  predicate HasPersonType(t: ConceptTypes, a: Thing) {
    exists uri :: uri in a.types && TypeCategory(t, uri) == Some(Person)
  }

  /** Not someone who is an author and nothing else. */
  predicate NotOnlyAuthor(ids: seq<string>) { CmrID(PEOPLE, ids).Some? || CmrID(AUTHORS, ids).None? }

  /** An author ID is there and the predicate credits the author. */
  predicate IsCredited(p: Predicates, a: Thing, ids: seq<string>) {
    CmrID(AUTHORS, ids).Some? && (a.predicateURI == p.hasAuthor || a.predicateURI == p.hasContributor)
  }

  lemma PeoplePartHas(a: Thing, ids: seq<string>, c: Contribution)
    ensures c in PeoplePart(a, ids) <==> NotOnlyAuthor(ids) && c == Contribution(Person, a.prefLabel, ids)
  {
  }

  lemma AuthorPartHas(p: Predicates, a: Thing, ids: seq<string>, canonicalID: string, c: Contribution)
    ensures c in AuthorPart(p, a, ids, canonicalID) <==>
            IsCredited(p, a, ids) && c == Contribution(Author, a.prefLabel, [CmrID(AUTHORS, ids).value, canonicalID])
  {
  }

  lemma PersonContributionsHave(p: Predicates, a: Thing, ids: seq<string>, canonicalID: string, name: string)
    ensures Contributes(PersonContributions(p, a, ids, canonicalID), Person, name) <==>
            a.prefLabel == name && NotOnlyAuthor(ids)
    ensures Contributes(PersonContributions(p, a, ids, canonicalID), Author, name) <==>
            a.prefLabel == name && IsCredited(p, a, ids)
  {
    forall c ensures c in PersonContributions(p, a, ids, canonicalID) <==>
                     c in PeoplePart(a, ids) || c in AuthorPart(p, a, ids, canonicalID)
    {
    }
    forall c ensures c in PeoplePart(a, ids) <==> NotOnlyAuthor(ids) && c == Contribution(Person, a.prefLabel, ids) {
      PeoplePartHas(a, ids, c);
    }
    forall c ensures c in AuthorPart(p, a, ids, canonicalID) <==>
                     IsCredited(p, a, ids) &&
                     c == Contribution(Author, a.prefLabel, [CmrID(AUTHORS, ids).value, canonicalID])
    {
      AuthorPartHas(p, a, ids, canonicalID, c);
    }
  }

  /** Only the person case of the switch lists people and authors. */
  lemma OnlyPersonsMakePeople(cfg: Config, a: Thing, concepts: ConceptMap, c: Contribution)
    requires a.id in concepts && (c.category == Person || c.category == Author)
    ensures c in ThingContributions(cfg, a, concepts) <==>
            HasPersonType(cfg.conceptTypes, a) &&
            c in PersonContributions(cfg.predicates, a, AnnIDs(a, concepts), AnnIDs(a, concepts)[0])
  {
    var ids := AnnIDs(a, concepts);
    TypesHave(cfg, a, ids, ids[0], a.types, c);
    assert c !in SectionContributions(cfg.predicates, a, ids);
    forall t ensures c in TypeContributions(cfg, a, ids, ids[0], t) <==>
                     TypeCategory(cfg.conceptTypes, t) == Some(Person) &&
                     c in PersonContributions(cfg.predicates, a, ids, ids[0])
    {
      TypeMakesPeople(cfg, a, ids, ids[0], t, c);
    }
  }

  lemma TypeMakesPeople(cfg: Config, a: Thing, ids: seq<string>, canonicalID: string, t: string, c: Contribution)
    requires c.category == Person || c.category == Author
    ensures c in TypeContributions(cfg, a, ids, canonicalID, t) <==>
            TypeCategory(cfg.conceptTypes, t) == Some(Person) &&
            c in PersonContributions(cfg.predicates, a, ids, canonicalID)
  {
  }

  /** The annotation puts its label among the people: not when it is an author and nothing else. */
  predicate MakesPerson(cfg: Config, concepts: ConceptMap, a: Thing) {
    a.id in concepts && HasPersonType(cfg.conceptTypes, a) && NotOnlyAuthor(AnnIDs(a, concepts))
  }

  /** The annotation puts its label among the authors. */
  predicate MakesAuthor(cfg: Config, concepts: ConceptMap, a: Thing) {
    a.id in concepts && HasPersonType(cfg.conceptTypes, a) && IsCredited(cfg.predicates, a, AnnIDs(a, concepts))
  }

  predicate Contributes(cs: seq<Contribution>, category: Category, name: string) {
    exists c :: c in cs && c.category == category && c.prefLabel == name
  }

  lemma ThingMakes(cfg: Config, a: Thing, concepts: ConceptMap, name: string)
    ensures Contributes(ThingContributions(cfg, a, concepts), Person, name) <==>
            MakesPerson(cfg, concepts, a) && a.prefLabel == name
    ensures Contributes(ThingContributions(cfg, a, concepts), Author, name) <==>
            MakesAuthor(cfg, concepts, a) && a.prefLabel == name
  {
    if a.id in concepts {
      var cs := PersonContributions(cfg.predicates, a, AnnIDs(a, concepts), AnnIDs(a, concepts)[0]);
      PersonContributionsHave(cfg.predicates, a, AnnIDs(a, concepts), AnnIDs(a, concepts)[0], name);
      forall c: Contribution | c.category == Person || c.category == Author
        ensures c in ThingContributions(cfg, a, concepts) <==> HasPersonType(cfg.conceptTypes, a) && c in cs
      {
        OnlyPersonsMakePeople(cfg, a, concepts, c);
      }
    }
  }

  lemma StreamContributes(cfg: Config, anns: seq<Thing>, concepts: ConceptMap, category: Category, name: string)
    ensures Contributes(Stream(cfg, anns, concepts), category, name) <==>
            exists a :: a in anns && Contributes(ThingContributions(cfg, a, concepts), category, name)
  {
    forall c
      ensures c in Stream(cfg, anns, concepts) <==> exists a :: a in anns && c in ThingContributions(cfg, a, concepts)
    {
      StreamHas(cfg, anns, concepts, c);
    }
  }

  /** Who is listed among the people, and who among the authors. */
  lemma PeopleAndAuthorsListed(cfg: Config, anns: seq<Thing>, concepts: ConceptMap, name: string)
    ensures name in ListsOf(Stream(cfg, anns, concepts))[Person].names <==>
            exists a :: a in anns && MakesPerson(cfg, concepts, a) && a.prefLabel == name
    ensures name in ListsOf(Stream(cfg, anns, concepts))[Author].names <==>
            exists a :: a in anns && MakesAuthor(cfg, concepts, a) && a.prefLabel == name
  {
    ListMembers(Stream(cfg, anns, concepts), Person, name);
    ListMembers(Stream(cfg, anns, concepts), Author, name);
    StreamContributes(cfg, anns, concepts, Person, name);
    StreamContributes(cfg, anns, concepts, Author, name);
    forall a
      ensures Contributes(ThingContributions(cfg, a, concepts), Person, name) <==>
              MakesPerson(cfg, concepts, a) && a.prefLabel == name
      ensures Contributes(ThingContributions(cfg, a, concepts), Author, name) <==>
              MakesAuthor(cfg, concepts, a) && a.prefLabel == name
    {
      ThingMakes(cfg, a, concepts, name);
    }
  }

  // ----- primary section and theme -----

  /** The annotation sets the primary section. */
  predicate SetsSection(p: Predicates, a: Thing, concepts: ConceptMap) {
    a.id in concepts && IsPrimary(p, a.predicateURI)
  }

  predicate LastSetting(p: Predicates, anns: seq<Thing>, concepts: ConceptMap, i: nat)
    requires i < |anns|
  {
    SetsSection(p, anns[i], concepts) && forall j :: i < j < |anns| ==> !SetsSection(p, anns[j], concepts)
  }

  /** The primary section is that of the last annotation that sets one. */
  lemma {:induction false} PrimarySectionIsLast(p: Predicates, anns: seq<Thing>, concepts: ConceptMap, i: nat)
    requires i < |anns| && LastSetting(p, anns, concepts, i)
    ensures PrimarySection(p, anns, concepts) ==
            Some(Tag(anns[i].prefLabel, CmrIDWithFallback(SECTIONS, AnnIDs(anns[i], concepts))))
    decreases |anns|
  {
    var n := |anns| - 1;
    if i < n {
      assert anns[..n][i] == anns[i];
      PrimarySectionIsLast(p, anns[..n], concepts, i);
    }
  }

  /** Without such an annotation there is none. */
  lemma {:induction false} PrimarySectionAbsent(p: Predicates, anns: seq<Thing>, concepts: ConceptMap)
    requires forall i :: 0 <= i < |anns| ==> !SetsSection(p, anns[i], concepts)
    ensures PrimarySection(p, anns, concepts) == None
  {
    if anns != [] { PrimarySectionAbsent(p, anns[..|anns| - 1], concepts); }
  }

  lemma SectionMember(cfg: Config, anns: seq<Thing>, concepts: ConceptMap, a: Thing, id: string)
    requires a in anns && a.id in concepts && id in AnnIDs(a, concepts)
    requires IsSectional(cfg.predicates, a.predicateURI) || IsPrimary(cfg.predicates, a.predicateURI)
    ensures var l := ListsOf(Stream(cfg, anns, concepts))[Section]; a.prefLabel in l.names && id in l.ids
  {
    var c := Contribution(Section, a.prefLabel, AnnIDs(a, concepts));
    assert c in SectionContributions(cfg.predicates, a, AnnIDs(a, concepts));
    assert c in ThingContributions(cfg, a, concepts);
    StreamHas(cfg, anns, concepts, c);
    ListMembers(Stream(cfg, anns, concepts), Section, a.prefLabel);
    ListMembers(Stream(cfg, anns, concepts), Section, id);
  }

  lemma {:induction false} PrimarySectionSource(p: Predicates, anns: seq<Thing>, concepts: ConceptMap)
      returns (a: Thing)
    requires PrimarySection(p, anns, concepts).Some?
    ensures a in anns && SetsSection(p, a, concepts)
    ensures PrimarySection(p, anns, concepts).value ==
            Tag(a.prefLabel, CmrIDWithFallback(SECTIONS, AnnIDs(a, concepts)))
  {
    var n := |anns| - 1;
    a := anns[n];
    if !SetsSection(p, a, concepts) {
      a := PrimarySectionSource(p, anns[..n], concepts);
    }
  }

  /** The primary section is one of the sections, by name and by ID. */
  lemma PrimarySectionIsSection(cfg: Config, sorter: Sorter, anns: seq<Thing>, concepts: ConceptMap)
    requires Sorts(sorter)
    ensures var t := TagsOf(cfg, sorter, anns, concepts);
            t.primarySection.Some? ==>
              t.primarySection.value.name in t.lists[Section].names && t.primarySection.value.id in t.lists[Section].ids
  {
    if PrimarySection(cfg.predicates, anns, concepts).Some? {
      var a := PrimarySectionSource(cfg.predicates, anns, concepts);
      CmrIDIsMember(SECTIONS, AnnIDs(a, concepts));
      SectionMember(cfg, anns, concepts, a, CmrIDWithFallback(SECTIONS, AnnIDs(a, concepts)));
    }
  }

  predicate IsCandidate(p: Predicates, anns: seq<Thing>, concepts: ConceptMap, a: Thing) {
    a in anns && a.predicateURI == p.about && a.id in concepts
  }

  /** The theme is made of one of the candidates with the least label, whichever the sort puts first;
      without a candidate there is none. */
  lemma ThemeFromLeastLabel(cfg: Config, sorter: Sorter, anns: seq<Thing>, concepts: ConceptMap)
    requires Sorts(sorter)
    ensures (forall a :: a in anns ==> !IsCandidate(cfg.predicates, anns, concepts, a)) ==>
              PrimaryTheme(cfg, sorter, anns, concepts) == None
    ensures (exists a :: IsCandidate(cfg.predicates, anns, concepts, a)) ==>
              exists chosen :: IsCandidate(cfg.predicates, anns, concepts, chosen) &&
                (forall a :: IsCandidate(cfg.predicates, anns, concepts, a) ==> !Less(a.prefLabel, chosen.prefLabel)) &&
                PrimaryTheme(cfg, sorter, anns, concepts) == ThemeOf(cfg.conceptTypes, chosen, concepts)
  {
    var cs := Candidates(anns, concepts, cfg.predicates.about);
    forall a ensures a in cs <==> IsCandidate(cfg.predicates, anns, concepts, a) {
      CandidatesAre(anns, concepts, cfg.predicates.about, a);
    }
    SorterKeeps(sorter, cs);
    if cs == [] {
      assert forall a :: !IsCandidate(cfg.predicates, anns, concepts, a);
    } else {
      assert cs[0] in cs;
      var chosen := sorter(cs)[0];
      assert chosen in sorter(cs);
      forall a | IsCandidate(cfg.predicates, anns, concepts, a) ensures !Less(a.prefLabel, chosen.prefLabel) {
        var i :| 0 <= i < |sorter(cs)| && sorter(cs)[i] == a;
        LessIsStrictOrder(chosen.prefLabel, [], []);
      }
      assert IsCandidate(cfg.predicates, anns, concepts, chosen);
    }
  }

  lemma {:induction false} ThemeIDIsMember(t: ConceptTypes, a: Thing, concepts: ConceptMap)
    requires a.id in concepts
    ensures match ThemeOf(t, a, concepts)
            case Some(tag) => tag.name == a.prefLabel && tag.id in AnnIDs(a, concepts)
            case None => true
  {
    var taxonomy := FirstThemeTaxonomy(t, a.types);
    if taxonomy.Some? {
      CmrIDIsMember(taxonomy.value, AnnIDs(a, concepts));
    }
  }

  /** The primary theme is one of the sections, by name and by ID. */
  lemma PrimaryThemeIsSection(cfg: Config, sorter: Sorter, anns: seq<Thing>, concepts: ConceptMap)
    requires Sorts(sorter)
    ensures var t := TagsOf(cfg, sorter, anns, concepts);
            t.primaryTheme.Some? ==>
              t.primaryTheme.value.name in t.lists[Section].names && t.primaryTheme.value.id in t.lists[Section].ids
  {
    ThemeFromLeastLabel(cfg, sorter, anns, concepts);
    if PrimaryTheme(cfg, sorter, anns, concepts).Some? {
      var a :| IsCandidate(cfg.predicates, anns, concepts, a) &&
               PrimaryTheme(cfg, sorter, anns, concepts) == ThemeOf(cfg.conceptTypes, a, concepts);
      ThemeIDIsMember(cfg.conceptTypes, a, concepts);
      SectionMember(cfg, anns, concepts, a, PrimaryTheme(cfg, sorter, anns, concepts).value.id);
    }
  }

  // ----- the order of the annotations -----

  ghost predicate SameThings(a: seq<Thing>, b: seq<Thing>) { forall t :: t in a <==> t in b }

  /** The lists hold the same entries whatever the order and repetition of the annotations. */
  lemma ListsIgnoreOrder(cfg: Config, a: seq<Thing>, b: seq<Thing>, concepts: ConceptMap, category: Category, e: string)
    requires SameThings(a, b)
    ensures var l, k := ListsOf(Stream(cfg, a, concepts))[category], ListsOf(Stream(cfg, b, concepts))[category];
            (e in l.names <==> e in k.names) && (e in l.ids <==> e in k.ids)
  {
    ListMembers(Stream(cfg, a, concepts), category, e);
    ListMembers(Stream(cfg, b, concepts), category, e);
    forall c ensures c in Stream(cfg, a, concepts) <==> c in Stream(cfg, b, concepts) {
      StreamHas(cfg, a, concepts, c);
      StreamHas(cfg, b, concepts, c);
    }
  }

  /** A candidate whose label no other candidate's is below. */
  ghost predicate IsLeast(p: Predicates, anns: seq<Thing>, concepts: ConceptMap, a: Thing) {
    IsCandidate(p, anns, concepts, a) &&
    forall b :: IsCandidate(p, anns, concepts, b) ==> !Less(b.prefLabel, a.prefLabel)
  }

  /** The candidates of least label all make the same theme, or all none. */
  ghost predicate LeastAgree(cfg: Config, anns: seq<Thing>, concepts: ConceptMap) {
    forall a, b :: IsLeast(cfg.predicates, anns, concepts, a) && IsLeast(cfg.predicates, anns, concepts, b) ==>
      ThemeOf(cfg.conceptTypes, a, concepts) == ThemeOf(cfg.conceptTypes, b, concepts)
  }

  /** Then the theme depends neither on the order nor on the sort. */
  lemma ThemeIgnoresOrder(cfg: Config, s1: Sorter, s2: Sorter, a: seq<Thing>, b: seq<Thing>, concepts: ConceptMap)
    requires Sorts(s1) && Sorts(s2) && SameThings(a, b) && LeastAgree(cfg, a, concepts)
    ensures PrimaryTheme(cfg, s1, a, concepts) == PrimaryTheme(cfg, s2, b, concepts)
  {
    ThemeFromLeastLabel(cfg, s1, a, concepts);
    ThemeFromLeastLabel(cfg, s2, b, concepts);
    var p := cfg.predicates;
    forall t ensures IsCandidate(p, a, concepts, t) <==> IsCandidate(p, b, concepts, t) {
    }
    if t :| IsCandidate(p, a, concepts, t) {
      var x :| IsCandidate(p, a, concepts, x) &&
               (forall y :: IsCandidate(p, a, concepts, y) ==> !Less(y.prefLabel, x.prefLabel)) &&
               PrimaryTheme(cfg, s1, a, concepts) == ThemeOf(cfg.conceptTypes, x, concepts);
      var z :| IsCandidate(p, b, concepts, z) &&
               (forall y :: IsCandidate(p, b, concepts, y) ==> !Less(y.prefLabel, z.prefLabel)) &&
               PrimaryTheme(cfg, s2, b, concepts) == ThemeOf(cfg.conceptTypes, z, concepts);
      assert IsLeast(p, a, concepts, x) && IsLeast(p, a, concepts, z);
    }
  }

  /** Each candidate of least label decides the theme under some sort. */
  lemma LeastDecides(cfg: Config, anns: seq<Thing>, concepts: ConceptMap, a: Thing)
    requires IsLeast(cfg.predicates, anns, concepts, a)
    ensures Sorts(Favouring(a)) &&
            PrimaryTheme(cfg, Favouring(a), anns, concepts) == ThemeOf(cfg.conceptTypes, a, concepts)
  {
    FavouringSorts(a);
    var cs := Candidates(anns, concepts, cfg.predicates.about);
    forall b ensures b in cs <==> IsCandidate(cfg.predicates, anns, concepts, b) {
      CandidatesAre(anns, concepts, cfg.predicates.about, b);
    }
    FavouringFirst(a, cs);
  }

  /** All sorts give the annotations one theme. */
  ghost predicate OneTheme(cfg: Config, anns: seq<Thing>, concepts: ConceptMap) {
    forall s1, s2 :: Sorts(s1) && Sorts(s2) ==>
      PrimaryTheme(cfg, s1, anns, concepts) == PrimaryTheme(cfg, s2, anns, concepts)
  }

  /** So do all orders and repetitions of them. */
  ghost predicate OneThemeInAnyOrder(cfg: Config, anns: seq<Thing>, concepts: ConceptMap) {
    forall s1, s2, b :: Sorts(s1) && Sorts(s2) && SameThings(anns, b) ==>
      PrimaryTheme(cfg, s1, anns, concepts) == PrimaryTheme(cfg, s2, b, concepts)
  }

  lemma AgreeingHaveOneTheme(cfg: Config, anns: seq<Thing>, concepts: ConceptMap)
    requires LeastAgree(cfg, anns, concepts)
    ensures OneThemeInAnyOrder(cfg, anns, concepts)
  {
    forall s1, s2, b | Sorts(s1) && Sorts(s2) && SameThings(anns, b)
      ensures PrimaryTheme(cfg, s1, anns, concepts) == PrimaryTheme(cfg, s2, b, concepts)
    {
      ThemeIgnoresOrder(cfg, s1, s2, anns, b, concepts);
    }
  }

  lemma OneThemeMeansAgreeing(cfg: Config, anns: seq<Thing>, concepts: ConceptMap)
    requires OneTheme(cfg, anns, concepts)
    ensures LeastAgree(cfg, anns, concepts)
  {
    forall a, b | IsLeast(cfg.predicates, anns, concepts, a) && IsLeast(cfg.predicates, anns, concepts, b)
      ensures ThemeOf(cfg.conceptTypes, a, concepts) == ThemeOf(cfg.conceptTypes, b, concepts)
    {
      LeastDecides(cfg, anns, concepts, a);
      LeastDecides(cfg, anns, concepts, b);
    }
  }

  lemma AnyOrderHasThis(cfg: Config, anns: seq<Thing>, concepts: ConceptMap)
    requires OneThemeInAnyOrder(cfg, anns, concepts)
    ensures OneTheme(cfg, anns, concepts)
  {
    assert SameThings(anns, anns);
  }

  /** All sorts, and all orders of the annotations, give one theme exactly when the candidates of least
      label agree on it. */
  lemma ThemeOrderIff(cfg: Config, anns: seq<Thing>, concepts: ConceptMap)
    ensures OneTheme(cfg, anns, concepts) <==> LeastAgree(cfg, anns, concepts)
    ensures OneThemeInAnyOrder(cfg, anns, concepts) <==> LeastAgree(cfg, anns, concepts)
  {
    if LeastAgree(cfg, anns, concepts) {
      AgreeingHaveOneTheme(cfg, anns, concepts);
    }
    if OneThemeInAnyOrder(cfg, anns, concepts) {
      AnyOrderHasThis(cfg, anns, concepts);
    }
    if OneTheme(cfg, anns, concepts) {
      OneThemeMeansAgreeing(cfg, anns, concepts);
    }
  }

  lemma LoneIDTheme(t: ConceptTypes, a: Thing, concepts: ConceptMap)
    requires a.types == [t.organisation] && a.id in concepts && concepts[a.id] == []
    ensures ThemeOf(t, a, concepts) == Some(Tag(a.prefLabel, TrimPrefix(a.id, THING_URI_PREFIX)))
  {
    assert AnnIDs(a, concepts) == [TrimPrefix(a.id, THING_URI_PREFIX)];
    CmrIDIsMember(ORGANISATIONS, AnnIDs(a, concepts));
  }

  /** Two organisations of one label: which one makes the theme is up to the sort. */
  lemma TiesCanDiffer(cfg: Config, a: Thing, b: Thing, concepts: ConceptMap)
    requires a.prefLabel == b.prefLabel && a.predicateURI == b.predicateURI == cfg.predicates.about
    requires a.types == b.types == [cfg.conceptTypes.organisation] && concepts == map[a.id := [], b.id := []]
    requires TrimPrefix(a.id, THING_URI_PREFIX) != TrimPrefix(b.id, THING_URI_PREFIX)
    ensures !OneTheme(cfg, [a, b], concepts)
  {
    LoneIDTheme(cfg.conceptTypes, a, concepts);
    LoneIDTheme(cfg.conceptTypes, b, concepts);
    LessIsStrictOrder(a.prefLabel, [], []);
    assert IsLeast(cfg.predicates, [a, b], concepts, a) && IsLeast(cfg.predicates, [a, b], concepts, b);
    ThemeOrderIff(cfg, [a, b], concepts);
  }

  // ----- annotations that do not show -----

  predicate Shows(p: Predicates, concepts: ConceptMap, a: Thing) { IsKept(p, a) && a.id in concepts }

  /** The annotations that are not ignored and have a concordance. */
  function Visible(p: Predicates, metadata: seq<Thing>, concepts: ConceptMap): seq<Thing> {
    if metadata == [] then []
    else
      var n := |metadata| - 1;
      Visible(p, metadata[..n], concepts) + if Shows(p, concepts, metadata[n]) then [metadata[n]] else []
  }

  lemma StreamOneMore(cfg: Config, anns: seq<Thing>, a: Thing, concepts: ConceptMap)
    ensures Stream(cfg, anns + [a], concepts) == Stream(cfg, anns, concepts) + ThingContributions(cfg, a, concepts)
  {
    assert (anns + [a])[..|anns|] == anns;
  }

  lemma SectionOneMore(p: Predicates, anns: seq<Thing>, a: Thing, concepts: ConceptMap)
    ensures PrimarySection(p, anns + [a], concepts) ==
            if SetsSection(p, a, concepts) then Some(Tag(a.prefLabel, CmrIDWithFallback(SECTIONS, AnnIDs(a, concepts))))
            else PrimarySection(p, anns, concepts)
  {
    assert (anns + [a])[..|anns|] == anns;
  }

  lemma CandidatesOneMore(anns: seq<Thing>, a: Thing, concepts: ConceptMap, uri: string)
    ensures Candidates(anns + [a], concepts, uri) ==
            Candidates(anns, concepts, uri) + if a.predicateURI == uri && a.id in concepts then [a] else []
  {
    assert (anns + [a])[..|anns|] == anns;
  }

  ghost predicate SameTags(cfg: Config, a: seq<Thing>, b: seq<Thing>, concepts: ConceptMap) {
    && Stream(cfg, a, concepts) == Stream(cfg, b, concepts)
    && PrimarySection(cfg.predicates, a, concepts) == PrimarySection(cfg.predicates, b, concepts)
    && Candidates(a, concepts, cfg.predicates.about) == Candidates(b, concepts, cfg.predicates.about)
  }

  /** One more annotation at the end of both. */
  lemma OneMoreSame(cfg: Config, kept: seq<Thing>, visible: seq<Thing>, a: Thing, concepts: ConceptMap)
    requires SameTags(cfg, kept, visible, concepts)
    ensures SameTags(cfg, kept + [a], visible + [a], concepts)
  {
    StreamOneMore(cfg, kept, a, concepts);
    StreamOneMore(cfg, visible, a, concepts);
    SectionOneMore(cfg.predicates, kept, a, concepts);
    SectionOneMore(cfg.predicates, visible, a, concepts);
    CandidatesOneMore(kept, a, concepts, cfg.predicates.about);
    CandidatesOneMore(visible, a, concepts, cfg.predicates.about);
  }

  /** One more annotation without a concordance. */
  lemma OneHiddenSame(cfg: Config, anns: seq<Thing>, a: Thing, concepts: ConceptMap)
    ensures a.id !in concepts ==> SameTags(cfg, anns + [a], anns, concepts)
  {
    if a.id !in concepts {
      StreamOneMore(cfg, anns, a, concepts);
      SectionOneMore(cfg.predicates, anns, a, concepts);
      CandidatesOneMore(anns, a, concepts, cfg.predicates.about);
      assert Stream(cfg, anns, concepts) + [] == Stream(cfg, anns, concepts);
      assert Candidates(anns, concepts, cfg.predicates.about) + [] == Candidates(anns, concepts, cfg.predicates.about);
    }
  }

  lemma {:induction false} VisibleDecides(cfg: Config, metadata: seq<Thing>, concepts: ConceptMap)
    ensures SameTags(cfg, Kept(cfg.predicates, metadata), Visible(cfg.predicates, metadata, concepts), concepts)
  {
    if metadata != [] {
      var before, a := metadata[..|metadata| - 1], metadata[|metadata| - 1];
      VisibleDecides(cfg, before, concepts);
      var kept, visible := Kept(cfg.predicates, before), Visible(cfg.predicates, before, concepts);
      assert kept + [] == kept && visible + [] == visible;
      OneMoreSame(cfg, kept, visible, a, concepts);
      OneHiddenSame(cfg, kept, a, concepts);
    }
  }

  ghost predicate Answers(reader: Reader, concepts: ConceptMap) { forall ids :: reader(ids) == Some(concepts) }

  /** For a fixed concordance map the document depends on the visible annotations alone, also where
      none is kept and the service is not asked. */
  lemma TagsFromVisible(cfg: Config, sorter: Sorter, reader: Reader, metadata: seq<Thing>, concepts: ConceptMap)
    requires Sorts(sorter) && Answers(reader, concepts)
    ensures AnnotationTags(cfg, sorter, reader, metadata) ==
            TagsOf(cfg, sorter, Visible(cfg.predicates, metadata, concepts), concepts)
  {
    VisibleDecides(cfg, metadata, concepts);
    if Kept(cfg.predicates, metadata) == [] {
      NothingVisible(cfg.predicates, metadata, concepts);
    }
  }

  lemma {:induction false} NothingVisible(p: Predicates, metadata: seq<Thing>, concepts: ConceptMap)
    requires Kept(p, metadata) == []
    ensures Visible(p, metadata, concepts) == []
  {
    if metadata != [] { NothingVisible(p, metadata[..|metadata| - 1], concepts); }
  }

  lemma {:induction false} VisibleConcat(p: Predicates, a: seq<Thing>, b: seq<Thing>, concepts: ConceptMap)
    ensures Visible(p, a + b, concepts) == Visible(p, a, concepts) + Visible(p, b, concepts)
  {
    if b == [] {
      assert a + b == a;
    } else {
      var n := |b| - 1;
      assert (a + b)[..|a + b| - 1] == a + b[..n];
      VisibleConcat(p, a, b[..n], concepts);
    }
  }

  lemma {:induction false} HiddenShowNothing(p: Predicates, hidden: seq<Thing>, concepts: ConceptMap)
    requires forall i :: 0 <= i < |hidden| ==> !Shows(p, concepts, hidden[i])
    ensures Visible(p, hidden, concepts) == []
  {
    if hidden != [] { HiddenShowNothing(p, hidden[..|hidden| - 1], concepts); }
  }

  /** Ignored annotations and annotations without a concordance can be put in anywhere. */
  lemma HiddenAnnotationsChangeNothing(
    cfg: Config, sorter: Sorter, reader: Reader, before: seq<Thing>, hidden: seq<Thing>, after: seq<Thing>,
    concepts: ConceptMap)
    requires Sorts(sorter) && Answers(reader, concepts)
    requires forall i :: 0 <= i < |hidden| ==> !Shows(cfg.predicates, concepts, hidden[i])
    ensures AnnotationTags(cfg, sorter, reader, before + hidden + after) ==
            AnnotationTags(cfg, sorter, reader, before + after)
  {
    TagsFromVisible(cfg, sorter, reader, before + hidden + after, concepts);
    TagsFromVisible(cfg, sorter, reader, before + after, concepts);
    VisibleConcat(cfg.predicates, before + hidden, after, concepts);
    VisibleConcat(cfg.predicates, before, hidden, concepts);
    VisibleConcat(cfg.predicates, before, after, concepts);
    HiddenShowNothing(cfg.predicates, hidden, concepts);
    assert Visible(cfg.predicates, before, concepts) + [] == Visible(cfg.predicates, before, concepts);
  }
}
