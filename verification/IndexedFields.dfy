/** What each list of the index document holds, said of the annotations, their types and predicates. */
module IndexedFields {
  import opened Strings
  import opened Concordance
  import opened Taxonomy
  import opened Dedup
  import opened Annotations
  import MapperProperties
  import opened Transformer
  import M = Mapper

  // ----- annotations and their IDs -----

  /** The annotations that pass the test, in order. */
  function Chosen(things: seq<Thing>, test: Thing -> bool): seq<Thing> {
    if things == [] then []
    else var n := |things| - 1; Chosen(things[..n], test) + if test(things[n]) then [things[n]] else []
  }

  function LabelsOf(things: seq<Thing>): seq<string> {
    if things == [] then [] else LabelsOf(things[..|things| - 1]) + [things[|things| - 1].prefLabel]
  }

  function AllIDs(things: seq<Thing>, ids: Thing -> seq<string>): seq<string> {
    if things == [] then [] else AllIDs(things[..|things| - 1], ids) + ids(things[|things| - 1])
  }

  /** The ID after the prefix of things, if it begins with it. */
  function Canonical(id: string): string {
    if "http://api.ft.com/things/" <= id then id[|"http://api.ft.com/things/"|..] else id
  }

  /** The canonical ID and then the concept's TME IDs. */
  function IDsFor(a: Thing, concepts: ConceptMap): seq<string> {
    [Canonical(a.id)] + if a.id in concepts then concepts[a.id] else []
  }

  /** The annotation is neither a mention nor a display tag and has a concordance. */
  predicate Known(p: Predicates, concepts: ConceptMap, a: Thing) {
    a.predicateURI != p.mentions && a.predicateURI != p.hasDisplayTag && a.id in concepts
  }

  lemma AnnIDsAre(a: Thing, concepts: ConceptMap)
    requires a.id in concepts
    ensures AnnIDs(a, concepts) == IDsFor(a, concepts)
  {
  }

  // ----- repeated contributions -----

  /** `unit` n times over. */
  function Times(unit: seq<string>, n: nat): seq<string> { if n == 0 then [] else Times(unit, n - 1) + unit }

  lemma {:induction false} AddPresent(s: seq<string>, xs: seq<string>)
    requires forall x :: x in xs ==> x in s
    ensures AddAll(s, xs) == s
    decreases xs
  {
    if xs != [] {
      assert xs == [xs[0]] + xs[1..];
      AddPresent(s, xs[1..]);
    }
  }

  lemma {:induction false} AddedStay(s: seq<string>, xs: seq<string>, x: string)
    ensures x in s || x in xs ==> x in AddAll(s, xs)
    decreases xs
  {
    if xs != [] {
      assert xs == [xs[0]] + xs[1..];
      AddedStay(AddOnce(s, xs[0]), xs[1..], x);
    }
  }

  /** Adding a unit again and again is adding it once. */
  lemma {:induction false} AddTimes(s: seq<string>, unit: seq<string>, n: nat)
    ensures AddAll(s, Times(unit, n)) == if n == 0 then s else AddAll(s, unit)
  {
    if n > 0 {
      AddTimes(s, unit, n - 1);
      AddAllConcat(s, Times(unit, n - 1), unit);
      forall x | x in unit ensures x in AddAll(s, unit) {
        AddedStay(s, unit, x);
      }
      AddPresent(AddAll(s, unit), unit);
    }
  }

  /** The list is the unit some number of times, and at least once exactly when `some`. */
  ghost predicate Repeats(list: seq<string>, unit: seq<string>, some: bool) {
    exists n: nat :: list == Times(unit, n) && (n > 0 <==> some)
  }

  lemma RepeatsAdds(s: seq<string>, list: seq<string>, unit: seq<string>, some: bool)
    requires Repeats(list, unit, some)
    ensures AddAll(s, list) == if some then AddAll(s, unit) else s
  {
    var n: nat :| list == Times(unit, n) && (n > 0 <==> some);
    AddTimes(s, unit, n);
  }

  lemma RepeatsNone(unit: seq<string>)
    ensures Repeats([], unit, false)
  {
    assert Times(unit, 0) == [];
  }

  lemma RepeatsMore(list: seq<string>, unit: seq<string>, some: bool, more: seq<string>, hit: bool)
    requires Repeats(list, unit, some) && more == if hit then unit else []
    ensures Repeats(list + more, unit, some || hit)
  {
    var n: nat :| list == Times(unit, n) && (n > 0 <==> some);
    if hit {
      assert list + more == Times(unit, n + 1);
    } else {
      assert list + more == Times(unit, n);
    }
  }

  // ----- from one annotation to the lists -----

  /** What one annotation brings to the two lists of a category: its label and `ids`, or nothing. */
  ghost predicate Brings(cfg: Config, concepts: ConceptMap, c: Category, a: Thing, makes: bool, ids: seq<string>) {
    var cs := ThingContributions(cfg, a, concepts);
    Repeats(Labels(cs, c), [a.prefLabel], makes) && Repeats(IDs(cs, c), ids, makes)
  }

  lemma ChosenSnoc(things: seq<Thing>, test: Thing -> bool, ids: Thing -> seq<string>)
    requires things != []
    ensures var n := |things| - 1;
            var before, a := Chosen(things[..n], test), things[n];
            && LabelsOf(Chosen(things, test)) == LabelsOf(before) + (if test(a) then [a.prefLabel] else [])
            && AllIDs(Chosen(things, test), ids) == AllIDs(before, ids) + (if test(a) then ids(a) else [])
  {
    var n := |things| - 1;
    var before := Chosen(things[..n], test);
    assert (before + [things[n]])[..|before|] == before;
    assert before + [] == before;
    assert LabelsOf(before) + [] == LabelsOf(before) && AllIDs(before, ids) + [] == AllIDs(before, ids);
  }

  lemma DistinctMore(xs: seq<string>, more: seq<string>, ys: seq<string>, unit: seq<string>, some: bool)
    requires Distinct(xs) == Distinct(ys) && Repeats(more, unit, some)
    ensures Distinct(xs + more) == Distinct(ys + if some then unit else [])
  {
    AddAllConcat([], xs, more);
    AddAllConcat([], ys, if some then unit else []);
    RepeatsAdds(Distinct(xs), more, unit, some);
  }

  /** The lists of a category are those of the annotations that make entries in it. */
  lemma {:induction false} ListsOfMakers(cfg: Config, concepts: ConceptMap, c: Category, anns: seq<Thing>,
                                         makes: Thing -> bool, ids: Thing -> seq<string>)
    requires forall a :: a in anns ==> Brings(cfg, concepts, c, a, makes(a), ids(a))
    ensures var who := Chosen(anns, makes);
            ListsOf(Stream(cfg, anns, concepts))[c] == TagLists(Distinct(LabelsOf(who)), Distinct(AllIDs(who, ids)))
  {
    if anns != [] {
      var n := |anns| - 1;
      var before, cs := Stream(cfg, anns[..n], concepts), ThingContributions(cfg, anns[n], concepts);
      assert forall a :: a in anns[..n] ==> a in anns;
      ListsOfMakers(cfg, concepts, c, anns[..n], makes, ids);
      LabelsConcat(before, cs, c);
      IDsConcat(before, cs, c);
      ChosenSnoc(anns, makes, ids);
      assert anns[n] in anns;
      var was := Chosen(anns[..n], makes);
      DistinctMore(Labels(before, c), Labels(cs, c), LabelsOf(was), [anns[n].prefLabel], makes(anns[n]));
      DistinctMore(IDs(before, c), IDs(cs, c), AllIDs(was, ids), ids(anns[n]), makes(anns[n]));
    }
  }

  // ----- the types of one annotation -----

  lemma HitsMore(types: seq<string>, t: string, hits: string -> bool)
    ensures (exists u :: u in types + [t] && hits(u)) <==> (exists u :: u in types && hits(u)) || hits(t)
  {
    assert t in types + [t];
  }

  /** What a type brings to the two lists of a category. */
  ghost predicate TypeHits(cfg: Config, a: Thing, ids: seq<string>, t: string, c: Category, unit: seq<string>,
                           hit: bool)
    requires ids != []
  {
    var cs := TypeContributions(cfg, a, ids, ids[0], t);
    Labels(cs, c) == (if hit then [a.prefLabel] else []) && IDs(cs, c) == (if hit then unit else [])
  }

  lemma {:induction false} TypesBring(cfg: Config, a: Thing, ids: seq<string>, types: seq<string>, c: Category,
                                      unit: seq<string>, hits: string -> bool)
    requires ids != []
    requires forall t :: t in types ==> TypeHits(cfg, a, ids, t, c, unit, hits(t))
    ensures var cs := TypesContributions(cfg, a, ids, ids[0], types);
            Repeats(Labels(cs, c), [a.prefLabel], exists t :: t in types && hits(t)) &&
            Repeats(IDs(cs, c), unit, exists t :: t in types && hits(t))
  {
    if types == [] {
      RepeatsNone([a.prefLabel]);
      RepeatsNone(unit);
    } else {
      var n := |types| - 1;
      var before := TypesContributions(cfg, a, ids, ids[0], types[..n]);
      var cs := TypeContributions(cfg, a, ids, ids[0], types[n]);
      assert types == types[..n] + [types[n]];
      TypesBring(cfg, a, ids, types[..n], c, unit, hits);
      LabelsConcat(before, cs, c);
      IDsConcat(before, cs, c);
      var some := exists t :: t in types[..n] && hits(t);
      HitsMore(types[..n], types[n], hits);
      assert TypeHits(cfg, a, ids, types[n], c, unit, hits(types[n]));
      RepeatsMore(Labels(before, c), [a.prefLabel], some, Labels(cs, c), hits(types[n]));
      RepeatsMore(IDs(before, c), unit, some, IDs(cs, c), hits(types[n]));
    }
  }

  /** A type list: nothing comes from the predicate, and from the types what `hits` says. */
  lemma ThingBrings(cfg: Config, concepts: ConceptMap, a: Thing, c: Category, unit: seq<string>, hits: string -> bool,
                    makes: bool)
    requires a.id in concepts && c != Section
    requires forall t :: t in a.types ==> TypeHits(cfg, a, IDsFor(a, concepts), t, c, unit, hits(t))
    requires makes <==> exists t :: t in a.types && hits(t)
    ensures Brings(cfg, concepts, c, a, makes, unit)
  {
    var ids := IDsFor(a, concepts);
    AnnIDsAre(a, concepts);
    var sections := SectionContributions(cfg.predicates, a, ids);
    var types := TypesContributions(cfg, a, ids, ids[0], a.types);
    TypesBring(cfg, a, ids, a.types, c, unit, hits);
    LabelsConcat(sections, types, c);
    IDsConcat(sections, types, c);
    NotSections(cfg.predicates, a, ids, c);
  }

  lemma NotSections(p: Predicates, a: Thing, ids: seq<string>, c: Category)
    requires c != Section
    ensures Labels(SectionContributions(p, a, ids), c) == [] && IDs(SectionContributions(p, a, ids), c) == []
  {
    var cs := SectionContributions(p, a, ids);
    assert cs != [] ==> cs[1..] == [];
  }

  lemma UnknownBrings(cfg: Config, concepts: ConceptMap, c: Category, a: Thing, ids: seq<string>)
    requires a.id !in concepts
    ensures Brings(cfg, concepts, c, a, false, ids)
  {
    RepeatsNone([a.prefLabel]);
    RepeatsNone(ids);
  }

  lemma LoneLists(one: Contribution, c: Category)
    ensures Labels([one], c) == (if one.category == c then [one.prefLabel] else [])
    ensures IDs([one], c) == (if one.category == c then one.ids else [])
  {
    assert [one][1..] == [];
  }

  // ----- the document -----

  /** The IDs the concept reader is asked for: those of all annotations but mentions and display tags. */
  function AskedIDs(p: Predicates, metadata: seq<Thing>): seq<string> {
    if metadata == [] then []
    else
      var n := |metadata| - 1;
      AskedIDs(p, metadata[..n]) +
      if metadata[n].predicateURI != p.mentions && metadata[n].predicateURI != p.hasDisplayTag then [metadata[n].id]
         else []
  }

  lemma {:induction false} AskedAreKept(p: Predicates, metadata: seq<Thing>)
    ensures ThingIDs(Kept(p, metadata)) == AskedIDs(p, metadata)
  {
    if metadata != [] {
      AskedAreKept(p, metadata[..|metadata| - 1]);
    }
  }

  lemma {:induction false} KeptAreKnown(p: Predicates, metadata: seq<Thing>, concepts: ConceptMap, makes: Thing -> bool,
                                        test: Thing -> bool)
    requires forall a :: test(a) <==> IsKept(p, a) && makes(a)
    ensures Chosen(Kept(p, metadata), makes) == Chosen(metadata, test)
    ensures forall a :: a in Kept(p, metadata) ==> IsKept(p, a)
  {
    if metadata != [] {
      var n := |metadata| - 1;
      var before := Kept(p, metadata[..n]);
      KeptAreKnown(p, metadata[..n], concepts, makes, test);
      if IsKept(p, metadata[n]) {
        assert Kept(p, metadata)[..|before|] == before;
      } else {
        assert Kept(p, metadata) == before;
        assert Chosen(metadata[..n], test) + [] == Chosen(metadata[..n], test);
      }
    }
  }

  function DocumentLists(cfg: Config, lib: M.Libraries, url: string, e: M.EnrichedContent,
                         contentType: string): (lists: CategoryLists)
    requires Sorts(lib.sorter)
    ensures forall c :: c in lists
  {
    M.DocumentOf(cfg, lib, url, e, contentType).tags.lists
  }

  /** The labels and IDs of some annotations, each once, in the order in which they come. */
  function ListsFor(who: seq<Thing>, ids: Thing -> seq<string>): TagLists {
    TagLists(Distinct(LabelsOf(who)), Distinct(AllIDs(who, ids)))
  }

  /** In any category the document's lists are those of the annotations that make entries in it. */
  lemma DocumentListsOf(cfg: Config, lib: M.Libraries, url: string, e: M.EnrichedContent, contentType: string,
                        concepts: ConceptMap, c: Category, test: Thing -> bool, ids: Thing -> seq<string>)
    requires Sorts(lib.sorter) && lib.reader(AskedIDs(cfg.predicates, e.metadata)) == Some(concepts)
    requires forall a :: test(a) ==> Known(cfg.predicates, concepts, a)
    requires forall a :: Known(cfg.predicates, concepts, a) ==> Brings(cfg, concepts, c, a, test(a), ids(a))
    ensures DocumentLists(cfg, lib, url, e, contentType)[c] == ListsFor(Chosen(e.metadata, test), ids)
  {
    var p, anns := cfg.predicates, Kept(cfg.predicates, e.metadata);
    AskedAreKept(p, e.metadata);
    KeptAreKnown(p, e.metadata, concepts, test, test);
    assert Stream(cfg, [], concepts) == [];
    assert DocumentLists(cfg, lib, url, e, contentType) == ListsOf(Stream(cfg, anns, concepts));
    forall a | a in anns ensures Brings(cfg, concepts, c, a, test(a), ids(a)) {
      if a.id !in concepts {
        UnknownBrings(cfg, concepts, c, a, ids(a));
      }
    }
    ListsOfMakers(cfg, concepts, c, anns, test, ids);
  }

  /** The IDs of every annotation, for a fixed concept map. */
  function IDsBy(concepts: ConceptMap): Thing -> seq<string> { (a: Thing) => IDsFor(a, concepts) }

  lemma TypeLists(cfg: Config, a: Thing, ids: seq<string>, t: string, c: Category)
    requires ids != [] && c != Section && c != Person && c != Author
    ensures var cs, hit := TypeContributions(cfg, a, ids, ids[0], t), TypeCategory(cfg.conceptTypes, t) == Some(c);
            Labels(cs, c) == (if hit then [a.prefLabel] else []) && IDs(cs, c) == (if hit then ids else [])
  {
    match TypeCategory(cfg.conceptTypes, t)
    case None =>
    case Some(Person) => PersonLists(cfg.predicates, a, ids, c);
    case Some(category) => LoneLists(Contribution(category, a.prefLabel, ids), c);
  }

  /** What a person contributes to a category: a label and IDs among the people, an author's among the authors. */
  lemma PersonLists(p: Predicates, a: Thing, ids: seq<string>, c: Category)
    requires ids != []
    ensures var cs := PersonContributions(p, a, ids, ids[0]);
            && Labels(cs, c) == Labels(PeoplePart(a, ids), c) + Labels(AuthorPart(p, a, ids, ids[0]), c)
            && IDs(cs, c) == IDs(PeoplePart(a, ids), c) + IDs(AuthorPart(p, a, ids, ids[0]), c)
            && (c != Person ==> Labels(PeoplePart(a, ids), c) == IDs(PeoplePart(a, ids), c) == [])
            && (c != Author ==> Labels(AuthorPart(p, a, ids, ids[0]), c) == IDs(AuthorPart(p, a, ids, ids[0]), c) == [])
  {
    LabelsConcat(PeoplePart(a, ids), AuthorPart(p, a, ids, ids[0]), c);
    IDsConcat(PeoplePart(a, ids), AuthorPart(p, a, ids, ids[0]), c);
    if PeoplePart(a, ids) != [] { LoneLists(PeoplePart(a, ids)[0], c); }
    if AuthorPart(p, a, ids, ids[0]) != [] { LoneLists(AuthorPart(p, a, ids, ids[0])[0], c); }
  }

  /** A list whose entries come from one concept type alone. */
  lemma OneTypeListed(cfg: Config, lib: M.Libraries, url: string, e: M.EnrichedContent, contentType: string,
                      concepts: ConceptMap, c: Category, test: Thing -> bool, hits: string -> bool)
    requires Sorts(lib.sorter) && lib.reader(AskedIDs(cfg.predicates, e.metadata)) == Some(concepts)
    requires c != Section && c != Person && c != Author
    requires forall t :: hits(t) <==> TypeCategory(cfg.conceptTypes, t) == Some(c)
    requires forall a :: test(a) <==> Known(cfg.predicates, concepts, a) && exists t :: t in a.types && hits(t)
    ensures DocumentLists(cfg, lib, url, e, contentType)[c] == ListsFor(Chosen(e.metadata, test), IDsBy(concepts))
  {
    forall a | Known(cfg.predicates, concepts, a)
      ensures Brings(cfg, concepts, c, a, test(a), IDsBy(concepts)(a))
    {
      var ids := IDsFor(a, concepts);
      forall t | t in a.types ensures TypeHits(cfg, a, ids, t, c, ids, hits(t)) {
        TypeLists(cfg, a, ids, t, c);
      }
      ThingBrings(cfg, concepts, a, c, ids, hits, test(a));
    }
    DocumentListsOf(cfg, lib, url, e, contentType, concepts, c, test, IDsBy(concepts));
  }

  // ----- list by list -----

  /** CmrOrgnames */
  lemma OrganisationsListed(cfg: Config, lib: M.Libraries, url: string, e: M.EnrichedContent, contentType: string,
                            concepts: ConceptMap, who: Thing -> bool)
    requires Sorts(lib.sorter) && lib.reader(AskedIDs(cfg.predicates, e.metadata)) == Some(concepts)
    requires var t := cfg.conceptTypes;
             forall a :: who(a) <==>
               Known(cfg.predicates, concepts, a) && t.organisation in a.types
    ensures DocumentLists(cfg, lib, url, e, contentType)[Organisation] ==
            ListsFor(Chosen(e.metadata, who), IDsBy(concepts))
  {
    var t := cfg.conceptTypes;
    var hits := (u: string) => u == t.organisation;
    OneTypeListed(cfg, lib, url, e, contentType, concepts, Organisation, who, hits);
  }

  /** CmrCompanynames */
  lemma CompaniesListed(cfg: Config, lib: M.Libraries, url: string, e: M.EnrichedContent, contentType: string,
                        concepts: ConceptMap, who: Thing -> bool)
    requires Sorts(lib.sorter) && lib.reader(AskedIDs(cfg.predicates, e.metadata)) == Some(concepts)
    requires var t := cfg.conceptTypes;
             forall a :: who(a) <==>
               Known(cfg.predicates, concepts, a) && t.company in a.types && t.company != t.organisation &&
               t.company != t.person
    ensures DocumentLists(cfg, lib, url, e, contentType)[Company] == ListsFor(Chosen(e.metadata, who), IDsBy(concepts))
  {
    var t := cfg.conceptTypes;
    var hits := (u: string) => u == t.company && u != t.organisation && u != t.person;
    OneTypeListed(cfg, lib, url, e, contentType, concepts, Company, who, hits);
  }

  /** CmrBrands */
  lemma BrandsListed(cfg: Config, lib: M.Libraries, url: string, e: M.EnrichedContent, contentType: string,
                     concepts: ConceptMap, who: Thing -> bool)
    requires Sorts(lib.sorter) && lib.reader(AskedIDs(cfg.predicates, e.metadata)) == Some(concepts)
    requires var t := cfg.conceptTypes;
             forall a :: who(a) <==>
               Known(cfg.predicates, concepts, a) && t.brand in a.types && t.brand != t.organisation &&
               t.brand != t.person && t.brand != t.company
    ensures DocumentLists(cfg, lib, url, e, contentType)[Brand] == ListsFor(Chosen(e.metadata, who), IDsBy(concepts))
  {
    var t := cfg.conceptTypes;
    var hits := (u: string) => u == t.brand && u != t.organisation && u != t.person && u != t.company;
    OneTypeListed(cfg, lib, url, e, contentType, concepts, Brand, who, hits);
  }

  /** CmrTopics */
  lemma TopicsListed(cfg: Config, lib: M.Libraries, url: string, e: M.EnrichedContent, contentType: string,
                     concepts: ConceptMap, who: Thing -> bool)
    requires Sorts(lib.sorter) && lib.reader(AskedIDs(cfg.predicates, e.metadata)) == Some(concepts)
    requires var t := cfg.conceptTypes;
             forall a :: who(a) <==>
               Known(cfg.predicates, concepts, a) && t.topic in a.types && t.topic != t.organisation &&
               t.topic != t.person && t.topic != t.company && t.topic != t.brand
    ensures DocumentLists(cfg, lib, url, e, contentType)[Topic] == ListsFor(Chosen(e.metadata, who), IDsBy(concepts))
  {
    var t := cfg.conceptTypes;
    var hits := (u: string) => u == t.topic && u != t.organisation && u != t.person && u != t.company &&
                               u != t.brand;
    OneTypeListed(cfg, lib, url, e, contentType, concepts, Topic, who, hits);
  }

  /** CmrRegions */
  lemma RegionsListed(cfg: Config, lib: M.Libraries, url: string, e: M.EnrichedContent, contentType: string,
                      concepts: ConceptMap, who: Thing -> bool)
    requires Sorts(lib.sorter) && lib.reader(AskedIDs(cfg.predicates, e.metadata)) == Some(concepts)
    requires var t := cfg.conceptTypes;
             forall a :: who(a) <==>
               Known(cfg.predicates, concepts, a) && t.location in a.types && t.location != t.organisation &&
               t.location != t.person && t.location != t.company && t.location != t.brand && t.location != t.topic
    ensures DocumentLists(cfg, lib, url, e, contentType)[Region] == ListsFor(Chosen(e.metadata, who), IDsBy(concepts))
  {
    var t := cfg.conceptTypes;
    var hits := (u: string) => u == t.location && u != t.organisation && u != t.person && u != t.company &&
                               u != t.brand && u != t.topic;
    OneTypeListed(cfg, lib, url, e, contentType, concepts, Region, who, hits);
  }

  /** CmrGenres */
  lemma GenresListed(cfg: Config, lib: M.Libraries, url: string, e: M.EnrichedContent, contentType: string,
                     concepts: ConceptMap, who: Thing -> bool)
    requires Sorts(lib.sorter) && lib.reader(AskedIDs(cfg.predicates, e.metadata)) == Some(concepts)
    requires var t := cfg.conceptTypes;
             forall a :: who(a) <==>
               Known(cfg.predicates, concepts, a) && t.genre in a.types && t.genre != t.organisation &&
               t.genre != t.person && t.genre != t.company && t.genre != t.brand && t.genre != t.topic &&
               t.genre != t.location
    ensures DocumentLists(cfg, lib, url, e, contentType)[Genre] == ListsFor(Chosen(e.metadata, who), IDsBy(concepts))
  {
    var t := cfg.conceptTypes;
    var hits := (u: string) => u == t.genre && u != t.organisation && u != t.person && u != t.company &&
                               u != t.brand && u != t.topic && u != t.location;
    OneTypeListed(cfg, lib, url, e, contentType, concepts, Genre, who, hits);
  }

  // ----- people and authors -----

  /** Not someone with an author's ID and no person's. */
  predicate ListedAsPerson(ids: seq<string>) { !NoneEnds("UE4=", ids) || NoneEnds("QXV0aG9ycw==", ids) }

  lemma CmrIDsAre(ids: seq<string>)
    ensures CmrID(PEOPLE, ids).Some? <==> !NoneEnds("UE4=", ids)
    ensures CmrID(AUTHORS, ids).Some? <==> !NoneEnds("QXV0aG9ycw==", ids)
    ensures CmrID(AUTHORS, ids).Some? ==> IsFirstEnding("QXV0aG9ycw==", ids, CmrID(AUTHORS, ids).value)
  {
    SuffixTexts();
    CmrIDIs(PEOPLE, ids);
    CmrIDIs(AUTHORS, ids);
  }

  lemma FirstEndingIsOne(suffix: string, ids: seq<string>, x: string, y: string)
    requires IsFirstEnding(suffix, ids, x) && IsFirstEnding(suffix, ids, y)
    ensures x == y
  {
    var i :| 0 <= i < |ids| && ids[i] == x && HasSuffix(x, suffix) && forall j :: 0 <= j < i ==>
        !HasSuffix(ids[j], suffix);
    var k :| 0 <= k < |ids| && ids[k] == y && HasSuffix(y, suffix) && forall j :: 0 <= j < k ==>
        !HasSuffix(ids[j], suffix);
  }

  lemma PeoplePartIs(a: Thing, ids: seq<string>, listed: bool)
    requires listed <==> ListedAsPerson(ids)
    ensures PeoplePart(a, ids) == if listed then [Contribution(Person, a.prefLabel, ids)] else []
  {
    CmrIDsAre(ids);
  }

  lemma PersonTypeLists(cfg: Config, a: Thing, ids: seq<string>, t: string, listed: bool)
    requires ids != [] && (listed <==> ListedAsPerson(ids))
    ensures var cs, hit := TypeContributions(cfg, a, ids, ids[0], t),
                           TypeCategory(cfg.conceptTypes, t) == Some(Person) && listed;
            Labels(cs, Person) == (if hit then [a.prefLabel] else []) && IDs(cs, Person) == (if hit then ids else [])
  {
    match TypeCategory(cfg.conceptTypes, t)
    case None =>
    case Some(Person) =>
      PeoplePartIs(a, ids, listed);
      PersonLists(cfg.predicates, a, ids, Person);
      LoneLists(Contribution(Person, a.prefLabel, ids), Person);
    case Some(category) => LoneLists(Contribution(category, a.prefLabel, ids), Person);
  }

  lemma HitsBring(cfg: Config, concepts: ConceptMap, a: Thing, c: Category, unit: seq<string>, hits: string -> bool,
                  own: string, listed: bool, makes: bool)
    requires a.id in concepts && c != Section
    requires forall t :: t in a.types ==> TypeHits(cfg, a, IDsFor(a, concepts), t, c, unit, hits(t))
    requires forall u :: hits(u) <==> u == own && listed
    requires makes <==> own in a.types && listed
    ensures Brings(cfg, concepts, c, a, makes, unit)
  {
    ThingBrings(cfg, concepts, a, c, unit, hits, makes);
  }

  lemma PersonTypesHit(cfg: Config, a: Thing, ids: seq<string>, listed: bool, hits: string -> bool)
    requires ids != [] && (listed <==> ListedAsPerson(ids))
    requires forall u :: hits(u) <==> TypeCategory(cfg.conceptTypes, u) == Some(Person) && listed
    ensures forall t :: t in a.types ==> TypeHits(cfg, a, ids, t, Person, ids, hits(t))
  {
    forall t | t in a.types ensures TypeHits(cfg, a, ids, t, Person, ids, hits(t)) {
      PersonTypeLists(cfg, a, ids, t, listed);
    }
  }

  lemma PersonBrings(cfg: Config, concepts: ConceptMap, a: Thing, listed: bool, makes: bool)
    requires a.id in concepts && (listed <==> ListedAsPerson(IDsFor(a, concepts)))
    requires var t := cfg.conceptTypes; makes <==> t.person in a.types && t.person != t.organisation && listed
    ensures Brings(cfg, concepts, Person, a, makes, IDsFor(a, concepts))
  {
    var T := cfg.conceptTypes;
    var some := listed && T.person != T.organisation;
    var hits := (u: string) => u == T.person && some;
    assert forall u :: hits(u) <==> TypeCategory(T, u) == Some(Person) && listed;
    PersonTypesHit(cfg, a, IDsFor(a, concepts), listed, hits);
    HitsBring(cfg, concepts, a, Person, IDsFor(a, concepts), hits, T.person, some, makes);
  }

  /** CmrPeople */
  lemma PeopleListed(cfg: Config, lib: M.Libraries, url: string, e: M.EnrichedContent, contentType: string,
                     concepts: ConceptMap, who: Thing -> bool)
    requires Sorts(lib.sorter) && lib.reader(AskedIDs(cfg.predicates, e.metadata)) == Some(concepts)
    requires var t := cfg.conceptTypes;
             forall a :: who(a) <==>
               Known(cfg.predicates, concepts, a) && t.person in a.types && t.person != t.organisation &&
               ListedAsPerson(IDsFor(a, concepts))
    ensures DocumentLists(cfg, lib, url, e, contentType)[Person] == ListsFor(Chosen(e.metadata, who), IDsBy(concepts))
  {
    forall a | Known(cfg.predicates, concepts, a) ensures Brings(cfg, concepts, Person, a, who(a), IDsBy(concepts)(a)) {
      PersonBrings(cfg, concepts, a, ListedAsPerson(IDsFor(a, concepts)), who(a));
    }
    DocumentListsOf(cfg, lib, url, e, contentType, concepts, Person, who, IDsBy(concepts));
  }

  /** The annotation's predicate credits its person and an author's ID is there. */
  predicate ListedAsAuthor(p: Predicates, a: Thing, ids: seq<string>) {
    (a.predicateURI == p.hasAuthor || a.predicateURI == p.hasContributor) && !NoneEnds("QXV0aG9ycw==", ids)
  }

  /** The author's IDs: the first that ends as one and the canonical one. */
  predicate AreAuthorIDs(ids: seq<string>, unit: seq<string>)
    requires ids != []
  {
    |unit| == 2 && IsFirstEnding("QXV0aG9ycw==", ids, unit[0]) && unit[1] == ids[0]
  }

  lemma AuthorPartIs(p: Predicates, a: Thing, ids: seq<string>, unit: seq<string>, listed: bool)
    requires ids != [] && (listed <==> ListedAsAuthor(p, a, ids)) && (listed ==> AreAuthorIDs(ids, unit))
    ensures AuthorPart(p, a, ids, ids[0]) == if listed then [Contribution(Author, a.prefLabel, unit)] else []
  {
    CmrIDsAre(ids);
    if listed {
      FirstEndingIsOne("QXV0aG9ycw==", ids, CmrID(AUTHORS, ids).value, unit[0]);
      assert unit == [unit[0], unit[1]];
    }
  }

  lemma AuthorTypeLists(cfg: Config, a: Thing, ids: seq<string>, t: string, unit: seq<string>, listed: bool)
    requires ids != [] && (listed <==> ListedAsAuthor(cfg.predicates, a, ids)) && (listed ==> AreAuthorIDs(ids, unit))
    ensures var cs, hit := TypeContributions(cfg, a, ids, ids[0], t),
                           TypeCategory(cfg.conceptTypes, t) == Some(Person) && listed;
            Labels(cs, Author) == (if hit then [a.prefLabel] else []) && IDs(cs, Author) == (if hit then unit else [])
  {
    match TypeCategory(cfg.conceptTypes, t)
    case None =>
    case Some(Person) =>
      AuthorPartIs(cfg.predicates, a, ids, unit, listed);
      PersonLists(cfg.predicates, a, ids, Author);
      LoneLists(Contribution(Author, a.prefLabel, unit), Author);
    case Some(category) => LoneLists(Contribution(category, a.prefLabel, ids), Author);
  }

  lemma AuthorTypesHit(cfg: Config, a: Thing, ids: seq<string>, unit: seq<string>, listed: bool, hits: string -> bool)
    requires ids != [] && (listed <==> ListedAsAuthor(cfg.predicates, a, ids)) && (listed ==> AreAuthorIDs(ids, unit))
    requires forall u :: hits(u) <==> TypeCategory(cfg.conceptTypes, u) == Some(Person) && listed
    ensures forall t :: t in a.types ==> TypeHits(cfg, a, ids, t, Author, unit, hits(t))
  {
    forall t | t in a.types ensures TypeHits(cfg, a, ids, t, Author, unit, hits(t)) {
      AuthorTypeLists(cfg, a, ids, t, unit, listed);
    }
  }

  lemma AuthorBrings(cfg: Config, concepts: ConceptMap, a: Thing, unit: seq<string>, listed: bool, makes: bool)
    requires a.id in concepts && (listed <==> ListedAsAuthor(cfg.predicates, a, IDsFor(a, concepts)))
    requires listed ==> AreAuthorIDs(IDsFor(a, concepts), unit)
    requires var t := cfg.conceptTypes; makes <==> t.person in a.types && t.person != t.organisation && listed
    ensures Brings(cfg, concepts, Author, a, makes, unit)
  {
    var T := cfg.conceptTypes;
    var some := listed && T.person != T.organisation;
    var hits := (u: string) => u == T.person && some;
    assert forall u :: hits(u) <==> TypeCategory(T, u) == Some(Person) && listed;
    AuthorTypesHit(cfg, a, IDsFor(a, concepts), unit, listed, hits);
    HitsBring(cfg, concepts, a, Author, unit, hits, T.person, some, makes);
  }

  /** CmrAuthors: the first ID that ends as an author's and the canonical one. */
  lemma AuthorsListed(cfg: Config, lib: M.Libraries, url: string, e: M.EnrichedContent, contentType: string,
                      concepts: ConceptMap, who: Thing -> bool, ids: Thing -> seq<string>)
    requires Sorts(lib.sorter) && lib.reader(AskedIDs(cfg.predicates, e.metadata)) == Some(concepts)
    requires var t := cfg.conceptTypes;
             forall a :: who(a) <==>
               Known(cfg.predicates, concepts, a) && t.person in a.types && t.person != t.organisation &&
               ListedAsAuthor(cfg.predicates, a, IDsFor(a, concepts))
    requires forall a :: ListedAsAuthor(cfg.predicates, a, IDsFor(a, concepts)) ==>
               AreAuthorIDs(IDsFor(a, concepts), ids(a))
    ensures DocumentLists(cfg, lib, url, e, contentType)[Author] == ListsFor(Chosen(e.metadata, who), ids)
  {
    forall a | Known(cfg.predicates, concepts, a) ensures Brings(cfg, concepts, Author, a, who(a), ids(a)) {
      AuthorBrings(cfg, concepts, a, ids(a), ListedAsAuthor(cfg.predicates, a, IDsFor(a, concepts)), who(a));
    }
    DocumentListsOf(cfg, lib, url, e, contentType, concepts, Author, who, ids);
  }

  // ----- sections -----

  lemma {:induction false} NoSectionTypes(cfg: Config, a: Thing, ids: seq<string>, types: seq<string>)
    requires ids != []
    ensures var cs := TypesContributions(cfg, a, ids, ids[0], types); Labels(cs, Section) == IDs(cs, Section) == []
  {
    if types != [] {
      var n := |types| - 1;
      var before := TypesContributions(cfg, a, ids, ids[0], types[..n]);
      NoSectionTypes(cfg, a, ids, types[..n]);
      LabelsConcat(before, TypeContributions(cfg, a, ids, ids[0], types[n]), Section);
      IDsConcat(before, TypeContributions(cfg, a, ids, ids[0], types[n]), Section);
      match TypeCategory(cfg.conceptTypes, types[n])
      case None =>
      case Some(Person) => PersonLists(cfg.predicates, a, ids, Section);
      case Some(category) => LoneLists(Contribution(category, a.prefLabel, ids), Section);
    }
  }

  lemma SectionBrings(cfg: Config, concepts: ConceptMap, a: Thing, makes: bool)
    requires a.id in concepts
    requires makes <==> IsSectional(cfg.predicates, a.predicateURI) || IsPrimary(cfg.predicates, a.predicateURI)
    ensures Brings(cfg, concepts, Section, a, makes, IDsFor(a, concepts))
  {
    var ids := IDsFor(a, concepts);
    AnnIDsAre(a, concepts);
    var sections := SectionContributions(cfg.predicates, a, ids);
    var types := TypesContributions(cfg, a, ids, ids[0], a.types);
    LabelsConcat(sections, types, Section);
    IDsConcat(sections, types, Section);
    NoSectionTypes(cfg, a, ids, a.types);
    LoneLists(Contribution(Section, a.prefLabel, ids), Section);
    RepeatsNone([a.prefLabel]);
    RepeatsNone(ids);
    RepeatsMore([], [a.prefLabel], false, if makes then [a.prefLabel] else [], makes);
    RepeatsMore([], ids, false, if makes then ids else [], makes);
    assert [] + Labels(sections, Section) == Labels(sections, Section) + [];
    assert [] + IDs(sections, Section) == IDs(sections, Section) + [];
  }

  /** CmrSections */
  lemma SectionsListed(cfg: Config, lib: M.Libraries, url: string, e: M.EnrichedContent, contentType: string,
                       concepts: ConceptMap, who: Thing -> bool)
    requires Sorts(lib.sorter) && lib.reader(AskedIDs(cfg.predicates, e.metadata)) == Some(concepts)
    requires var p := cfg.predicates;
             forall a :: who(a) <==>
               Known(p, concepts, a) &&
               a.predicateURI in {p.about, p.majorMentions, p.implicitlyAbout, p.isClassifiedBy,
                                  p.implicitlyClassifiedBy,
                                  p.isPrimaryClassifiedBy}
    ensures DocumentLists(cfg, lib, url, e, contentType)[Section] == ListsFor(Chosen(e.metadata, who), IDsBy(concepts))
  {
    forall a | Known(cfg.predicates, concepts, a)
      ensures Brings(cfg, concepts, Section, a, who(a), IDsBy(concepts)(a))
    {
      SectionBrings(cfg, concepts, a, who(a));
    }
    DocumentListsOf(cfg, lib, url, e, contentType, concepts, Section, who, IDsBy(concepts));
  }

  // ----- primary section -----

  lemma {:induction false} PrimaryIsLastChosen(p: Predicates, anns: seq<Thing>, concepts: ConceptMap,
                                               sets: Thing -> bool)
    requires forall a :: a in anns ==> (sets(a) <==> a.id in concepts && IsPrimary(p, a.predicateURI))
    ensures var who := Chosen(anns, sets);
            && (who == [] ==> PrimarySection(p, anns, concepts) == None)
            && (who != [] ==>
                  var a := who[|who| - 1];
                  a.id in concepts &&
                  PrimarySection(p, anns, concepts) ==
                    Some(Tag(a.prefLabel, CmrIDWithFallback(SECTIONS, AnnIDs(a, concepts)))))
  {
    if anns != [] {
      var n := |anns| - 1;
      assert forall a :: a in anns[..n] ==> a in anns;
      assert anns[n] in anns;
      PrimaryIsLastChosen(p, anns[..n], concepts, sets);
      assert Chosen(anns[..n], sets) + [] == Chosen(anns[..n], sets);
    }
  }

  /** CmrPrimarysection: that of the last annotation of the primary classification. */
  lemma PrimarySectionIs(cfg: Config, lib: M.Libraries, url: string, e: M.EnrichedContent, contentType: string,
                         concepts: ConceptMap, sets: Thing -> bool)
    requires Sorts(lib.sorter) && lib.reader(AskedIDs(cfg.predicates, e.metadata)) == Some(concepts)
    requires var p := cfg.predicates;
             forall a :: sets(a) <==>
               Known(p, concepts, a) && a.predicateURI == p.isPrimaryClassifiedBy &&
               a.predicateURI !in {p.about, p.majorMentions, p.implicitlyAbout, p.isClassifiedBy,
                                   p.implicitlyClassifiedBy}
    ensures var who, tag := Chosen(e.metadata, sets), M.DocumentOf(cfg, lib, url, e, contentType).tags.primarySection;
            && (tag == None <==> who == [])
            && (who != [] ==>
                  var a := who[|who| - 1];
                  tag.value.name == a.prefLabel && IsPick("U2VjdGlvbnM=", IDsFor(a, concepts), tag.value.id))
  {
    var p, anns := cfg.predicates, Kept(cfg.predicates, e.metadata);
    AskedAreKept(p, e.metadata);
    KeptAreKnown(p, e.metadata, concepts, sets, sets);
    PrimaryIsLastChosen(p, anns, concepts, sets);
    var who := Chosen(e.metadata, sets);
    if who != [] {
      var a := who[|who| - 1];
      AnnIDsAre(a, concepts);
      SuffixTexts();
      PickIs(SECTIONS, AnnIDs(a, concepts));
    }
  }

  // ----- primary theme -----

  /** The types that can make a theme. */
  predicate IsThemeType(t: ConceptTypes, u: string) { u in {t.organisation, t.person, t.topic, t.location} }

  /** The ID of a theme made by the type `u`. */
  predicate IsThemeID(t: ConceptTypes, u: string, ids: seq<string>, id: string)
    requires ids != []
  {
    || (u == t.organisation && IsPick("T04=", ids, id))
    || (u == t.person && u !in {t.organisation} && IsPick("UE4=", ids, id))
    || (u == t.topic && u !in {t.organisation, t.person} && IsPick("VG9waWNz", ids, id))
    || (u == t.location && u !in {t.organisation, t.person, t.topic} && IsPick("R0w=", ids, id))
  }

  /** The theme of an annotation: its label, and the ID by the first of its types that can make one. */
  predicate IsThemeOf(t: ConceptTypes, a: Thing, ids: seq<string>, tag: Option<Tag>)
    requires ids != []
  {
    if tag == None then forall i :: 0 <= i < |a.types| ==> !IsThemeType(t, a.types[i])
    else
      tag.value.name == a.prefLabel &&
      exists i :: 0 <= i < |a.types| && IsThemeID(t, a.types[i], ids, tag.value.id) &&
                  forall j :: 0 <= j < i ==> !IsThemeType(t, a.types[j])
  }

  lemma ThemeTaxonomyIs(t: ConceptTypes, u: string, ids: seq<string>)
    requires ids != []
    ensures ThemeTaxonomy(t, u) == None <==> !IsThemeType(t, u)
    ensures ThemeTaxonomy(t, u).Some? ==> IsThemeID(t, u, ids, CmrIDWithFallback(ThemeTaxonomy(t, u).value, ids))
  {
    SuffixTexts();
    if ThemeTaxonomy(t, u).Some? {
      PickIs(ThemeTaxonomy(t, u).value, ids);
    }
  }

  lemma {:induction false} FirstThemeIs(t: ConceptTypes, types: seq<string>, ids: seq<string>)
    requires ids != []
    ensures match FirstThemeTaxonomy(t, types)
            case None => forall i :: 0 <= i < |types| ==> !IsThemeType(t, types[i])
            case Some(taxonomy) =>
              exists i :: 0 <= i < |types| && IsThemeID(t, types[i], ids, CmrIDWithFallback(taxonomy, ids)) &&
                          forall j :: 0 <= j < i ==> !IsThemeType(t, types[j])
  {
    if types != [] {
      ThemeTaxonomyIs(t, types[0], ids);
      if ThemeTaxonomy(t, types[0]) == None {
        FirstThemeIs(t, types[1..], ids);
        FirstThemeShifts(t, types, ids);
      }
    }
  }

  lemma FirstThemeShifts(t: ConceptTypes, types: seq<string>, ids: seq<string>)
    requires ids != [] && types != [] && !IsThemeType(t, types[0])
    ensures (forall i :: 0 <= i < |types| - 1 ==> !IsThemeType(t, types[1..][i])) ==>
              forall i :: 0 <= i < |types| ==> !IsThemeType(t, types[i])
    ensures forall i, id :: 0 <= i < |types| - 1 && IsThemeID(t, types[1..][i], ids, id) &&
                            (forall j :: 0 <= j < i ==> !IsThemeType(t, types[1..][j])) ==>
              IsThemeID(t, types[i + 1], ids, id) && forall j :: 0 <= j < i + 1 ==> !IsThemeType(t, types[j])
  {
    forall j | 0 < j < |types| ensures types[j] == types[1..][j - 1] {
    }
  }

  lemma ThemeOfIs(t: ConceptTypes, a: Thing, concepts: ConceptMap)
    requires a.id in concepts
    ensures IsThemeOf(t, a, IDsFor(a, concepts), ThemeOf(t, a, concepts))
  {
    AnnIDsAre(a, concepts);
    FirstThemeIs(t, a.types, IDsFor(a, concepts));
  }

  /** An annotation that can make the theme. */
  predicate IsAbout(p: Predicates, e: M.EnrichedContent, concepts: ConceptMap, a: Thing) {
    a in e.metadata && Known(p, concepts, a) && a.predicateURI == p.about
  }

  lemma AboutAreCandidates(p: Predicates, e: M.EnrichedContent, concepts: ConceptMap, a: Thing)
    ensures MapperProperties.IsCandidate(p, Kept(p, e.metadata), concepts, a) <==> IsAbout(p, e, concepts, a)
  {
    KeptIff(p, e.metadata, a);
  }

  lemma {:induction false} KeptIff(p: Predicates, metadata: seq<Thing>, a: Thing)
    ensures a in Kept(p, metadata) <==>
            a in metadata && a.predicateURI != p.mentions && a.predicateURI != p.hasDisplayTag
  {
    if metadata != [] {
      var n := |metadata| - 1;
      KeptIff(p, metadata[..n], a);
      assert metadata == metadata[..n] + [metadata[n]];
    }
  }

  /** CmrPrimarytheme: made of an "about" annotation of least label, if there is one. */
  lemma PrimaryThemeIs(cfg: Config, lib: M.Libraries, url: string, e: M.EnrichedContent, contentType: string,
                       concepts: ConceptMap)
    requires Sorts(lib.sorter) && lib.reader(AskedIDs(cfg.predicates, e.metadata)) == Some(concepts)
    ensures var p, tag := cfg.predicates, M.DocumentOf(cfg, lib, url, e, contentType).tags.primaryTheme;
            && ((forall a :: !IsAbout(p, e, concepts, a)) ==> tag == None)
            && ((exists a :: IsAbout(p, e, concepts, a)) ==>
                  exists a :: IsAbout(p, e, concepts, a) && IsThemeOf(cfg.conceptTypes, a, IDsFor(a, concepts), tag) &&
                              forall b :: IsAbout(p, e, concepts, b) ==> !Less(b.prefLabel, a.prefLabel))
  {
    var p, anns := cfg.predicates, Kept(cfg.predicates, e.metadata);
    AskedAreKept(p, e.metadata);
    MapperProperties.ThemeFromLeastLabel(cfg, lib.sorter, anns, concepts);
    forall a ensures MapperProperties.IsCandidate(p, anns, concepts, a) <==> IsAbout(p, e, concepts, a) {
      AboutAreCandidates(p, e, concepts, a);
    }
    if exists a :: IsAbout(p, e, concepts, a) {
      var theme := PrimaryTheme(cfg, lib.sorter, anns, concepts);
      var a :| MapperProperties.IsCandidate(p, anns, concepts, a) &&
               (forall b :: MapperProperties.IsCandidate(p, anns, concepts, b) ==> !Less(b.prefLabel, a.prefLabel)) &&
               theme == ThemeOf(cfg.conceptTypes, a, concepts);
      ThemeOfIs(cfg.conceptTypes, a, concepts);
      assert IsAbout(p, e, concepts, a);
    }
  }

  // ----- nothing to add, and the header -----

  /** When no annotation counts or the request for concepts fails there is nothing but the header. */
  lemma NothingListed(cfg: Config, lib: M.Libraries, url: string, e: M.EnrichedContent, contentType: string)
    requires Sorts(lib.sorter)
    requires AskedIDs(cfg.predicates, e.metadata) == [] || lib.reader(AskedIDs(cfg.predicates, e.metadata)) == None
    ensures forall c :: DocumentLists(cfg, lib, url, e, contentType)[c] == TagLists([], [])
    ensures M.DocumentOf(cfg, lib, url, e, contentType).tags.primarySection == None
    ensures M.DocumentOf(cfg, lib, url, e, contentType).tags.primaryTheme == None
  {
    AskedAreKept(cfg.predicates, e.metadata);
    assert Kept(cfg.predicates, e.metadata) == [] <==> ThingIDs(Kept(cfg.predicates, e.metadata)) == [];
  }

  /** The URL with "http" at its beginning made "https". */
  function SecureURL(url: string): string {
    if "http://" <= url then "https://" + url[|"http://"|..] else url
  }

  /** Title, byline, body, and the fields made of the content's uuid and type. */
  lemma HeaderIs(cfg: Config, lib: M.Libraries, url: string, e: M.EnrichedContent, contentType: string)
    requires Sorts(lib.sorter)
    ensures var h, c := M.DocumentOf(cfg, lib, url, e, contentType).header, e.content;
            && h.uid == c.uuid && h.contentType == contentType
            && h.leadHeadline == LineText(lib.decode, c.title) && h.byline == LineText(lib.decode, c.byline)
            && (c.body != "" ==> h.body == BodyText(lib.decode, c.body)) && (c.body == "" ==> h.body == c.description)
            && h.modelAPIURL == SecureURL(url) + "/content/" + c.uuid
  {
    if "http://" <= url {
      assert "https" + url[4..] == "https://" + url[7..] by {
        assert url[..7] == "http://" && url[4..7] == "http://"[4..7] == "://";
        assert url[4..] == url[4..7] + url[7..];
      }
    }
  }
}
