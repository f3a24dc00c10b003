/** pkg/mapper/mapper.go, on values: what the annotations of an event contribute to the index
    document, before any list is built. */
module Annotations {
  import opened Strings
  import opened Concordance
  import opened Taxonomy
  import opened Dedup

  /** schema.Thing */
  datatype Thing = Thing(id: string, prefLabel: string, types: seq<string>, predicateURI: string)

  /** The values config.Map.Get returns for the predicate keys the mapper uses. */
  datatype Predicates = Predicates(
    about: string, majorMentions: string, implicitlyAbout: string, isClassifiedBy: string,
    implicitlyClassifiedBy: string, isPrimaryClassifiedBy: string, mentions: string, hasDisplayTag: string,
    hasAuthor: string, hasContributor: string)

  /** The same for the concept types. */
  datatype ConceptTypes = ConceptTypes(
    organisation: string, person: string, company: string, brand: string, topic: string, location: string,
    genre: string)

  datatype Config = Config(predicates: Predicates, conceptTypes: ConceptTypes)

  /** The pairs of label and ID lists in the document. */
  datatype Category = Section | Organisation | Person | Author | Company | Brand | Topic | Region | Genre

  /** One label and some IDs added to the lists of a category. */
  datatype Contribution = Contribution(category: Category, prefLabel: string, ids: seq<string>)

  /** mapper.go:74, 80-82: the trimmed ID and then the TME IDs. */
  function AnnIDs(a: Thing, concepts: ConceptMap): (ids: seq<string>)
    requires a.id in concepts
    ensures ids != []
  {
    [TrimPrefix(a.id, THING_URI_PREFIX)] + concepts[a.id]
  }

  /** mapper.go:311-315 */
  predicate IsSectional(p: Predicates, uri: string) {
    || uri == p.about || uri == p.majorMentions || uri == p.implicitlyAbout
    || uri == p.isClassifiedBy || uri == p.implicitlyClassifiedBy
  }

  /** mapper.go:318, when no earlier case of the switch has the same value. */
  predicate IsPrimary(p: Predicates, uri: string) { !IsSectional(p, uri) && uri == p.isPrimaryClassifiedBy }

  function SectionContributions(p: Predicates, a: Thing, ids: seq<string>): seq<Contribution> {
    if IsSectional(p, a.predicateURI) || IsPrimary(p, a.predicateURI)
    then [Contribution(Section, a.prefLabel, ids)]
    else []
  }

  /** The first case of the switch over concept types (mapper.go:148-182) that a type matches. */
  function TypeCategory(t: ConceptTypes, uri: string): Option<Category> {
    if uri == t.organisation then Some(Organisation)
    else if uri == t.person then Some(Person)
    else if uri == t.company then Some(Company)
    else if uri == t.brand then Some(Brand)
    else if uri == t.topic then Some(Topic)
    else if uri == t.location then Some(Region)
    else if uri == t.genre then Some(Genre)
    else None
  }

  /** mapper.go:155-159: a person who is only an author is not listed among the people. */
  function PeoplePart(a: Thing, ids: seq<string>): seq<Contribution> {
    if CmrID(PEOPLE, ids).Some? || CmrID(AUTHORS, ids).None? then [Contribution(Person, a.prefLabel, ids)] else []
  }

  /** mapper.go:160-166: an author is listed when the predicate says so and an author ID is there. */
  function AuthorPart(p: Predicates, a: Thing, ids: seq<string>, canonicalID: string): seq<Contribution> {
    var author := CmrID(AUTHORS, ids);
    if (a.predicateURI == p.hasAuthor || a.predicateURI == p.hasContributor) && author.Some?
    then [Contribution(Author, a.prefLabel, [author.value, canonicalID])]
    else []
  }

  function PersonContributions(p: Predicates, a: Thing, ids: seq<string>, canonicalID: string): seq<Contribution> {
    PeoplePart(a, ids) + AuthorPart(p, a, ids, canonicalID)
  }

  function TypeContributions(cfg: Config, a: Thing, ids: seq<string>, canonicalID: string,
                             uri: string): seq<Contribution> {
    match TypeCategory(cfg.conceptTypes, uri)
    case None => []
    case Some(Person) => PersonContributions(cfg.predicates, a, ids, canonicalID)
    case Some(category) => [Contribution(category, a.prefLabel, ids)]
  }

  function TypesContributions(cfg: Config, a: Thing, ids: seq<string>, canonicalID: string,
                              types: seq<string>): seq<Contribution> {
    if types == [] then []
    else
      var n := |types| - 1;
      TypesContributions(cfg, a, ids, canonicalID, types[..n]) + TypeContributions(cfg, a, ids, canonicalID, types[n])
  }

  function ThingContributions(cfg: Config, a: Thing, concepts: ConceptMap): seq<Contribution> {
    if a.id !in concepts then []
    else
      var ids := AnnIDs(a, concepts);
      SectionContributions(cfg.predicates, a, ids) + TypesContributions(cfg, a, ids, ids[0], a.types)
  }

  /** The contributions of all annotations, in order. */
  function Stream(cfg: Config, anns: seq<Thing>, concepts: ConceptMap): seq<Contribution> {
    if anns == [] then []
    else Stream(cfg, anns[..|anns| - 1], concepts) + ThingContributions(cfg, anns[|anns| - 1], concepts)
  }

  /** The IDs kept for each annotation that has a concordance (mapper.go:86). */
  function AnnotationsIDs(anns: seq<Thing>, concepts: ConceptMap): map<string, seq<string>> {
    if anns == [] then map[]
    else
      var a, before := anns[|anns| - 1], AnnotationsIDs(anns[..|anns| - 1], concepts);
      if a.id in concepts then before[a.id := AnnIDs(a, concepts)] else before
  }

  lemma {:induction false} AnnotationsIDsAt(anns: seq<Thing>, concepts: ConceptMap, a: Thing)
    ensures a.id in AnnotationsIDs(anns, concepts) ==>
            a.id in concepts && AnnotationsIDs(anns, concepts)[a.id] == AnnIDs(a, concepts)
    ensures a in anns && a.id in concepts ==> a.id in AnnotationsIDs(anns, concepts)
  {
    if anns != [] {
      var n := |anns| - 1;
      AnnotationsIDsAt(anns[..n], concepts, a);
      assert anns == anns[..n] + [anns[n]];
    }
  }

  lemma AnnotationsIDsSnoc(anns: seq<Thing>, concepts: ConceptMap, i: nat)
    requires i < |anns|
    ensures AnnotationsIDs(anns[..i + 1], concepts) ==
            var before := AnnotationsIDs(anns[..i], concepts);
            if anns[i].id in concepts then before[anns[i].id := AnnIDs(anns[i], concepts)] else before
  {
    assert anns[..i + 1][..i] == anns[..i];
  }

  // ----- the two lists of a category -----

  function Labels(cs: seq<Contribution>, category: Category): seq<string> {
    if cs == [] then []
    else (if cs[0].category == category then [cs[0].prefLabel] else []) + Labels(cs[1..], category)
  }

  function IDs(cs: seq<Contribution>, category: Category): seq<string> {
    if cs == [] then []
    else (if cs[0].category == category then cs[0].ids else []) + IDs(cs[1..], category)
  }

  lemma {:induction false} LabelsConcat(a: seq<Contribution>, b: seq<Contribution>, category: Category)
    ensures Labels(a + b, category) == Labels(a, category) + Labels(b, category)
  {
    if a == [] {
      assert a + b == b;
    } else {
      assert (a + b)[0] == a[0] && (a + b)[1..] == a[1..] + b;
      LabelsConcat(a[1..], b, category);
    }
  }

  lemma {:induction false} IDsConcat(a: seq<Contribution>, b: seq<Contribution>, category: Category)
    ensures IDs(a + b, category) == IDs(a, category) + IDs(b, category)
  {
    if a == [] {
      assert a + b == b;
    } else {
      assert (a + b)[0] == a[0] && (a + b)[1..] == a[1..] + b;
      IDsConcat(a[1..], b, category);
    }
  }

  lemma StreamSnoc(cfg: Config, anns: seq<Thing>, concepts: ConceptMap, i: nat)
    requires i < |anns|
    ensures Stream(cfg, anns[..i + 1], concepts) == Stream(cfg, anns[..i], concepts) +
            ThingContributions(cfg, anns[i], concepts)
  {
    assert anns[..i + 1][..i] == anns[..i];
  }

  // ----- filters -----

  /** mapper.go:189-196 */
  predicate IsKept(p: Predicates, a: Thing) { a.predicateURI != p.mentions && a.predicateURI != p.hasDisplayTag }

  function Kept(p: Predicates, metadata: seq<Thing>): seq<Thing> {
    if metadata == [] then []
    else
      var n := |metadata| - 1;
      Kept(p, metadata[..n]) + if IsKept(p, metadata[n]) then [metadata[n]] else []
  }

  function ThingIDs(anns: seq<Thing>): seq<string> { seq(|anns|, i requires 0 <= i < |anns| => anns[i].id) }

  /** filterAnnotations: the annotations with the predicate that have a concordance. */
  function Candidates(anns: seq<Thing>, concepts: ConceptMap, predicateURI: string): seq<Thing> {
    if anns == [] then []
    else
      var n := |anns| - 1;
      Candidates(anns[..n], concepts, predicateURI) +
      if anns[n].predicateURI == predicateURI && anns[n].id in concepts then [anns[n]] else []
  }

  // ----- primary section and theme -----

  /** A name and its ID, set together. */
  datatype Tag = Tag(name: string, id: string)

  /** The last annotation that sets the primary section. */
  function PrimarySection(p: Predicates, anns: seq<Thing>, concepts: ConceptMap): Option<Tag> {
    if anns == [] then None
    else
      var a := anns[|anns| - 1];
      if a.id in concepts && IsPrimary(p, a.predicateURI)
      then Some(Tag(a.prefLabel, CmrIDWithFallback(SECTIONS, AnnIDs(a, concepts))))
      else PrimarySection(p, anns[..|anns| - 1], concepts)
  }

  lemma PrimarySectionSnoc(p: Predicates, anns: seq<Thing>, concepts: ConceptMap, i: nat)
    requires i < |anns|
    ensures PrimarySection(p, anns[..i + 1], concepts) ==
            if anns[i].id in concepts && IsPrimary(p, anns[i].predicateURI)
            then Some(Tag(anns[i].prefLabel, CmrIDWithFallback(SECTIONS, AnnIDs(anns[i], concepts))))
            else PrimarySection(p, anns[..i], concepts)
  {
    assert anns[..i + 1][..i] == anns[..i];
  }

  /** mapper.go:113-122: the taxonomy of a type that can make a theme. */
  function ThemeTaxonomy(t: ConceptTypes, uri: string): (r: Option<string>)
    ensures r.Some? ==> IsAscii(r.value)
  {
    if uri == t.organisation then Some(ORGANISATIONS)
    else if uri == t.person then Some(PEOPLE)
    else if uri == t.topic then Some(TOPICS)
    else if uri == t.location then Some(REGIONS)
    else None
  }

  function FirstThemeTaxonomy(t: ConceptTypes, types: seq<string>): (r: Option<string>)
    ensures r.Some? ==> IsAscii(r.value)
  {
    if types == [] then None
    else if ThemeTaxonomy(t, types[0]).Some? then ThemeTaxonomy(t, types[0])
    else FirstThemeTaxonomy(t, types[1..])
  }

  /** The theme made of one annotation. */
  function ThemeOf(t: ConceptTypes, a: Thing, concepts: ConceptMap): Option<Tag>
    requires a.id in concepts
  {
    match FirstThemeTaxonomy(t, a.types)
    case Some(taxonomy) => Some(Tag(a.prefLabel, CmrIDWithFallback(taxonomy, AnnIDs(a, concepts))))
    case None => None
  }

  /** A way of sorting by label: sort.Slice need not keep the order of equal labels. */
  type Sorter = seq<Thing> -> seq<Thing>

  predicate SortedByLabel(s: seq<Thing>) {
    forall i, j :: 0 <= i < j < |s| ==> !Less(s[j].prefLabel, s[i].prefLabel)
  }

  ghost predicate Sorts(sorter: Sorter) {
    forall s :: multiset(sorter(s)) == multiset(s) && SortedByLabel(sorter(s))
  }

  lemma SorterKeeps(sorter: Sorter, s: seq<Thing>)
    requires Sorts(sorter)
    ensures |sorter(s)| == |s| && forall a :: a in sorter(s) <==> a in s
  {
    assert multiset(sorter(s)) == multiset(s);
    assert |multiset(sorter(s))| == |sorter(s)| && |multiset(s)| == |s|;
    forall a ensures a in sorter(s) <==> a in s {
      assert a in sorter(s) <==> a in multiset(sorter(s));
    }
  }

  lemma {:induction false} CandidatesAre(anns: seq<Thing>, concepts: ConceptMap, predicateURI: string, a: Thing)
    ensures a in Candidates(anns, concepts, predicateURI) <==>
            a in anns && a.predicateURI == predicateURI && a.id in concepts
  {
    if anns != [] {
      var n := |anns| - 1;
      CandidatesAre(anns[..n], concepts, predicateURI, a);
      assert anns == anns[..n] + [anns[n]];
    }
  }

  /** populatePrimaryTheme: the first of the sorted candidates decides. */
  function PrimaryTheme(cfg: Config, sorter: Sorter, anns: seq<Thing>, concepts: ConceptMap): Option<Tag>
    requires Sorts(sorter)
  {
    var cs := Candidates(anns, concepts, cfg.predicates.about);
    if cs == [] then None
    else
      SorterKeeps(sorter, cs);
      var chosen := sorter(cs)[0];
      assert chosen in sorter(cs);
      CandidatesAre(anns, concepts, cfg.predicates.about, chosen);
      ThemeOf(cfg.conceptTypes, chosen, concepts)
  }

  // ----- the document's annotation part -----

  /** The label list and the ID list of a category. */
  datatype TagLists = TagLists(names: seq<string>, ids: seq<string>)

  type CategoryLists = map<Category, TagLists>

  /** One contribution appended to the lists of its category. */
  function Added(l: CategoryLists, one: Contribution): CategoryLists {
    if one.category !in l then l
    else
      var was := l[one.category];
      l[one.category := TagLists(AddOnce(was.names, one.prefLabel), AddAll(was.ids, one.ids))]
  }

  function Extended(l: CategoryLists, cs: seq<Contribution>): CategoryLists
    decreases cs
  {
    if cs == [] then l else Extended(Added(l, cs[0]), cs[1..])
  }

  lemma {:induction false} ExtendedConcat(l: CategoryLists, a: seq<Contribution>, b: seq<Contribution>)
    ensures Extended(Extended(l, a), b) == Extended(l, a + b)
    decreases a
  {
    if a == [] {
      assert a + b == b;
    } else {
      assert (a + b)[0] == a[0] && (a + b)[1..] == a[1..] + b;
      ExtendedConcat(Added(l, a[0]), a[1..], b);
    }
  }

  lemma ExtendedByOne(l: CategoryLists, one: Contribution)
    ensures Extended(l, [one]) == Added(l, one)
  {
    assert [one][1..] == [];
  }

  /** Each list is the de-duplication of what the contributions bring to it. */
  function ListsOf(cs: seq<Contribution>): CategoryLists {
    map c: Category | true :: TagLists(Distinct(Labels(cs, c)), Distinct(IDs(cs, c)))
  }

  lemma AddedAt(l: CategoryLists, one: Contribution, category: Category)
    requires category in l && one.category in l
    ensures category in Added(l, one)
    ensures Added(l, one)[category] ==
            TagLists(AddAll(l[category].names, Labels([one], category)), AddAll(l[category].ids, IDs([one], category)))
  {
    assert [one][1..] == [];
    if category == one.category {
      assert Labels([one], category) == [one.prefLabel] && IDs([one], category) == one.ids;
      AddAllOne(l[category].names, one.prefLabel);
    }
  }

  lemma {:induction false} ExtendedAt(l: CategoryLists, cs: seq<Contribution>, category: Category)
    requires category in l && forall c :: c in l
    ensures category in Extended(l, cs)
    ensures Extended(l, cs)[category] ==
            TagLists(AddAll(l[category].names, Labels(cs, category)), AddAll(l[category].ids, IDs(cs, category)))
    decreases cs
  {
    if cs != [] {
      var one, rest := [cs[0]], cs[1..];
      assert cs == one + rest;
      AddedAt(l, cs[0], category);
      ExtendedAt(Added(l, cs[0]), rest, category);
      LabelsConcat(one, rest, category);
      IDsConcat(one, rest, category);
      AddAllConcat(l[category].names, Labels(one, category), Labels(rest, category));
      AddAllConcat(l[category].ids, IDs(one, category), IDs(rest, category));
    }
  }

  lemma {:induction false} ExtendedKeys(l: CategoryLists, cs: seq<Contribution>)
    ensures Extended(l, cs).Keys == l.Keys
    decreases cs
  {
    if cs != [] { ExtendedKeys(Added(l, cs[0]), cs[1..]); }
  }

  /** Appending the contributions one by one builds those lists. */
  lemma AppendingBuildsLists(cs: seq<Contribution>)
    ensures Extended(ListsOf([]), cs) == ListsOf(cs)
  {
    ExtendedKeys(ListsOf([]), cs);
    forall c: Category ensures Extended(ListsOf([]), cs)[c] == ListsOf(cs)[c] {
      ExtendedAt(ListsOf([]), cs, c);
    }
  }

  /** The annotation part of the index document. */
  datatype Tags = Tags(lists: CategoryLists, primarySection: Option<Tag>, primaryTheme: Option<Tag>)

  function TagsOf(cfg: Config, sorter: Sorter, anns: seq<Thing>, concepts: ConceptMap): Tags
    requires Sorts(sorter)
  {
    Tags(ListsOf(Stream(cfg, anns, concepts)), PrimarySection(cfg.predicates, anns, concepts),
         PrimaryTheme(cfg, sorter, anns, concepts))
  }

  /** GetConcepts: the concordances of some IDs, or a failed request. */
  type Reader = seq<string> -> Option<ConceptMap>

  /** mapper.go:61-91: without annotations, or when the request fails, there is nothing to add. */
  function AnnotationTags(cfg: Config, sorter: Sorter, reader: Reader, metadata: seq<Thing>): Tags
    requires Sorts(sorter)
  {
    var anns := Kept(cfg.predicates, metadata);
    if anns == [] then Tags(ListsOf([]), None, None)
    else match reader(ThingIDs(anns))
      case None => Tags(ListsOf([]), None, None)
      case Some(concepts) => TagsOf(cfg, sorter, anns, concepts)
  }
}
