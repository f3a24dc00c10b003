/** Where the IDs in the index document come from, with the concept map as Go's shared slices show it. */
module DocumentIDs {
  import opened Strings
  import opened Concordance
  import opened Taxonomy
  import opened Annotations
  import opened MapperProperties
  import S = SliceMemory
  import P = SliceProvenance
  import W = LastWriters

  /** A contribution carries IDs of its annotation only. */
  lemma ContributedIDs(cfg: Config, a: Thing, concepts: ConceptMap, c: Contribution, id: string)
    requires a.id in concepts && c in ThingContributions(cfg, a, concepts) && id in c.ids
    ensures id in AnnIDs(a, concepts)
  {
    var ids := AnnIDs(a, concepts);
    TypesHave(cfg, a, ids, ids[0], a.types, c);
    if c !in SectionContributions(cfg.predicates, a, ids) {
      var t :| t in a.types && c in TypeContributions(cfg, a, ids, ids[0], t);
      TypeContributedIDs(cfg, a, ids, t, c, id);
    }
  }

  lemma TypeContributedIDs(cfg: Config, a: Thing, ids: seq<string>, t: string, c: Contribution, id: string)
    requires ids != [] && c in TypeContributions(cfg, a, ids, ids[0], t) && id in c.ids
    ensures id in ids
  {
    CmrIDIsMember(AUTHORS, ids);
  }

  lemma ListedIDSource(cfg: Config, anns: seq<Thing>, concepts: ConceptMap, category: Category, id: string)
      returns (a: Thing)
    requires id in ListsOf(Stream(cfg, anns, concepts))[category].ids
    ensures a in anns && a.id in concepts && id in AnnIDs(a, concepts)
  {
    var stream := Stream(cfg, anns, concepts);
    ListMembers(stream, category, id);
    var c :| c in stream && c.category == category && id in c.ids;
    StreamHas(cfg, anns, concepts, c);
    a :| a in anns && c in ThingContributions(cfg, a, concepts);
    ContributedIDs(cfg, a, concepts, c, id);
  }

  /** `id` is one of the IDs of a kept annotation with a concordance. */
  ghost predicate OfAnnotation(p: Predicates, metadata: seq<Thing>, concepts: ConceptMap, id: string) {
    exists a :: a in metadata && IsKept(p, a) && a.id in concepts && id in AnnIDs(a, concepts)
  }

  /** Every ID in the document is. */
  lemma IDsOfAnnotations(cfg: Config, sorter: Sorter, reader: Reader, metadata: seq<Thing>, concepts: ConceptMap,
                         category: Category, id: string)
    requires Sorts(sorter) && reader(ThingIDs(Kept(cfg.predicates, metadata))) == Some(concepts)
    requires id in AnnotationTags(cfg, sorter, reader, metadata).lists[category].ids
    ensures OfAnnotation(cfg.predicates, metadata, concepts, id)
  {
    var anns := Kept(cfg.predicates, metadata);
    assert Stream(cfg, [], concepts) == [];
    var a := ListedIDSource(cfg, anns, concepts, category, id);
    KeptAre(cfg.predicates, metadata, a);
  }

  /** The concept map that the reader makes of a response: what its shared slices show. */
  function ConceptsOf(rs: seq<Record>, grow: S.Growth): ConceptMap
    requires S.Grows(grow)
  {
    S.Views(S.Run(rs, grow))
  }

  lemma ConceptKeys(rs: seq<Record>, grow: S.Growth, key: string)
    requires S.Grows(grow)
    ensures key in ConceptsOf(rs, grow) <==> key in Fold(rs)
  {
    W.RunSizes(rs, grow);
    W.MarksAreFold(rs, key);
  }

  /** `id` is that of a kept annotation with a concordance, or a TME value about a key of its lineage. */
  ghost predicate HasLineage(p: Predicates, metadata: seq<Thing>, rs: seq<Record>, id: string) {
    exists a :: a in metadata && IsKept(p, a) && a.id in Fold(rs) &&
      (id == TrimPrefix(a.id, THING_URI_PREFIX) || P.FromLineage(rs, a.id, id))
  }

  /** Whatever the response and the growth of its slices, every ID in the document has such a source. */
  lemma DocumentLineage(cfg: Config, sorter: Sorter, reader: Reader, metadata: seq<Thing>, rs: seq<Record>,
                        grow: S.Growth,
                        category: Category, id: string)
    requires Sorts(sorter) && S.Grows(grow) &&
             reader(ThingIDs(Kept(cfg.predicates, metadata))) == Some(ConceptsOf(rs, grow))
    requires id in AnnotationTags(cfg, sorter, reader, metadata).lists[category].ids
    ensures HasLineage(cfg.predicates, metadata, rs, id)
  {
    var concepts := ConceptsOf(rs, grow);
    IDsOfAnnotations(cfg, sorter, reader, metadata, concepts, category, id);
    var a :| a in metadata && IsKept(cfg.predicates, a) && a.id in concepts && id in AnnIDs(a, concepts);
    ConceptKeys(rs, grow, a.id);
    if id in concepts[a.id] {
      P.SharedProvenance(rs, grow, a.id, id);
    }
  }

  /** `id` is that of a kept annotation with a concordance, or a TME value about its concept or one that fed
      its alias. */
  ghost predicate HasSource(p: Predicates, metadata: seq<Thing>, rs: seq<Record>, id: string) {
    exists a :: a in metadata && IsKept(p, a) && a.id in Fold(rs) &&
      (id == TrimPrefix(a.id, THING_URI_PREFIX) || ComesFrom(rs, a.id, id))
  }

  /** On compatible responses every ID in the document has such a source. */
  lemma DocumentProvenance(cfg: Config, sorter: Sorter, reader: Reader, metadata: seq<Thing>, rs: seq<Record>,
                           grow: S.Growth,
                           category: Category, id: string)
    requires Sorts(sorter) && S.Grows(grow) &&
             reader(ThingIDs(Kept(cfg.predicates, metadata))) == Some(ConceptsOf(rs, grow))
    requires S.Compatible(rs)
    requires id in AnnotationTags(cfg, sorter, reader, metadata).lists[category].ids
    ensures HasSource(cfg.predicates, metadata, rs, id)
  {
    var concepts := ConceptsOf(rs, grow);
    IDsOfAnnotations(cfg, sorter, reader, metadata, concepts, category, id);
    var a :| a in metadata && IsKept(cfg.predicates, a) && a.id in concepts && id in AnnIDs(a, concepts);
    ConceptKeys(rs, grow, a.id);
    if id in concepts[a.id] {
      P.CompatibleProvenance(rs, grow, a.id, id);
    }
  }

  // ----- exactly when every ID has a source -----

  /** The annotation brings the ID to some list. */
  ghost predicate Brings(cfg: Config, a: Thing, concepts: ConceptMap, id: string) {
    exists c :: c in ThingContributions(cfg, a, concepts) && id in c.ids
  }

  ghost predicate Lists(tags: Tags, id: string) {
    exists category :: category in tags.lists && id in tags.lists[category].ids
  }

  lemma StreamBrings(cfg: Config, anns: seq<Thing>, concepts: ConceptMap, id: string)
    ensures (exists c :: c in Stream(cfg, anns, concepts) && id in c.ids) <==>
            exists a :: a in anns && Brings(cfg, a, concepts, id)
  {
    forall c ensures c in Stream(cfg, anns, concepts) <==>
                     exists a :: a in anns && c in ThingContributions(cfg, a, concepts)
    {
      StreamHas(cfg, anns, concepts, c);
    }
    if c :| c in Stream(cfg, anns, concepts) && id in c.ids {
      var a :| a in anns && c in ThingContributions(cfg, a, concepts);
      assert Brings(cfg, a, concepts, id);
    }
  }

  /** An ID is in the document exactly when a kept annotation brings it. */
  lemma DocumentListsIff(cfg: Config, sorter: Sorter, reader: Reader, metadata: seq<Thing>, concepts: ConceptMap,
                         id: string)
    requires Sorts(sorter) && reader(ThingIDs(Kept(cfg.predicates, metadata))) == Some(concepts)
    ensures Lists(AnnotationTags(cfg, sorter, reader, metadata), id) <==>
            exists a :: a in metadata && IsKept(cfg.predicates, a) && Brings(cfg, a, concepts, id)
  {
    var anns := Kept(cfg.predicates, metadata);
    var stream := Stream(cfg, anns, concepts);
    assert Stream(cfg, [], concepts) == [];
    assert AnnotationTags(cfg, sorter, reader, metadata).lists == ListsOf(stream);
    forall category
      ensures id in ListsOf(stream)[category].ids <==> exists c :: c in stream && c.category == category && id in c.ids
    {
      ListMembers(stream, category, id);
    }
    StreamBrings(cfg, anns, concepts, id);
    forall a ensures a in anns <==> a in metadata && IsKept(cfg.predicates, a) {
      KeptAre(cfg.predicates, metadata, a);
    }
    if c :| c in stream && id in c.ids {
      assert id in ListsOf(stream)[c.category].ids;
    }
  }

  /** The ID at a place of an annotation's concept, as the place's last writer has it, is sourced if the
      annotation brings it to a list. */
  ghost predicate PlaceSourced(cfg: Config, metadata: seq<Thing>, rs: seq<Record>, grow: S.Growth, a: Thing, place: nat)
    requires S.Grows(grow)
  {
    a in metadata && IsKept(cfg.predicates, a) && a.id in W.MarksOf(rs) && place < |W.MarksOf(rs)[a.id]| ==>
      var id := rs[W.LastOf(rs, grow, a.id, place)].value;
      Brings(cfg, a, W.ShownIDs(rs, grow), id) ==> HasSource(cfg.predicates, metadata, rs, id)
  }

  lemma BroughtHasPlace(cfg: Config, a: Thing, rs: seq<Record>, grow: S.Growth, id: string) returns (place: nat)
    requires S.Grows(grow) && Brings(cfg, a, W.ShownIDs(rs, grow), id) && id != TrimPrefix(a.id, THING_URI_PREFIX)
    ensures a.id in W.MarksOf(rs) && place < |W.MarksOf(rs)[a.id]| && rs[W.LastOf(rs, grow, a.id, place)].value == id
  {
    var concepts := W.ShownIDs(rs, grow);
    var c :| c in ThingContributions(cfg, a, concepts) && id in c.ids;
    ContributedIDs(cfg, a, concepts, c, id);
    place :| 0 <= place < |concepts[a.id]| && concepts[a.id][place] == id;
  }

  /** Every ID in the document has a source exactly when each one brought from a concept's place has, read
      off the records: for every response and every growth. */
  lemma DocumentProvenanceIff(cfg: Config, sorter: Sorter, reader: Reader, metadata: seq<Thing>, rs: seq<Record>,
                              grow: S.Growth)
    requires Sorts(sorter) && S.Grows(grow) &&
             reader(ThingIDs(Kept(cfg.predicates, metadata))) == Some(ConceptsOf(rs, grow))
    ensures (forall id :: Lists(AnnotationTags(cfg, sorter, reader, metadata), id) ==>
               HasSource(cfg.predicates, metadata, rs, id)) <==>
            forall a: Thing, place: nat :: PlaceSourced(cfg, metadata, rs, grow, a, place)
  {
    var p, concepts := cfg.predicates, W.ShownIDs(rs, grow);
    W.ViewsExact(rs, grow);
    forall id ensures Lists(AnnotationTags(cfg, sorter, reader, metadata), id) <==>
                      exists a :: a in metadata && IsKept(p, a) && Brings(cfg, a, concepts, id)
    {
      DocumentListsIff(cfg, sorter, reader, metadata, concepts, id);
    }
    if forall a: Thing, place: nat :: PlaceSourced(cfg, metadata, rs, grow, a, place) {
      forall id, a | a in metadata && IsKept(p, a) && Brings(cfg, a, concepts, id)
        ensures HasSource(p, metadata, rs, id)
      {
        BroughtSourced(cfg, metadata, rs, grow, a, id);
      }
    }
  }

  lemma BroughtSourced(cfg: Config, metadata: seq<Thing>, rs: seq<Record>, grow: S.Growth, a: Thing, id: string)
    requires S.Grows(grow) && forall place: nat :: PlaceSourced(cfg, metadata, rs, grow, a, place)
    requires a in metadata && IsKept(cfg.predicates, a) && Brings(cfg, a, W.ShownIDs(rs, grow), id)
    ensures HasSource(cfg.predicates, metadata, rs, id)
  {
    W.ViewsExact(rs, grow);
    ConceptKeys(rs, grow, a.id);
    if id != TrimPrefix(a.id, THING_URI_PREFIX) {
      var place := BroughtHasPlace(cfg, a, rs, grow, id);
      assert PlaceSourced(cfg, metadata, rs, grow, a, place);
    }
  }

  lemma OneAnnotation(cfg: Config, sorter: Sorter, reader: Reader, a: Thing, concepts: ConceptMap)
    requires Sorts(sorter) && IsKept(cfg.predicates, a) && reader([a.id]) == Some(concepts)
    ensures AnnotationTags(cfg, sorter, reader, [a]) == TagsOf(cfg, sorter, [a], concepts)
  {
    assert [a][..0] == [] && Kept(cfg.predicates, []) == [];
    assert Kept(cfg.predicates, [a]) == [a];
    assert ThingIDs([a]) == [a.id];
  }

  lemma NoSource(p: Predicates, a: Thing, rs: seq<Record>, id: string)
    requires id != TrimPrefix(a.id, THING_URI_PREFIX) && !ComesFrom(rs, a.id, id)
    ensures !HasSource(p, [a], rs, id)
  {
  }

  /** On others it need not: a document about the concept lists an ID that only its alias was given. */
  lemma DocumentCanInvent(cfg: Config, sorter: Sorter, reader: Reader, a: Thing, ids: seq<string>, x: string,
                          own: string, other: string,
                          rs: seq<Record>)
    requires Sorts(sorter) && IsKept(cfg.predicates, a) && IsSectional(cfg.predicates, a.predicateURI)
    requires |ids| == 3 && a.id != THING_URI_PREFIX + x && own != other && other !in ids &&
             other != TrimPrefix(a.id, THING_URI_PREFIX)
    requires rs == S.ClashingResponse(a.id, ids, x, own, other) && reader([a.id]) == Some(ConceptsOf(rs, S.Doubling()))
    ensures other in AnnotationTags(cfg, sorter, reader, [a]).lists[Section].ids
    ensures !HasSource(cfg.predicates, [a], rs, other)
  {
    var concepts := ConceptsOf(rs, S.Doubling());
    P.SharingCanInvent(a.id, ids, x, own, other);
    NoSource(cfg.predicates, a, rs, other);
    OneAnnotation(cfg, sorter, reader, a, concepts);
    SectionMember(cfg, [a], concepts, a, other);
  }

  lemma {:induction false} KeptAre(p: Predicates, metadata: seq<Thing>, a: Thing)
    ensures a in Kept(p, metadata) <==> a in metadata && IsKept(p, a)
  {
    if metadata != [] {
      var n := |metadata| - 1;
      KeptAre(p, metadata[..n], a);
      assert metadata == metadata[..n] + [metadata[n]];
    }
  }
}
