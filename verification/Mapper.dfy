/** pkg/mapper/mapper.go: the handler that fills an index model, field by field. */
module Mapper {
  import opened Strings
  import opened Concordance
  import opened Taxonomy
  import opened Dedup
  import opened Annotations
  import opened Transformer

  const API_URL_PREFIX := "/content/"

  /** schema.identifier */
  datatype Identifier = Identifier(authority: string, value: string)

  /** The parts of schema.Content that the index and the handler read. */
  datatype Content = Content(
    uuid: string, contentType: string, title: string, byline: string, body: string, bodyXML: string,
    description: string, identifiers: seq<Identifier>, publication: seq<string>)

  /** schema.EnrichedContent */
  datatype EnrichedContent = EnrichedContent(uuid: string, deleted: bool, content: Content, metadata: seq<Thing>)

  /** What the mapper calls: html.UnescapeString, sort.Slice by label, and the concept reader. */
  datatype Libraries = Libraries(decode: string -> string, sorter: Sorter, reader: Reader)

  // ----- the document as a value -----

  datatype Header = Header(
    uid: string, leadHeadline: string, byline: string, body: string, contentType: string, modelAPIURL: string)

  datatype Document = Document(header: Header, tags: Tags)

  /** mapper.go:54-56 */
  function Secured(url: string): string { if "http://" <= url then "https" + url[4..] else url }

  function HeaderOf(lib: Libraries, baseAPIURL: string, c: Content, contentType: string): Header {
    Header(c.uuid, LineText(lib.decode, c.title), LineText(lib.decode, c.byline),
           if c.body != "" then BodyText(lib.decode, c.body) else c.description,
           contentType, baseAPIURL + API_URL_PREFIX + c.uuid)
  }

  function DocumentOf(cfg: Config, lib: Libraries, baseAPIURL: string, e: EnrichedContent,
                      contentType: string): Document
    requires Sorts(lib.sorter)
  {
    Document(HeaderOf(lib, Secured(baseAPIURL), e.content, contentType),
             AnnotationTags(cfg, lib.sorter, lib.reader, e.metadata))
  }

  function TagFrom(name: Option<string>, id: Option<string>): Option<Tag> {
    if name.Some? && id.Some? then Some(Tag(name.value, id.value)) else None
  }

  /** schema.IndexModel, without the fields no modelled code sets. */
  class IndexModel {
    var uid: string
    var leadHeadline: string
    var byline: string
    var body: string
    var contentType: string
    var modelAPIURL: string
    var cmrPrimarysection: Option<string>
    var cmrPrimarysectionID: Option<string>
    var cmrPrimarytheme: Option<string>
    var cmrPrimarythemeID: Option<string>
    var lists: CategoryLists  // CmrSections, CmrSectionsIds, CmrOrgnames, ...: a pair of fields for each category

    function HeaderFields(): Header
      reads `uid, `leadHeadline, `byline, `body, `contentType, `modelAPIURL
    {
      Header(uid, leadHeadline, byline, body, contentType, modelAPIURL)
    }

    /** The two fields of a primary tag are set together. */
    predicate Paired()
      reads `cmrPrimarysection, `cmrPrimarysectionID, `cmrPrimarytheme, `cmrPrimarythemeID
    {
      (cmrPrimarysection.Some? <==> cmrPrimarysectionID.Some?) && (cmrPrimarytheme.Some? <==> cmrPrimarythemeID.Some?)
    }

    function PrimarySectionTag(): Option<Tag>
      reads `cmrPrimarysection, `cmrPrimarysectionID
    {
      TagFrom(cmrPrimarysection, cmrPrimarysectionID)
    }

    function PrimaryThemeTag(): Option<Tag>
      reads `cmrPrimarytheme, `cmrPrimarythemeID
    {
      TagFrom(cmrPrimarytheme, cmrPrimarythemeID)
    }

    predicate Valid()
      reads this
    {
      Paired() && forall c :: c in lists
    }

    /** What is written to the index. */
    function Snapshot(): Document
      reads this
    {
      Document(HeaderFields(), Tags(lists, PrimarySectionTag(), PrimaryThemeTag()))
    }

    constructor ()
      ensures Valid() && PrimarySectionTag() == None && cmrPrimarytheme == None && lists == ListsOf([])
    {
      uid, leadHeadline, byline, body, contentType, modelAPIURL := "", "", "", "", "", "";
      cmrPrimarysection, cmrPrimarysectionID, cmrPrimarytheme, cmrPrimarythemeID := None, None, None, None;
      lists := ListsOf([]);
    }

    /** Adds a label and IDs to the two lists of a category. */
    method Contribute(category: Category, prefLabel: string, ids: seq<string>)
      requires Valid()
      modifies `lists
      ensures Valid() && lists == Added(old(lists), Contribution(category, prefLabel, ids))
    {
      var names := AppendIfNotExists(lists[category].names, prefLabel);
      var allIDs := PrepareElasticField(lists[category].ids, ids);
      lists := lists[category := TagLists(names, allIDs)];
    }
  }

  /** mapper.Handler */
  class Handler {
    var baseAPIURL: string
    const config: Config
    const lib: Libraries

    constructor (baseAPIURL: string, config: Config, lib: Libraries)
      ensures this.baseAPIURL == baseAPIURL && this.config == config && this.lib == lib
    {
      this.baseAPIURL, this.config, this.lib := baseAPIURL, config, lib;
    }

    /** handleSectionMapping */
    method HandleSectionMapping(annotation: Thing, model: IndexModel, annIDs: seq<string>)
      requires annIDs != [] && model.Valid()
      modifies model
      ensures model.Valid() && model.HeaderFields() == old(model.HeaderFields())
      ensures model.PrimaryThemeTag() == old(model.PrimaryThemeTag())
      ensures model.lists == Extended(old(model.lists), SectionContributions(config.predicates, annotation, annIDs))
      ensures model.PrimarySectionTag() ==
              if IsPrimary(config.predicates, annotation.predicateURI)
              then Some(Tag(annotation.prefLabel, CmrIDWithFallback(SECTIONS, annIDs)))
              else old(model.PrimarySectionTag())
    {
      var predicates := config.predicates;
      ExtendedByOne(model.lists, Contribution(Section, annotation.prefLabel, annIDs));
      var uri := annotation.predicateURI;
      if uri == predicates.about || uri == predicates.majorMentions || uri == predicates.implicitlyAbout
        || uri == predicates.isClassifiedBy || uri == predicates.implicitlyClassifiedBy {
        model.Contribute(Section, annotation.prefLabel, annIDs);
      } else if uri == predicates.isPrimaryClassifiedBy {
        model.Contribute(Section, annotation.prefLabel, annIDs);
        model.cmrPrimarysection := Some(annotation.prefLabel);
        var id := GetCmrIDWithFallback(SECTIONS, annIDs);
        model.cmrPrimarysectionID := Some(id);
      }
    }

    /** populateAnnotationRelatedFields */
    method PopulateAnnotationRelatedFields(annotation: Thing, model: IndexModel, annIDs: seq<string>,
                                           canonicalID: string)
      requires annIDs != [] && model.Valid()
      modifies model
      ensures model.Valid() && model.HeaderFields() == old(model.HeaderFields())
      ensures model.PrimaryThemeTag() == old(model.PrimaryThemeTag())
      ensures model.lists ==
              Extended(old(model.lists), SectionContributions(config.predicates, annotation, annIDs) +
                                           TypesContributions(config, annotation, annIDs, canonicalID,
                                                              annotation.types))
      ensures model.PrimarySectionTag() ==
              if IsPrimary(config.predicates, annotation.predicateURI)
              then Some(Tag(annotation.prefLabel, CmrIDWithFallback(SECTIONS, annIDs)))
              else old(model.PrimarySectionTag())
    {
      HandleSectionMapping(annotation, model, annIDs);
      ghost var lists := model.lists;
      label sections:
      for i := 0 to |annotation.types|
        invariant model.Valid() && model.HeaderFields() == old(model.HeaderFields())
        invariant model.PrimaryThemeTag() == old(model.PrimaryThemeTag())
        invariant model.PrimarySectionTag() == old@sections(model.PrimarySectionTag())
        invariant model.lists ==
                  Extended(lists, TypesContributions(config, annotation, annIDs, canonicalID, annotation.types[..i]))
      {
        ghost var before := TypesContributions(config, annotation, annIDs, canonicalID, annotation.types[..i]);
        PopulateTypeRelatedFields(annotation, model, annIDs, canonicalID, annotation.types[i]);
        ExtendedConcat(lists, before, TypeContributions(config, annotation, annIDs, canonicalID, annotation.types[i]));
        assert annotation.types[..i + 1][..i] == annotation.types[..i];
      }
      assert annotation.types[..|annotation.types|] == annotation.types;
      ExtendedConcat(old(model.lists), SectionContributions(config.predicates, annotation, annIDs),
                     TypesContributions(config, annotation, annIDs, canonicalID, annotation.types));
    }

    /** mapper.go:160-166 */
    method PopulateAuthor(annotation: Thing, model: IndexModel, annIDs: seq<string>, canonicalID: string,
                          authorCmrID: string, authorFound: bool)
      requires model.Valid() && CmrID(AUTHORS, annIDs) == if authorFound then Some(authorCmrID) else None
      modifies model`lists
      ensures model.Valid()
      ensures model.lists == Extended(old(model.lists), AuthorPart(config.predicates, annotation, annIDs, canonicalID))
    {
      ExtendedByOne(model.lists, Contribution(Author, annotation.prefLabel, [authorCmrID, canonicalID]));
      if annotation.predicateURI == config.predicates.hasAuthor ||
         annotation.predicateURI == config.predicates.hasContributor {
        if authorFound {
          model.Contribute(Author, annotation.prefLabel, [authorCmrID, canonicalID]);
        }
      }
    }

    /** The person case of the switch (mapper.go:152-166). */
    method PopulatePerson(annotation: Thing, model: IndexModel, annIDs: seq<string>, canonicalID: string)
      requires model.Valid()
      modifies model`lists
      ensures model.Valid()
      ensures model.lists == Extended(old(model.lists),
                                      PersonContributions(config.predicates, annotation, annIDs, canonicalID))
    {
      var _, personFound := GetCmrID(PEOPLE, annIDs);
      var authorCmrID, authorFound := GetCmrID(AUTHORS, annIDs);
      ExtendedConcat(model.lists, PeoplePart(annotation, annIDs),
                     AuthorPart(config.predicates, annotation, annIDs, canonicalID));
      ExtendedByOne(model.lists, Contribution(Person, annotation.prefLabel, annIDs));
      if personFound || !authorFound {
        model.Contribute(Person, annotation.prefLabel, annIDs);
      }
      PopulateAuthor(annotation, model, annIDs, canonicalID, authorCmrID, authorFound);
    }

    /** The switch over the concept type (mapper.go:148-182). */
    method PopulateTypeRelatedFields(annotation: Thing, model: IndexModel, annIDs: seq<string>, canonicalID: string,
                                     taxonomy: string)
      requires model.Valid()
      modifies model
      ensures model.Valid() && model.HeaderFields() == old(model.HeaderFields())
      ensures model.PrimaryThemeTag() == old(model.PrimaryThemeTag())
      ensures model.PrimarySectionTag() == old(model.PrimarySectionTag())
      ensures model.lists == Extended(old(model.lists),
                                      TypeContributions(config, annotation, annIDs, canonicalID, taxonomy))
    {
      var conceptTypes := config.conceptTypes;
      ghost var category := TypeCategory(conceptTypes, taxonomy);
      if category.Some? {
        ExtendedByOne(model.lists, Contribution(category.value, annotation.prefLabel, annIDs));
      }
      if taxonomy == conceptTypes.organisation {
        model.Contribute(Organisation, annotation.prefLabel, annIDs);
      } else if taxonomy == conceptTypes.person {
        PopulatePerson(annotation, model, annIDs, canonicalID);
      } else if taxonomy == conceptTypes.company {
        model.Contribute(Company, annotation.prefLabel, annIDs);
      } else if taxonomy == conceptTypes.brand {
        model.Contribute(Brand, annotation.prefLabel, annIDs);
      } else if taxonomy == conceptTypes.topic {
        model.Contribute(Topic, annotation.prefLabel, annIDs);
      } else if taxonomy == conceptTypes.location {
        model.Contribute(Region, annotation.prefLabel, annIDs);
      } else if taxonomy == conceptTypes.genre {
        model.Contribute(Genre, annotation.prefLabel, annIDs);
      }
    }

    /** prepareAnnotationsWithConcepts, the loop */
    method KeepAnnotations(metadata: seq<Thing>) returns (ids: seq<string>, anns: seq<Thing>)
      ensures anns == Kept(config.predicates, metadata) && ids == ThingIDs(anns)
    {
      ids, anns := [], [];
      for i := 0 to |metadata|
        invariant anns == Kept(config.predicates, metadata[..i]) && ids == ThingIDs(anns)
      {
        var a := metadata[i];
        assert metadata[..i + 1][..i] == metadata[..i];
        if a.predicateURI == config.predicates.mentions || a.predicateURI == config.predicates.hasDisplayTag {
          continue;
        }
        ids := ids + [a.id];
        anns := anns + [a];
      }
      assert metadata[..|metadata|] == metadata;
    }

    /** filterAnnotations: an ID in the map has a list that is not nil. */
    method FilterAnnotations(annotations: seq<Thing>, ids: map<string, seq<string>>, predicateURI: string,
                             ghost concepts: ConceptMap)
      returns (matched: seq<Thing>)
      requires ids == AnnotationsIDs(annotations, concepts)
      ensures matched == Candidates(annotations, concepts, predicateURI)
    {
      matched := [];
      for i := 0 to |annotations|
        invariant matched == Candidates(annotations[..i], concepts, predicateURI)
      {
        var annotation := annotations[i];
        assert annotations[..i + 1][..i] == annotations[..i];
        AnnotationsIDsAt(annotations, concepts, annotation);
        if annotation.predicateURI == predicateURI && annotation.id in ids {
          matched := matched + [annotation];
        }
      }
      assert annotations[..|annotations|] == annotations;
    }

    /** setPrimaryTheme: an earlier theme stays. */
    method SetPrimaryTheme(model: IndexModel, name: string, id: string)
      requires model.Valid()
      modifies model`cmrPrimarytheme, model`cmrPrimarythemeID
      ensures model.Valid()
      ensures model.PrimaryThemeTag() ==
              if old(model.cmrPrimarytheme).Some? then old(model.PrimaryThemeTag()) else Some(Tag(name, id))
    {
      if model.cmrPrimarytheme != None {
        return;
      }
      model.cmrPrimarytheme := Some(name);
      model.cmrPrimarythemeID := Some(id);
    }

    /** populatePrimaryTheme */
    method PopulatePrimaryTheme(model: IndexModel, annotations: seq<Thing>, ids: map<string, seq<string>>,
                                ghost concepts: ConceptMap)
      requires Sorts(lib.sorter) && model.Valid() && model.cmrPrimarytheme == None
      requires ids == AnnotationsIDs(annotations, concepts)
      modifies model`cmrPrimarytheme, model`cmrPrimarythemeID
      ensures model.Valid()
      ensures model.PrimaryThemeTag() == PrimaryTheme(config, lib.sorter, annotations, concepts)
    {
      var candidates := FilterAnnotations(annotations, ids, config.predicates.about, concepts);
      if |candidates| == 0 {
        return;
      }
      var sorted := lib.sorter(candidates);
      SorterKeeps(lib.sorter, candidates);
      var annotation := sorted[0];
      assert annotation in sorted;
      CandidatesAre(annotations, concepts, config.predicates.about, annotation);
      AnnotationsIDsAt(annotations, concepts, annotation);
      var annIDs := ids[annotation.id];
      var t := config.conceptTypes;
      for i := 0 to |annotation.types|
        invariant model.cmrPrimarytheme == None && model.Valid()
        invariant FirstThemeTaxonomy(t, annotation.types) == FirstThemeTaxonomy(t, annotation.types[i..])
      {
        var taxonomy := annotation.types[i];
        var tme := "";
        if taxonomy == t.organisation {
          tme := ORGANISATIONS;
        } else if taxonomy == t.person {
          tme := PEOPLE;
        } else if taxonomy == t.topic {
          tme := TOPICS;
        } else if taxonomy == t.location {
          tme := REGIONS;
        }
        assert ThemeTaxonomy(t, taxonomy) == if tme == "" then None else Some(tme);
        if tme != "" {
          var id := GetCmrIDWithFallback(tme, annIDs);
          SetPrimaryTheme(model, annotation.prefLabel, id);
          break;
        }
      }
    }

    /** populateContentRelatedFields */
    method PopulateContentRelatedFields(model: IndexModel, content: Content, contentType: string)
      requires model.Valid()
      modifies model
      ensures model.Valid() && model.HeaderFields() == HeaderOf(lib, baseAPIURL, content, contentType)
      ensures model.lists == old(model.lists)
      ensures model.PrimarySectionTag() == old(model.PrimarySectionTag())
      ensures model.cmrPrimarytheme == old(model.cmrPrimarytheme)
    {
      model.contentType := contentType;
      model.uid := content.uuid;
      var leadHeadline := TransformText(content.title, LineTransformers(lib.decode));
      model.leadHeadline := leadHeadline;
      var byline := TransformText(content.byline, LineTransformers(lib.decode));
      model.byline := byline;
      if content.body != "" {
        var body := TransformText(content.body, BodyTransformers(lib.decode));
        model.body := body;
      } else {
        model.body := content.description;
      }
      model.modelAPIURL := baseAPIURL + API_URL_PREFIX + content.uuid;
    }

    /** The loop over the annotations (mapper.go:72-89). */
    method PopulateFromAnnotations(model: IndexModel, annotations: seq<Thing>, concepts: ConceptMap)
      returns (annotationsIds: map<string, seq<string>>)
      requires model.Valid() && model.PrimarySectionTag() == None
      modifies model
      ensures model.Valid() && model.HeaderFields() == old(model.HeaderFields())
      ensures model.PrimaryThemeTag() == old(model.PrimaryThemeTag())
      ensures model.lists == Extended(old(model.lists), Stream(config, annotations, concepts))
      ensures model.PrimarySectionTag() == PrimarySection(config.predicates, annotations, concepts)
      ensures annotationsIds == AnnotationsIDs(annotations, concepts)
    {
      annotationsIds := map[];
      for i := 0 to |annotations|
        invariant model.Valid() && model.HeaderFields() == old(model.HeaderFields())
        invariant model.PrimaryThemeTag() == old(model.PrimaryThemeTag())
        invariant model.lists == Extended(old(model.lists), Stream(config, annotations[..i], concepts))
        invariant model.PrimarySectionTag() == PrimarySection(config.predicates, annotations[..i], concepts)
        invariant annotationsIds == AnnotationsIDs(annotations[..i], concepts)
      {
        var annotation := annotations[i];
        StreamSnoc(config, annotations, concepts, i);
        PrimarySectionSnoc(config.predicates, annotations, concepts, i);
        AnnotationsIDsSnoc(annotations, concepts, i);
        ExtendedConcat(old(model.lists), Stream(config, annotations[..i], concepts),
                       ThingContributions(config, annotation, concepts));
        var canonicalID := TrimPrefix(annotation.id, THING_URI_PREFIX);
        if annotation.id !in concepts {
          continue;
        }
        var annIDs := [canonicalID] + concepts[annotation.id];
        annotationsIds := annotationsIds[annotation.id := annIDs];
        PopulateAnnotationRelatedFields(annotation, model, annIDs, canonicalID);
      }
      assert annotations[..|annotations|] == annotations;
    }

    /** mapper.go:72-91 */
    method PopulateTags(model: IndexModel, annotations: seq<Thing>, concepts: ConceptMap)
      requires Sorts(lib.sorter)
      requires model.Valid() && model.cmrPrimarytheme == None && model.PrimarySectionTag() == None &&
               model.lists == ListsOf([])
      modifies model
      ensures model.Valid() && model.HeaderFields() == old(model.HeaderFields())
      ensures model.lists == ListsOf(Stream(config, annotations, concepts))
      ensures model.PrimarySectionTag() == PrimarySection(config.predicates, annotations, concepts)
      ensures model.PrimaryThemeTag() == PrimaryTheme(config, lib.sorter, annotations, concepts)
    {
      AppendingBuildsLists(Stream(config, annotations, concepts));
      var annotationsIds := PopulateFromAnnotations(model, annotations, concepts);
      PopulatePrimaryTheme(model, annotations, annotationsIds, concepts);
    }

    /** ToIndexModel */
    method ToIndexModel(enrichedContent: EnrichedContent, contentType: string) returns (model: IndexModel)
      requires Sorts(lib.sorter)
      modifies this`baseAPIURL
      ensures fresh(model) && model.Valid()
      ensures baseAPIURL == Secured(old(baseAPIURL))
      ensures model.Snapshot() == DocumentOf(config, lib, old(baseAPIURL), enrichedContent, contentType)
    {
      model := new IndexModel();
      if "http://" <= baseAPIURL {
        baseAPIURL := "https" + baseAPIURL[4..];
      }
      PopulateContentRelatedFields(model, enrichedContent.content, contentType);
      var ids, annotations := KeepAnnotations(enrichedContent.metadata);
      if |ids| == 0 {
        return;
      }
      var response := lib.reader(ids);
      if response == None {
        return;
      }
      PopulateTags(model, annotations, response.value);
    }
  }

  /** The stored URL settles after one call. */
  lemma SecuredSettles(url: string)
    ensures Secured(Secured(url)) == Secured(url)
    ensures !("http://" <= Secured(url))
  {
    if "http://" <= url {
      assert Secured(url)[4] == 's' && "http://"[4] == ':';
    }
  }
}
