# Verified model of content-rw-elasticsearch

The service reads publication events from Kafka and keeps an Elasticsearch index up to date. This project models
its four pieces of logic in Dafny, joins them end to end, and proves what each of them and the whole promise:

1. **Concordances** (`Concordance`, `SliceMemory`, `SliceProvenance`, `LastWriters`, `Entries`,
   `ConcordanceService`). The loop that turns a concordance response into a map from concept IDs to TME IDs. It is written three times: as a fold on
   values, on slice headers over numbered backing arrays, and as the loop itself over real arrays. The loop mirrors the
   headers. What the headers show is given exactly, for every response and every way of growing arrays: at each place
   the ID of the record that wrote last to the cell (`LastWriters.ViewsExact`). They show the fold's lists, however Go
   grows its arrays, exactly when the response is `Compatible`; and the fold's lists are given without a loop by
   `Declared`. `Entries` says the same of the response's own texts.
2. **Annotations** (`Base64`, `Taxonomy`, `Dedup`, `Annotations`, `Mapper`, `Sorters`, `MapperProperties`,
   `DocumentIDs`, `IndexedFields`). `Mapper.IndexModel` is the document that `Mapper.Handler.ToIndexModel` fills field by field; its
   methods are proved against `Mapper.DocumentOf`, in which every list is the first-occurrence de-duplication of one
   stream of contributions. The lemmas about that document follow: order, invisible annotations, primary section and
   theme, where IDs come from. `IndexedFields` says of every list and field which annotations fill it, by their types
   and predicates. Looking up a taxonomy by the base64 text at the end of an ID is proved to find that taxonomy and no
   other.
3. **Text** (`Regex`, `Replacement`, `Transformer`, `TextProperties`, `Stripping`, `Markers`, `PatternTexts`). The
   eight patterns are data, and `PatternTexts` says which texts each stands for; one backtracking matcher interprets them and one scanning loop replaces with them. Both are tied to
   definitions that mention neither: a match is the shortest prefix in the pattern's language (the longest for embed
   markers and white space), and the text is cut at leftmost non-overlapping matches. The pipelines of title, byline
   and body are lists of passes, and the lemmas are about what leaves the last pass.
4. **Messages** (`ContentTypes`, `Message`, `Handling`, `Redelivery`, `Startup`). A message ignores, deletes or writes a document;
   runs of messages, redelivery, and every interleaving of connector, handlers and `Stop` are built on that step.

What the proofs found:

- `concordance.go:113` copies a slice header, so an alias and its concept can go on appending to one backing array.
  When the alias key later gets TME IDs of its own and the concept does too, one overwrites the other's element
  (`SliceMemory.SharingCanShow`), and a document about the concept lists an ID that only the alias was given
  (`DocumentIDs.DocumentCanInvent`). Every shown ID has a source exactly when the last writer of every cell has one
  (`LastWriters.ProvenanceIff`, `DocumentIDs.DocumentProvenanceIff`). Compatible responses are among these and not all
  of them (`LastWriters.SourcedThoughIncompatible`). When TME values differ, keys show IDs of their own lists only
  exactly for compatible responses (`SliceProvenance.OwnIDsIff`). Nothing shows when no alias key is the concept of a
  later TME record (`SliceMemory.NoAliasGrowsIsCompatible`).
- `readContentType` ranges over a Go map, so a message can be given different types on different deliveries:
  `ContentTypes.ReadsCanDiffer` has an origin for which the shipped configuration gives two. It is always given the
  same one exactly when the entries that decide agree (`ContentTypes.OrderIndependentIff`). Redelivery can then change
  the index (`Redelivery.SharedArticleCanChange`); it never does exactly for the messages whose effect does not hang
  on the type (`Redelivery.ConvergesIff`).
- The primary theme can hang on how `sort.Slice` orders equal labels (`MapperProperties.TiesCanDiffer`). It does not
  exactly when the candidates of least label agree on it (`MapperProperties.ThemeOrderIff`).
- The body can begin or end with white space, because embed markers and captions go after the trim
  (`Markers.BodyTextMayStartWithSpace`, `Markers.BodyTextMayEndWithSpace`). It does exactly when white space follows
  the markers and captions at the beginning of the clean text or comes before those at its end
  (`Markers.BodyTextTrimmedIff`).
- Removing embed markers once can leave one (`Markers.EmbedRemovalRepeats`): exactly when, across a removed marker,
  the kept text spells another (`Markers.EmbedRemovalOnceIff`).

Assumptions about what lies outside the repository:

- Strings are sequences of code points. Bytes that are not UTF-8 are not modelled. Taxonomies are ASCII.
- `\s` is tab, line feed, form feed, carriage return and space. `strings.TrimSpace` uses the list of
  `unicode.IsSpace`. Under `(?i)` a letter also stands for its capital, and `s` and `k` for U+017F and U+212A.
- `html.UnescapeString`, `sort.Slice`, the concept reader, the policy agent, the growth of slices, generated
  transaction IDs and the outcome of an index request are parameters. A sorter is any function that returns a sorted
  permutation, so labels that tie may come in any order; `Sorters` has one that puts a chosen annotation first.
- The values of the configuration's predicates and concept types are arbitrary strings. They need not differ: the
  order of the cases decides, as in the source.

## Model

| member | source | states |
|---|---|---|
| Concordance.ConceptMapExact | pkg/concept/concordance.go:97-119 | in the fold on values, which the shared slices show on compatible responses, the keys are the mentioned keys, and each carries its declared list: for a key first mentioned as a concept all TME values about it in response order, for one first mentioned as an alias the concept's list at that record and then the TME values about the key itself |
| Concordance.ConceptMapKeys | pkg/concept/concordance.go:98-114 | the keys are the concept IDs and the prefixed values of UPP records, and nothing else |
| Concordance.AliasCarriesFullList | pkg/concept/concordance.go:105-114 | when a concept's TME records all come before the record that creates an alias of it, and no later TME record is about the alias, alias and concept carry the same list, also when the concept is itself an alias; when it is not, the list is all its TME values |
| Concordance.Provenance | pkg/concept/concordance.go:105-114 | in the fold on values every ID under a key is the value of a TME record about that key or about a concept that seeded it, through any number of aliases |
| SliceMemory.SharingIsInvisibleIff | pkg/concept/concordance.go:97-119 | with shared backing arrays every key shows the fold's list, for every way of growing arrays, if and only if within each lineage of aliases every two lists are prefixes one of the other |
| SliceMemory.NoAliasGrowsIsCompatible | pkg/concept/concordance.go:106-114 | sharing does not show when no alias key created by a record is the concept of a later TME record |
| SliceMemory.CompatibleShows | pkg/concept/concordance.go:106-114 | on compatible responses memory shows every list and only keys of one lineage share an array, whatever the growth |
| SliceMemory.RoomyRun | pkg/concept/concordance.go:106-114 | while arrays do not fill up, all keys of a lineage are on one backing array |
| SliceMemory.SharingCanShow | pkg/concept/concordance.go:107-113 | with capacities 1, 2, 4 a concept of three IDs, its alias, one more ID for each: the concept's own ID is overwritten |
| SliceProvenance.RunShowsLineage | pkg/concept/concordance.go:97-119 | for every response and every growth a key shows as many IDs as its list has, and each stands at the same place in the list of a key of its lineage; only keys of one lineage share an array |
| SliceProvenance.SharedProvenance | pkg/concept/concordance.go:105-114 | for every response and every growth an ID shown under a key is the value of a TME record about a key of its lineage |
| SliceProvenance.CompatibleProvenance | pkg/concept/concordance.go:105-114 | on compatible responses it is the value of a TME record about that key or a concept that fed it |
| SliceProvenance.SharingCanInvent | pkg/concept/concordance.go:107-113 | the same clashing responses: the concept shows an ID that neither it nor a concept that fed it was given |
| SliceProvenance.OwnIDsIff | pkg/concept/concordance.go:97-119 | when TME values differ, no key shows an ID outside its own list, however arrays grow, if and only if the response is compatible |
| LastWriters.ViewsExact | pkg/concept/concordance.go:97-119 | for every response and every growth the shared slices show, under each key and at each place, the ID of the last record that wrote to the cell: of the keys whose element at the start of the array is the same record's, the one that appended at that place last before the key outgrew the array |
| LastWriters.RunExact | pkg/concept/concordance.go:97-119 | there is one such record for each place of each key's list, and the slices show its ID |
| LastWriters.MarksAreFold | pkg/concept/concordance.go:97-119 | the records that the lists hold are those of the fold: the same keys, and for each place a TME record with the listed ID |
| LastWriters.SharingShowsIff | pkg/concept/concordance.go:106-114 | for each growth the slices show the fold if and only if the last writer of every cell has the listed ID |
| LastWriters.ProvenanceIff | pkg/concept/concordance.go:105-114 | for every response and every growth each shown ID is the value of a TME record about its key or a concept that fed it if and only if the last writer's ID is, for every cell |
| LastWriters.SourcedThoughIncompatible | pkg/concept/concordance.go:107-113 | the clashing records with the last two in the other order: lists part ways and yet every shown ID has a source under every growth |
| Entries.AuthoritiesAre | pkg/concept/concordance.go:105-110 | a record is TME exactly when its authority is http://api.ft.com/system/FT-TME and UPP exactly when it is http://api.ft.com/system/UPP |
| Entries.KeysAre | pkg/concept/concordance.go:99-114 | a key is in the map if and only if it is some entry's concept ID or http://api.ft.com/things/ and the value of a UPP entry |
| Entries.ShownAreGiven | pkg/concept/concordance.go:105-108 | for every growth each shown ID is the value of an FT-TME entry |
| Entries.ConceptList | pkg/concept/concordance.go:105-108 | a key that is an entry's concept before any entry names it as an alias carries the values of its FT-TME entries, in order |
| Entries.AliasList | pkg/concept/concordance.go:110-114 | a key first named by an entry as an alias of a concept carries the values given for that concept before and then those given for the key itself |
| ConcordanceService.Append | pkg/concept/concordance.go:107 | append writes in place when the array has room and otherwise fills a new array; it changes nothing else |
| ConcordanceService.AppendUnder | pkg/concept/concordance.go:105-109 | appending under a key changes the arrays exactly as the header model says, for every key that shares one |
| ConcordanceService.TransformToConceptModel | pkg/concept/concordance.go:97-119 | the loop over real arrays returns the keys and, under each, the elements of the header model's run, that is the last writers' IDs, and those of the fold when the response is compatible or no alias collects TME values of its own; the keys are those the entries mention, each ID the value of an FT-TME entry, and without such aliases a key first met as a concept shows the values of its FT-TME entries in order |
| Base64.GroupIsWritten | pkg/mapper/mapper.go:339 | every three bytes are written by four characters whose positions in the alphabet of RFC 4648 are their bits six by six; a last group of two or one is filled with zero bits and padded with '=' (section 4) |
| Base64.EncodeInjective | pkg/mapper/mapper.go:339 | the standard base64 encoding (section 4 of RFC 4648) is injective |
| Base64.EncodeSuffix | pkg/mapper/mapper.go:341 | an encoding ends with another exactly when the bytes do and the cut is at a multiple of three |
| Base64.IdSuffixExact | pkg/mapper/mapper.go:339-341 | an ID made of a prefix, a dash and an encoded taxonomy ends with another encoding exactly when that taxonomy is a suffix cut off at a multiple of three bytes |
| Taxonomy.SuffixTexts | pkg/mapper/mapper.go:24-28 | the six lookups ask for T04=, UE4=, QXV0aG9ycw==, VG9waWNz, R0w= and U2VjdGlvbnM= |
| Taxonomy.CmrIDIs | pkg/mapper/mapper.go:338-346 | the lookup on values finds the first ID with that end, or none has it |
| Taxonomy.PickIs | pkg/mapper/mapper.go:348-359 | with the fallback it is the first ID with that end; when none has it the second ID, and when there is no second the first |
| Taxonomy.GetCmrID | pkg/mapper/mapper.go:338-346 | returns the first ID that ends with the encoded taxonomy, and whether there is one |
| Taxonomy.GetCmrIDWithFallback | pkg/mapper/mapper.go:348-359 | the first ID that ends with the encoded taxonomy; when none does the second ID, and when there is no second the first; no index is out of range |
| Taxonomy.LookupMatchesOwnTaxonomy | pkg/mapper/mapper.go:24-28 | among the taxonomies the mapper uses, an ID of one is matched by the lookup for that one and no other, whatever its prefix |
| Taxonomy.LookupSkipsUuids | pkg/mapper/mapper.go:338-346 | text in lower-case hexadecimal digits and dashes is never taken for a TME ID |
| Taxonomy.LookupFindsTaxonomy | pkg/mapper/mapper.go:338-346 | after a canonical UUID the lookup returns the first TME ID of the taxonomy asked for, and nothing when there is none |
| Taxonomy.CmrIDIsMember | pkg/mapper/mapper.go:348-359 | whatever the lookups return is one of the IDs they were given |
| Dedup.AppendIfNotExists | pkg/mapper/mapper.go:361-368 | adds the element at the end when it is not there |
| Dedup.PrepareElasticField | pkg/mapper/mapper.go:300-305 | adds the IDs one after the other |
| Dedup.DistinctExact | pkg/mapper/mapper.go:300-305 | adding one after the other to nothing gives the one list that holds each element once in the order of first occurrence |
| Annotations.AppendingBuildsLists | pkg/mapper/mapper.go:141-184 | appending contributions of all categories one by one gives every category the de-duplication of its own labels and IDs |
| Mapper.IndexModel.Contribute | pkg/mapper/mapper.go:150-151 | a label and IDs go to the two lists of one category; the other lists stay |
| Mapper.Handler.HandleSectionMapping | pkg/mapper/mapper.go:307-326 | contributes to the sections for the six predicates, sets the primary section for the last of them, and leaves every other field alone |
| Mapper.Handler.PopulatePerson | pkg/mapper/mapper.go:152-166 | someone who is an author only is not among the people; an author needs the predicate and an author ID, and is listed with that ID and the canonical one |
| Mapper.Handler.PopulateTypeRelatedFields | pkg/mapper/mapper.go:148-182 | the lists are extended by what the first matching concept type contributes; the other fields stay |
| Mapper.Handler.PopulateAnnotationRelatedFields | pkg/mapper/mapper.go:141-184 | an annotation extends the lists by its section and then by its types in order |
| Mapper.Handler.KeepAnnotations | pkg/mapper/mapper.go:186-196 | keeps the annotations that are neither mentions nor display tags, in order, with their IDs |
| Mapper.Handler.FilterAnnotations | pkg/mapper/mapper.go:130-139 | keeps the annotations with the predicate and a concordance |
| Mapper.Handler.SetPrimaryTheme | pkg/mapper/mapper.go:328-336 | sets name and ID together and keeps an earlier theme |
| Mapper.Handler.PopulatePrimaryTheme | pkg/mapper/mapper.go:96-128 | the theme is that of the first candidate of the sorted list, by the first of its types that has a taxonomy |
| Mapper.Handler.PopulateContentRelatedFields | pkg/mapper/mapper.go:206-250 | title and byline go through the line pipeline, a body that is not empty through the body pipeline, an empty one becomes the description |
| Mapper.Handler.PopulateFromAnnotations | pkg/mapper/mapper.go:72-89 | the loop extends the lists by the contributions of all annotations with a concordance, in order, and records their IDs |
| Mapper.Handler.PopulateTags | pkg/mapper/mapper.go:72-91 | the lists are the first-occurrence de-duplication of the whole stream; primary section and theme are those of the annotations |
| Mapper.Handler.ToIndexModel | pkg/mapper/mapper.go:51-94 | the filled model is the document of the event, with and without annotations and when the concept request fails; the stored URL is secured and nothing else changes |
| Mapper.SecuredSettles | pkg/mapper/mapper.go:54-56 | after one rewriting the stored URL is no longer plain http and stays as it is |
| MapperProperties.ListsAreFirstOccurrences | pkg/mapper/mapper.go:141-184 | every list of the document holds each contributed entry once, in the order of first arrival |
| MapperProperties.PeopleAndAuthorsListed | pkg/mapper/mapper.go:152-166 | a label is among the people, or the authors, if and only if some annotation with a concordance and the person type qualifies for it |
| MapperProperties.PrimarySectionIsLast | pkg/mapper/mapper.go:318-324 | the primary section is that of the last annotation with a concordance that is the primary classification |
| MapperProperties.PrimarySectionAbsent | pkg/mapper/mapper.go:318-324 | without such an annotation there is none |
| MapperProperties.PrimarySectionIsSection | pkg/mapper/mapper.go:318-324 | the primary section's name and ID are in the section lists |
| MapperProperties.ThemeFromLeastLabel | pkg/mapper/mapper.go:96-128 | the theme comes from an "about" annotation with the least label whichever sorted permutation is taken, and there is none without one |
| MapperProperties.PrimaryThemeIsSection | pkg/mapper/mapper.go:96-128 | the primary theme's name and ID are in the section lists |
| MapperProperties.ListsIgnoreOrder | pkg/mapper/mapper.go:72-89 | reordering or repeating annotations leaves every list equal as a set |
| MapperProperties.ThemeIgnoresOrder | pkg/mapper/mapper.go:96-128 | when the candidates of least label agree on the theme it depends neither on the order and repetition of annotations nor on the sort |
| MapperProperties.ThemeOrderIff | pkg/mapper/mapper.go:96-128 | all sorted permutations, and all orders of the annotations, give one theme if and only if the candidates of least label agree on it |
| MapperProperties.LeastDecides | pkg/mapper/mapper.go:103-107 | each candidate of least label makes the theme under some sorted permutation |
| MapperProperties.TiesCanDiffer | pkg/mapper/mapper.go:96-128 | two organisations of one label between which the sort decides |
| MapperProperties.TagsFromVisible | pkg/mapper/mapper.go:61-91 | for a fixed concordance map the annotation part of the document depends on the visible annotations alone, also when the loop is never reached |
| MapperProperties.HiddenAnnotationsChangeNothing | pkg/mapper/mapper.go:186-201 | ignored annotations and those without a concordance can be put in or taken out anywhere |
| DocumentIDs.IDsOfAnnotations | pkg/mapper/mapper.go:73-88 | for every concept map each ID in the document is the trimmed ID of a kept annotation or one of its concept's IDs |
| DocumentIDs.DocumentLineage | pkg/mapper/mapper.go:73-88 | with the concept map that shared slices show, for every response and every growth, each ID in the document is the trimmed ID of a kept annotation with a concordance or the value of a TME record about a key of its concept's lineage |
| DocumentIDs.DocumentProvenance | pkg/mapper/mapper.go:73-88 | on compatible responses it is a TME value about its concept or one that fed its alias |
| DocumentIDs.DocumentListsIff | pkg/mapper/mapper.go:73-88 | an ID is in the document if and only if a kept annotation brings it to some list |
| DocumentIDs.DocumentProvenanceIff | pkg/mapper/mapper.go:73-88 | for every response and every growth all IDs of the document have a source if and only if those have that annotations bring from the last writers of their concepts' cells |
| DocumentIDs.DocumentCanInvent | pkg/mapper/mapper.go:73-88 | on the clashing responses the document of one annotation lists an ID for which this fails |
| IndexedFields.OrganisationsListed | pkg/mapper/mapper.go:149-151 | with the concepts the reader gives for the annotations it is asked for, the organisation lists are the labels and IDs of the annotations with a concordance and a type equal to the organisation type, each once in the order of first arrival |
| IndexedFields.PeopleListed | pkg/mapper/mapper.go:152-159 | the same for the person type, of annotations with an ID ending UE4= or none ending QXV0aG9ycw== |
| IndexedFields.AuthorsListed | pkg/mapper/mapper.go:160-166 | the same for the person type, of annotations whose predicate credits an author and with an ID ending QXV0aG9ycw==; the IDs are the first such ID and the canonical one |
| IndexedFields.CompaniesListed | pkg/mapper/mapper.go:167-169 | the same for the company type when no earlier case has the same value |
| IndexedFields.BrandsListed | pkg/mapper/mapper.go:170-172 | the same for the brand type |
| IndexedFields.TopicsListed | pkg/mapper/mapper.go:173-175 | the same for the topic type |
| IndexedFields.RegionsListed | pkg/mapper/mapper.go:176-178 | the same for the location type |
| IndexedFields.GenresListed | pkg/mapper/mapper.go:179-181 | the same for the genre type |
| IndexedFields.SectionsListed | pkg/mapper/mapper.go:307-326 | the section lists are the labels and IDs of the annotations with a concordance and one of the six predicates |
| IndexedFields.PrimarySectionIs | pkg/mapper/mapper.go:318-324 | the primary section is the label of the last annotation with a concordance and the primary classification, with its first ID ending U2VjdGlvbnM=, else its second, else its first |
| IndexedFields.PrimaryThemeIs | pkg/mapper/mapper.go:96-128 | the primary theme is the label of an "about" annotation of least label with a concordance; the ID is its first one ending as the first of its types that is an organisation, person, topic or location asks, else its second, else its first; there is none without such an annotation or such a type |
| IndexedFields.NothingListed | pkg/mapper/mapper.go:61-70 | when no annotation counts or the concept request fails every list is empty and neither section nor theme is set |
| IndexedFields.HeaderIs | pkg/mapper/mapper.go:206-250 | title and byline are the cleaned ones of the content, the body is the cleaned body or the description, and the API URL is the secured base URL, /content/ and the uuid |
| Strings.TrimPrefixIs | pkg/mapper/mapper.go:74 | a prefix is cut off, and a text without it stays |
| Strings.HasSuffixIff | pkg/mapper/mapper.go:341 | a text has a suffix exactly when it is some text and the suffix |
| Strings.LessIff | pkg/mapper/mapper.go:103-105 | labels are compared at the first character in which they differ, and a beginning comes before what it begins |
| Strings.ContainsIff | pkg/message/message_handler.go:106 | a text contains another exactly when it is some text, the other and some text |
| PatternTexts.InteractiveTexts | pkg/html/transformer.go:12 | the pattern stands for `<div`, white space or none, `class="interactive-comp">`, anything and `</div>` |
| PatternTexts.PullTexts | pkg/html/transformer.go:13 | for `<pull-quote`, white space or '>', anything and `</pull-quote>` |
| PatternTexts.NbspText | pkg/html/transformer.go:14 | for `&nbsp;` |
| PatternTexts.ScriptTexts | pkg/html/transformer.go:15 | for '<' and the name script in any case, no '>', '>', anything and the closing tag in any case |
| PatternTexts.TagTexts | pkg/html/transformer.go:16 | for '<', no '>' and '>' |
| PatternTexts.EmbedTexts | pkg/html/transformer.go:17 | for `embed` and one or more digits |
| PatternTexts.CaptionTexts | pkg/html/transformer.go:18 | for '[', perhaps '/', `caption`, no ']' and ']' |
| PatternTexts.WhiteSpaceTexts | pkg/html/transformer.go:19 | for one or more of tab, line feed, form feed, carriage return and space |
| Regex.FirstSound | pkg/html/transformer.go:11-20 | what the matcher finds is a prefix in the pattern's language |
| Regex.FirstFindsIff | pkg/html/transformer.go:11-20 | the matcher finds a match if and only if some prefix is in the pattern's language |
| Regex.FirstIsMatch | pkg/html/transformer.go:11-20 | for a pattern whose choices are settled the matcher finds the prefix of length n if and only if it is in the language and the shortest that is, or for a greedy pattern the longest |
| Transformer.PatternsSettled | pkg/html/transformer.go:11-20 | the choices of all eight patterns are; embed markers and white space are greedy |
| Replacement.ReplaceAllString | pkg/html/transformer.go:32-67 | the scanning loop terminates and returns the replacement of every match |
| Replacement.ReplaceIsLeftmost | pkg/html/transformer.go:32-67 | the text has a decomposition into stretches of kept text, where nothing that begins is in the pattern's language, and the shortest, or longest, matches between them; the result is every such decomposition with the matches replaced |
| Replacement.DeletionIsSubsequence | pkg/html/transformer.go:32-63 | a deleting pass outputs a subsequence of its input |
| Replacement.DeletionIdleIff | pkg/html/transformer.go:32-63 | a deleting pass returns its input if and only if the pattern matches nowhere in it |
| Transformer.TransformText | pkg/html/transformer.go:24-30 | the result is the text after all transformers, from the first to the last |
| Transformer.LineTextIs | pkg/mapper/mapper.go:219-229 | the four passes of title and byline, in their order |
| Transformer.BodyTextIs | pkg/mapper/mapper.go:238-247 | the nine passes of the body, in their order |
| Transformer.BodyPasses | pkg/mapper/mapper.go:238-247 | the nine passes written out one after the other |
| Transformer.SpacesAre | pkg/html/transformer.go:54 | the characters that are trimmed and those of `\s`, one by one |
| Transformer.TrimIsStretch | pkg/html/transformer.go:53-55 | the input is white space, the trimmed text and white space, and the trimmed text has none at its ends |
| TextProperties.TrimKeepsVisible | pkg/html/transformer.go:53-55 | trimming keeps every character that is not white space, in order |
| TextProperties.TagsRemoverClears | pkg/html/transformer.go:49-51 | one pass leaves no '<' with a '>' anywhere after it |
| TextProperties.ReplaceKeepsTagFree | pkg/html/transformer.go:57-67 | no replacement by text without angle brackets brings a tag back |
| TextProperties.LineTextIsTagFree | pkg/mapper/mapper.go:219-229 | title and byline are free of tags for every input and every entity decoder |
| TextProperties.BodyTextIsTagFree | pkg/mapper/mapper.go:238-247 | so is the body, although four passes follow the tag remover |
| TextProperties.TagsRemoverIdempotent | pkg/html/transformer.go:49-51 | removing tags twice is removing them once |
| TextProperties.CollapseIdempotent | pkg/html/transformer.go:65-67 | collapsing white space twice is collapsing it once |
| TextProperties.CollapseKeepsText | pkg/html/transformer.go:65-67 | collapsing white space keeps every other character, in order |
| TextProperties.LineTextKeepsVisible | pkg/mapper/mapper.go:219-229 | of the decoded text without tags every character that is not white space survives in a title or byline, in order |
| TextProperties.BodyTextKeepsVisible | pkg/mapper/mapper.go:238-247 | in the body those of the text without blocks and tags survive the trim, and those left by the marker and caption removals survive to the end |
| TextProperties.LineTextIsNormal | pkg/mapper/mapper.go:219-229 | title and byline have single spaces as their only `\s` characters and no white space at the ends |
| TextProperties.LineTextStable | pkg/mapper/mapper.go:219-229 | cleaning a cleaned title without '&' again changes nothing, when the decoder leaves such text alone |
| TextProperties.BodyTextIsSingleSpaced | pkg/mapper/mapper.go:238-247 | the body has single spaces as its only `\s` characters |
| Markers.RemovalsInOnePass | pkg/mapper/mapper.go:245-246 | removing the embed markers and then the captions is one pass over the text: at each place a marker goes, or a bracket up to the first closing one when its inside without markers begins with "caption" or "/caption" |
| Markers.CaptionIff | pkg/html/transformer.go:18 | a closed bracket is a caption if and only if its inside begins with "caption" or "/caption" |
| Markers.BodyTextTrimmedIff | pkg/mapper/mapper.go:244-247 | the body has no white space at its ends if and only if, in the trimmed text, the first character after the markers and captions it begins with and the last one before those it ends with are not white space |
| Markers.BodyTextIsTrimmed | pkg/mapper/mapper.go:244-247 | it has none when no marker and no caption stands at either end of the trimmed text |
| Markers.BodyTextMayStartWithSpace | pkg/mapper/mapper.go:244-247 | a body that begins with a space |
| Markers.BodyTextMayEndWithSpace | pkg/mapper/mapper.go:244-247 | a body that ends with one |
| Markers.MarkerIff | pkg/html/transformer.go:17 | the marker pattern matches if and only if the text begins with "embed" and a digit, and takes every digit |
| Markers.EmbedRemoved | pkg/html/transformer.go:57-59 | an embed marker goes with all its digits, the text before it stays and the rest is cleaned in turn |
| Markers.EmbedRemovalRepeats | pkg/html/transformer.go:57-59 | a text from which a second pass removes what the first pass has brought together |
| Markers.EmbedRemovalOnceIff | pkg/html/transformer.go:57-59 | a second pass changes nothing if and only if at no cut of the text the kept text before it ends with one to four letters of "embed" and the kept text after it begins with the others and a digit |
| Stripping.StrippingUndoesWeaving | pkg/html/transformer.go:32-47 | removing script, pull-quote or interactive-comp blocks woven into text without an opener returns exactly the text, for any number of blocks whose bodies do not hold the closing tag |
| Stripping.ReplaceUndoesWeaving | pkg/html/transformer.go:32-67 | the same for any pattern that begins with a marker the text does not hold and that takes each block whole |
| Stripping.TagsUndone | pkg/html/transformer.go:49-51 | tags woven into text without '<' go and the text stays |
| Stripping.CaptionsUndone | pkg/html/transformer.go:61-63 | opening and closing captions woven into text without their beginning go and the text stays |
| Stripping.NbspBecomesSpace | pkg/html/transformer.go:40-43 | every `&nbsp;` woven into text becomes a space before the other entities are decoded |
| ContentTypes.RangeAuthority | pkg/message/message_handler.go:197-201 | in whatever order the map is visited, an entry is found if and only if one matches, and the type is that of a matching entry |
| ContentTypes.RangeOrigin | pkg/message/message_handler.go:204-208 | the same for the origin header |
| ContentTypes.ReadContentType | pkg/message/message_handler.go:183-210 | the type is one of those the headers, else the first matched identifier, else the origin allow |
| ContentTypes.PossibleIsExact | pkg/message/message_handler.go:195-209 | a type is allowed if and only if some orders of the map produce it |
| ContentTypes.OrderIndependentIff | pkg/message/message_handler.go:195-209 | all orders of the map give one type if and only if the matching entries that decide agree |
| ContentTypes.ReadsCanDiffer | configs/app.yml:22-42 | an origin and two orders of the shipped configuration that give a message the types blog and video |
| ContentTypes.IsAllowedType | pkg/message/message_handler.go:212-221 | true exactly for the six allowed types |
| Handling.TypesByHeader | pkg/message/message_handler.go:183-193 | a content type header with ft-upp-audio, or an Audio event, is audio; else ft-upp-article is article; else ft-upp-live-event is live-event; else the entries decide |
| Handling.TypesByEntries | pkg/message/message_handler.go:195-209 | a type is possible if and only if it is that of an entry whose authority, not empty, is part of the first identifier's that any entry finds, or, when none is found, of an entry whose origin is part of the header's, or, when that is not found either, empty |
| Handling.EffectIs | pkg/message/message_handler.go:96-180 | which messages go on, and of these which delete, which write and which do nothing, by headers, event and type |
| Handling.WrittenIs | pkg/message/message_handler.go:118-175 | the written document has the cleaned body, or the cleaned XML body when there is no other, or the description; title, byline, uuid, type and annotation part are the event's |
| Handling.IndexedBody | pkg/message/message_handler.go:118-175 | after such a message the index holds that body under the event's uuid |
| Message.ElasticsearchService.SetClient | pkg/es/service.go:115-119 | the client is stored |
| Message.ElasticsearchService.WriteData | pkg/es/service.go:121-128 | one call; when it takes effect the document stands under the uuid and every other one is as before, when it does not nothing changes; a failed request can do either |
| Message.ElasticsearchService.DeleteData | pkg/es/service.go:130-138 | one call; when it takes effect the uuid is gone and every other document is as before, when it does not nothing changes; a failed request can do either |
| Message.Handler.HandleMessage | pkg/message/message_handler.go:96-181 | the message makes exactly the call of its action or none, never both a write and a delete; index, calls and stored URL are as the action says |
| Message.Handler.HandleEvent | pkg/message/message_handler.go:150-180 | the part after the content type is read, with the delete of a PAC message without a type |
| Redelivery.Consume | pkg/message/message_handler.go:96-181 | the handler's loop over messages goes through a run of legal deliveries of exactly these messages, from the old index and URL to the new |
| Redelivery.RedeliveryConverges | pkg/message/message_handler.go:96-181 | handling messages and then any tail of them once more leaves the index of handling them once, when what each message does hangs on no order of the configuration |
| Redelivery.RunsAgree | pkg/message/message_handler.go:96-181 | two runs of such messages leave the same index whatever orders Go's maps take and whatever transaction IDs are generated |
| Redelivery.ConvergesIff | pkg/message/message_handler.go:96-181 | over a set of messages every run, from every index, converges under redelivery, and any two runs of the same messages agree, if and only if every message is stopped before its type is read, or is a delete that is from PAC or whose possible types are all empty or all not, or is content without a uuid or with one type |
| Redelivery.UndeterminedShows | pkg/message/message_handler.go:149-180 | for any other message a start and two deliveries after which redelivery changes the index |
| Redelivery.SharedArticleCanChange | configs/app.yml:22-42 | with the shipped configuration an article of an origin that two entries find theirs in is such a message |
| Redelivery.LastActionDecides | pkg/es/service.go:121-138 | after any actions a uuid holds what the last one about it left, or what it held before |
| Redelivery.RunLookup | pkg/message/message_handler.go:158-180 | after a run a uuid holds the document of its last write, or nothing when the last action was a delete |
| Redelivery.RunFrame | pkg/message/message_handler.go:106-180 | a run leaves alone every uuid that no accepted message is about |
| Startup.NeverCrashes | pkg/message/message_handler.go:69-86 | in no interleaving is the consumer started, a message handled or a request made before a client is stored, and never do two of connector and handlers hold the lock |
| Startup.ClientStays | pkg/es/service.go:115-119 | once stored the client is never taken away |
| Startup.StepKeepsInv | pkg/es/service.go:115-138 | every step keeps one holder of the lock, one turn for each handler, and the index that of the turns |
| Startup.HandlersAreSerial | pkg/es/service.go:121-138 | the index of any interleaving is that of the handlers' actions one after the other in the order of the lock; each handler that is done is in it once, after those that were done when its message came |
| Startup.ConcurrentIsSequential | pkg/message/message_handler.go:96-181 | when handlers act on deliveries, whether each reads the stored URL before or after it is secured, any interleaving leaves the index of the sequential run over the deliveries in the order of the lock, less those whose requests had no effect |
| Startup.QuietIndex | pkg/es/service.go:121-138 | in any interleaving a uuid holds what the last successful request about it left |

## Left out

- Markers.BodyTextIsTrimmed: is one direction only; `Markers.BodyTextTrimmedIff` is the exact condition.
- SliceProvenance.CompatibleProvenance: is one direction only; `LastWriters.ProvenanceIff` is the exact condition.
- SliceProvenance.RunShowsLineage: says the ID is listed in the lineage; `LastWriters.ViewsExact` says whose it is.
- Concordance.ConceptMapExact: is about the fold on values; `ConcordanceService.TransformToConceptModel` says when the arrays show it.
- Concordance.Provenance: is about the fold on values; `LastWriters.ProvenanceIff` is about what the arrays show.
- DocumentIDs.DocumentProvenance: asks for a compatible response; `DocumentIDs.DocumentProvenanceIff` is the exact condition and `DocumentIDs.DocumentLineage` asks for nothing.
- Regex.FirstSound: says nothing of which prefix is taken; `Regex.FirstIsMatch` does.
- Regex.FirstFindsIff: the same.
- TextProperties.LineTextStable: assumes a decoder that leaves text without '&' alone, as html.UnescapeString does.
- Redelivery.RedeliveryConverges: takes every index request to succeed, and the concept reader, the policy and the entity decoder to answer alike on both deliveries.
- Redelivery.RunsAgree: the same.
- Redelivery.ConvergesIff: the same.
- Redelivery.Consume: the same; `Message.Handler.HandleMessage` allows every outcome.
- Message.ElasticsearchService.WriteData: the lock is not in this class but in `Startup`, where a request is made by the one holder of the lock.
- Message.ElasticsearchService.DeleteData: the same.
- Mapper.Handler.ToIndexModel: is exact for the fields of the model; the fields copied by one branch each are left out.
- Message.Handler.HandleMessage: JSON decoding is the optional body of the message; the request's timeout is its outcome.
- Mapper.Handler.PopulateContentRelatedFields: leaves out the fields copied by one branch each (dates, type, category, format, thumbnail, duration, standfirst, syndication flags, web URL, index date, publish reference); two documents that differ in these alone are one document here.
- Mapper.IndexModel.Contribute: the eighteen list fields are one field of type map, a pair of lists for each category; appends to a list of the document are on values, as no two fields of the document share an array.
- Mapper.Handler.PopulatePrimaryTheme: sort.Slice is a function, so one run of the program sorts equal lists equally; it sorts a copy, which is fresh in the source too.
- ConcordanceService.Append: slices start at their array's first element, as every slice of this loop does.
- ConcordanceService.TransformToConceptModel: a nil and an empty TmeIDs are one value; the loop never builds an empty one that is not nil.
- Startup.HandlersAreSerial: a handler's action is chosen when its message arrives; the unguarded rewriting of the mapper's URL by concurrent handlers is not modelled as a race of reads and writes within the string. `Startup.ConcurrentIsSequential` lets each handler read the URL before or after it.
- Startup.NeverCrashes: the pause between attempts to connect is not modelled, and Stop does not hold messages back.
- The HTTP, Kafka, policy and Elasticsearch clients, request signing, configuration parsing, logging, the command line, health checks and the comparison of index schemas: library calls and straight-line checks.
