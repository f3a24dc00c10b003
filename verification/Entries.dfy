/** What the concept map makes of a response, said of its entries and their texts. */
module Entries {
  import opened Concordance
  import opened SliceMemory
  import opened SliceProvenance

  /** The entry gives a TME ID. */
  predicate GivesID(e: Entry) { e.authority == "http://api.ft.com/system/FT-TME" }

  /** The entry names its concept by another key. */
  predicate NamesKey(e: Entry, key: string) {
    e.authority == "http://api.ft.com/system/UPP" && "http://api.ft.com/things/" + e.identifierValue == key
  }

  predicate EntryMentions(e: Entry, key: string) { e.conceptID == key || NamesKey(e, key) }

  ghost predicate SomeMentions(entries: seq<Entry>, key: string) {
    exists i :: 0 <= i < |entries| && EntryMentions(entries[i], key)
  }

  ghost predicate SomeGives(entries: seq<Entry>, id: string) {
    exists i :: 0 <= i < |entries| && GivesID(entries[i]) && entries[i].identifierValue == id
  }

  /** The TME IDs given for the concept, in order. */
  function IDsGiven(entries: seq<Entry>, key: string): seq<string> {
    if entries == [] then []
    else
      var n := |entries| - 1;
      IDsGiven(entries[..n], key) +
      if GivesID(entries[n]) && entries[n].conceptID == key then [entries[n].identifierValue] else []
  }

  /** Entry `i` has the key as its concept and no earlier entry names it. */
  predicate FirstAsConcept(entries: seq<Entry>, key: string, i: nat) {
    i < |entries| && entries[i].conceptID == key && forall j :: 0 <= j < i ==> !NamesKey(entries[j], key)
  }

  /** Entry `i` names its concept by the key, which no earlier entry mentions. */
  predicate FirstAsAlias(entries: seq<Entry>, key: string, i: nat) {
    i < |entries| && NamesKey(entries[i], key) && entries[i].conceptID != key &&
    forall j :: 0 <= j < i ==> !EntryMentions(entries[j], key)
  }

  // ----- entries and records -----

  lemma AuthoritiesAre(uri: string)
    ensures ParseAuthority(uri) == FtTme <==> uri == "http://api.ft.com/system/FT-TME"
    ensures ParseAuthority(uri) == Upp <==> uri == "http://api.ft.com/system/UPP"
  {
    assert |"http://api.ft.com/system/FT-TME"| != |"http://api.ft.com/system/UPP"|;
  }

  lemma RecordIs(entries: seq<Entry>, i: nat)
    requires i < |entries|
    ensures var r, e := Records(entries)[i], entries[i];
            && r.conceptID == e.conceptID && r.value == e.identifierValue && (r.IsTme() <==> GivesID(e))
            && (forall key :: r.IsUpp() && r.AliasKey() == key <==> NamesKey(e, key))
            && (forall key :: r.Mentions(key) <==> EntryMentions(e, key))
  {
    AuthoritiesAre(entries[i].authority);
  }

  lemma RecordsPrefix(entries: seq<Entry>, i: nat)
    requires i <= |entries|
    ensures Records(entries[..i]) == Records(entries)[..i]
  {
  }

  lemma {:induction false} IDsGivenAre(entries: seq<Entry>, key: string)
    ensures TmeValues(Records(entries), key) == IDsGiven(entries, key)
  {
    if entries != [] {
      var n := |entries| - 1;
      IDsGivenAre(entries[..n], key);
      RecordsPrefix(entries, n);
      RecordIs(entries, n);
    }
  }

  // ----- keys, IDs and lists -----

  lemma KeysAre(entries: seq<Entry>, key: string)
    ensures key in Fold(Records(entries)) <==> SomeMentions(entries, key)
  {
    var rs := Records(entries);
    ConceptMapExact(rs);
    assert ExactAt(rs, Fold(rs), key);
    var i := FirstMention(rs, key);
    if i < |rs| {
      RecordIs(entries, i);
    }
    forall j | 0 <= j < |rs| ensures rs[j].Mentions(key) <==> EntryMentions(entries[j], key) {
      RecordIs(entries, j);
    }
  }

  lemma ShownAreGiven(entries: seq<Entry>, grow: Growth, key: string, id: string)
    requires Grows(grow) && key in Views(Run(Records(entries), grow)) && id in Views(Run(Records(entries), grow))[key]
    ensures SomeGives(entries, id)
  {
    var rs := Records(entries);
    SharedProvenance(rs, grow, key, id);
    var j :| 0 <= j < |rs| && OfLineage(rs, j, key) && rs[j].value == id;
    RecordIs(entries, j);
  }

  lemma FirstMentionIsConcept(entries: seq<Entry>, key: string, i: nat)
    requires FirstAsConcept(entries, key, i)
    ensures var f := FirstMention(Records(entries), key); f <= i && entries[f].conceptID == key
  {
    RecordIs(entries, i);
    RecordIs(entries, FirstMention(Records(entries), key));
  }

  /** A key first mentioned as a concept has all IDs given for it. */
  lemma ConceptList(entries: seq<Entry>, key: string, i: nat)
    requires FirstAsConcept(entries, key, i)
    ensures key in Fold(Records(entries)) && Fold(Records(entries))[key] == IDsGiven(entries, key)
  {
    FirstMentionIsConcept(entries, key, i);
    assert Declared(Records(entries), key) == TmeValues(Records(entries), key);
    FoldAt(Records(entries), key);
    IDsGivenAre(entries, key);
  }

  /** One first mentioned as an alias has the IDs its concept had, then those given for the alias. */
  lemma AliasList(entries: seq<Entry>, key: string, i: nat)
    requires FirstAsAlias(entries, key, i)
    requires forall j :: 0 <= j < i ==> !NamesKey(entries[j], entries[i].conceptID)
    ensures key in Fold(Records(entries))
    ensures Fold(Records(entries))[key] ==
            IDsGiven(entries[..i], entries[i].conceptID) + IDsGiven(entries[i + 1..], key)
  {
    var rs, c := Records(entries), entries[i].conceptID;
    forall j | 0 <= j <= i ensures rs[j].Mentions(key) <==> EntryMentions(entries[j], key) {
      RecordIs(entries, j);
    }
    RecordIs(entries, i);
    FirstMentionIs(rs, key, i);
    FoldAt(rs, key);
    RecordsPrefix(entries, i);
    assert Records(entries[i + 1..]) == rs[i + 1..];
    IDsGivenAre(entries[i + 1..], key);
    SourceList(entries[..i], c);
  }

  lemma SourceList(entries: seq<Entry>, c: string)
    requires forall j :: 0 <= j < |entries| ==> !NamesKey(entries[j], c)
    ensures Declared(Records(entries), c) == IDsGiven(entries, c)
  {
    var rs := Records(entries);
    IDsGivenAre(entries, c);
    var f := FirstMention(rs, c);
    if f < |rs| {
      RecordIs(entries, f);
    } else {
      NoMentionNoValues(rs, c);
    }
  }
}
