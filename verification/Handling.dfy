/** What a message does, said of its headers and its event. */
module Handling {
  import opened Strings
  import opened Annotations
  import opened Transformer
  import M = Mapper
  import opened ContentTypes
  import opened Message
  import opened IndexedFields

  // ----- its type -----

  predicate IsAudio(typeHeader: string, c: M.Content) {
    Contains(typeHeader, "ft-upp-audio") || c.contentType == "Audio"
  }

  /** What the headers say comes before what the entries say: audio, article, live event. */
  lemma TypesByHeader(m: MetadataMap, typeHeader: string, origin: string, c: M.Content)
    ensures var types, article, live := PossibleTypes(m, typeHeader, origin, c),
                                        Contains(typeHeader, "ft-upp-article"),
                                            Contains(typeHeader, "ft-upp-live-event");
            && (IsAudio(typeHeader, c) ==> types == {"audio"})
            && (!IsAudio(typeHeader, c) && article ==> types == {"article"})
            && (!IsAudio(typeHeader, c) && !article && live ==> types == {"live-event"})
            && (!IsAudio(typeHeader, c) && !article && !live ==> types == PossibleByMetadata(m, c.identifiers, origin))
  {
  }

  /** The entry under `k` names an authority that is part of this one. */
  predicate FindsAuthority(m: MetadataMap, k: string, authority: string) {
    k in m && m[k].authority != "" && Contains(authority, m[k].authority)
  }

  predicate FindsOrigin(m: MetadataMap, k: string, origin: string) {
    k in m && m[k].origin != "" && Contains(origin, m[k].origin)
  }

  predicate SomeFinds(m: MetadataMap, authority: string) { exists k :: k in m && FindsAuthority(m, k, authority) }

  /** The type is that of an entry that finds the first identifier found at all. */
  ghost predicate TypeOfIdentifier(m: MetadataMap, identifiers: seq<M.Identifier>, answer: string) {
    exists i, k :: 0 <= i < |identifiers| && FindsAuthority(m, k, identifiers[i].authority) &&
        m[k].contentType == answer &&
                   forall j :: 0 <= j < i ==> !SomeFinds(m, identifiers[j].authority)
  }

  ghost predicate NoneFound(m: MetadataMap, identifiers: seq<M.Identifier>) {
    forall i :: 0 <= i < |identifiers| ==> !SomeFinds(m, identifiers[i].authority)
  }

  ghost predicate TypeOfOrigin(m: MetadataMap, origin: string, answer: string) {
    exists k :: FindsOrigin(m, k, origin) && m[k].contentType == answer
  }

  lemma FoundIs(m: MetadataMap, authority: string)
    ensures AuthorityTypes(m, authority) == {} <==> !SomeFinds(m, authority)
    ensures forall t :: t in AuthorityTypes(m, authority) <==>
              exists k :: FindsAuthority(m, k, authority) && m[k].contentType == t
  {
    AuthorityTypesAre(m, authority);
    forall k ensures FindsAuthority(m, k, authority) <==> k in m && MatchesAuthority(m[k], authority) {
    }
  }

  lemma OriginFoundIs(m: MetadataMap, origin: string)
    ensures forall t :: t in OriginTypes(m, origin) <==> TypeOfOrigin(m, origin, t)
  {
    OriginTypesAre(m, origin);
    forall k ensures FindsOrigin(m, k, origin) <==> k in m && MatchesOrigin(m[k], origin) {
    }
  }

  /** The first identifier found decides; if none is, the origin; if that is not, there is no type. */
  lemma {:induction false} TypesByEntries(m: MetadataMap, identifiers: seq<M.Identifier>, origin: string,
                                          answer: string)
    ensures answer in PossibleByMetadata(m, identifiers, origin) <==>
            TypeOfIdentifier(m, identifiers, answer) ||
            (NoneFound(m, identifiers) &&
             (TypeOfOrigin(m, origin, answer) || (answer == "" && forall t :: !TypeOfOrigin(m, origin, t))))
    decreases |identifiers|
  {
    if identifiers == [] {
      OriginFoundIs(m, origin);
      if OriginTypes(m, origin) != {} {
        var t :| t in OriginTypes(m, origin);
      }
    } else {
      FoundIs(m, identifiers[0].authority);
      if SomeFinds(m, identifiers[0].authority) {
        FoundFirst(m, identifiers, answer);
      } else {
        TypesByEntries(m, identifiers[1..], origin, answer);
        NotFoundFirst(m, identifiers, answer);
      }
    }
  }

  lemma FoundFirst(m: MetadataMap, identifiers: seq<M.Identifier>, answer: string)
    requires identifiers != [] && SomeFinds(m, identifiers[0].authority)
    ensures !NoneFound(m, identifiers)
    ensures TypeOfIdentifier(m, identifiers, answer) <==>
            exists k :: FindsAuthority(m, k, identifiers[0].authority) && m[k].contentType == answer
  {
  }

  lemma NotFoundFirst(m: MetadataMap, identifiers: seq<M.Identifier>, answer: string)
    requires identifiers != [] && !SomeFinds(m, identifiers[0].authority)
    ensures NoneFound(m, identifiers) <==> NoneFound(m, identifiers[1..])
    ensures TypeOfIdentifier(m, identifiers, answer) <==> TypeOfIdentifier(m, identifiers[1..], answer)
  {
    var rest := identifiers[1..];
    forall i | 0 < i < |identifiers| ensures identifiers[i] == rest[i - 1] {
    }
    if i, k :| 0 <= i < |identifiers| && FindsAuthority(m, k, identifiers[i].authority) && m[k].contentType == answer &&
               forall j :: 0 <= j < i ==> !SomeFinds(m, identifiers[j].authority)
    {
      assert i > 0;
      forall j | 0 <= j < i - 1 ensures !SomeFinds(m, rest[j].authority) {
        assert rest[j] == identifiers[j + 1];
      }
    }
    if i, k :| 0 <= i < |rest| && FindsAuthority(m, k, rest[i].authority) && m[k].contentType == answer &&
               forall j :: 0 <= j < i ==> !SomeFinds(m, rest[j].authority)
    {
      assert identifiers[i + 1] == rest[i];
      forall j | 0 <= j < i + 1 ensures !SomeFinds(m, identifiers[j].authority) {
        assert j > 0 ==> identifiers[j] == rest[j - 1];
      }
    }
    if NoneFound(m, rest) {
      forall i | 0 <= i < |identifiers| ensures !SomeFinds(m, identifiers[i].authority) {
        assert i > 0 ==> identifiers[i] == rest[i - 1];
      }
    }
  }

  // ----- its effect -----

  /** The message's own transaction ID, or the generated one when it has none. */
  function TidOf(msg: FTMessage, newTid: string): string {
    if "X-Request-Id" in msg.headers && msg.headers["X-Request-Id"] != "" then msg.headers["X-Request-Id"] else newTid
  }

  /** It is no synthetic request, its body can be read, the policy does not skip it, and its type is allowed. */
  predicate GoesOn(s: Settings, msg: FTMessage, newTid: string) {
    && !Contains(TidOf(msg, newTid), "SYNTHETIC-REQ-MON")
    && msg.body.Some?
    && s.policy(msg.body.value.content.publication) == Some(false)
    && msg.body.value.content.contentType in {"Article", "Video", "MediaResource", "Audio", "ContentPackage", ""}
  }

  predicate FromPAC(msg: FTMessage) {
    "Origin-System-Id" in msg.headers && msg.headers["Origin-System-Id"] == "http://cmdb.ft.com/systems/pac"
  }

  lemma GoesOnIs(s: Settings, msg: FTMessage, newTid: string)
    ensures Accepted(s, msg, newTid) <==> GoesOn(s, msg, newTid)
  {
    assert ALLOWED_TYPES == ["Article", "Video", "MediaResource", "Audio", "ContentPackage", ""];
    forall t ensures t in ALLOWED_TYPES <==> t in {"Article", "Video", "MediaResource", "Audio", "ContentPackage", ""} {
    }
  }

  /** A message that goes on deletes when its event says so and it has a type or comes from PAC; otherwise it
      writes when it has a type and its content a uuid; otherwise, and if it does not go on, it does nothing. */
  lemma EffectIs(s: Settings, url: string, msg: FTMessage, newTid: string, contentType: string)
    requires Sorts(s.lib.sorter)
    ensures var a := ActionOf(s, url, msg, newTid, contentType);
            && (!GoesOn(s, msg, newTid) ==> a == Ignore)
            && (GoesOn(s, msg, newTid) ==>
                  var e := msg.body.value;
                  && (a.Delete? <==> e.deleted && (contentType != "" || FromPAC(msg)))
                  && (a.Write? <==> !e.deleted && contentType != "" && e.content.uuid != "")
                  && (a.Delete? || a.Write? ==> a.uuid == e.uuid))
  {
    GoesOnIs(s, msg, newTid);
  }

  /** The text that is indexed: the body, or else the body in XML. */
  function IndexedText(c: M.Content): string { if c.body != "" then c.body else c.bodyXML }

  /** What is written: the cleaned body, or the cleaned body in XML when that is all there is, or the
      description; and all else as the event has it. */
  lemma WrittenIs(s: Settings, url: string, msg: FTMessage, newTid: string, contentType: string)
    requires Sorts(s.lib.sorter) && ActionOf(s, url, msg, newTid, contentType).Write?
    ensures msg.body.Some?
    ensures var doc, e := ActionOf(s, url, msg, newTid, contentType).document, msg.body.value;
            && doc.header.body == (if IndexedText(e.content) != "" then BodyText(s.lib.decode, IndexedText(e.content))
                                   else e.content.description)
            && doc.header.leadHeadline == LineText(s.lib.decode, e.content.title)
            && doc.header.byline == LineText(s.lib.decode, e.content.byline)
            && doc.header.uid == e.content.uuid && doc.header.contentType == contentType
            && doc.tags == M.DocumentOf(s.config, s.lib, url, e, contentType).tags
  {
    var e := Promoted(msg.body.value);
    HeaderIs(s.config, s.lib, url, e, contentType);
    assert ActionOf(s, url, msg, newTid, contentType).document == M.DocumentOf(s.config, s.lib, url, e, contentType);
  }

  /** After the message was handled and its request took effect the document stands under the event's uuid
      with that body. */
  lemma IndexedBody(s: Settings, url: string, msg: FTMessage, newTid: string, contentType: string, index: Index)
    requires Sorts(s.lib.sorter) && GoesOn(s, msg, newTid)
    requires !msg.body.value.deleted && contentType != "" && msg.body.value.content.uuid != ""
    ensures msg.body.value.uuid in Apply(index, ActionOf(s, url, msg, newTid, contentType))
    ensures var e := msg.body.value;
            var body := Apply(index, ActionOf(s, url, msg, newTid, contentType))[e.uuid].header.body;
            && (e.content.body != "" ==> body == BodyText(s.lib.decode, e.content.body))
            && (e.content.body == "" && e.content.bodyXML != "" ==> body == BodyText(s.lib.decode, e.content.bodyXML))
            && (e.content.body == "" && e.content.bodyXML == "" ==> body == e.content.description)
  {
    EffectIs(s, url, msg, newTid, contentType);
    WrittenIs(s, url, msg, newTid, contentType);
  }
}
