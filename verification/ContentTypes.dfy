/** pkg/message/message_handler.go:183-221: the type of a message, found by loops over a Go map whose
    order changes from one range statement to the next. */
module ContentTypes {
  import opened Strings
  import opened Mapper

  const AUDIO_HEADER := "ft-upp-audio"
  const ARTICLE_HEADER := "ft-upp-article"
  const LIVE_EVENT_HEADER := "ft-upp-live-event"
  const ARTICLE_TYPE := "article"
  const AUDIO_TYPE := "audio"
  const LIVE_EVENT_TYPE := "live-event"
  const CONTENT_TYPE_AUDIO := "Audio"

  /** config.ContentMetadata */
  datatype ContentMetadata = ContentMetadata(origin: string, authority: string, contentType: string)

  type MetadataMap = map<string, ContentMetadata>

  predicate MatchesAuthority(t: ContentMetadata, authority: string) {
    t.authority != "" && Contains(authority, t.authority)
  }

  predicate MatchesOrigin(t: ContentMetadata, origin: string) { t.origin != "" && Contains(origin, t.origin) }

  function AuthorityTypes(m: MetadataMap, authority: string): set<string> {
    set k | k in m && MatchesAuthority(m[k], authority) :: m[k].contentType
  }

  function OriginTypes(m: MetadataMap, origin: string): set<string> {
    set k | k in m && MatchesOrigin(m[k], origin) :: m[k].contentType
  }

  lemma AuthorityTypesAre(m: MetadataMap, authority: string)
    ensures forall k :: k in m && MatchesAuthority(m[k], authority) ==> m[k].contentType in AuthorityTypes(m, authority)
    ensures forall t :: t in AuthorityTypes(m, authority) ==>
              exists k :: k in m && MatchesAuthority(m[k], authority) && m[k].contentType == t
    ensures AuthorityTypes(m, authority) != {} <==> exists k :: k in m && MatchesAuthority(m[k], authority)
  {
    if t :| t in AuthorityTypes(m, authority) {
    }
  }

  lemma OriginTypesAre(m: MetadataMap, origin: string)
    ensures forall k :: k in m && MatchesOrigin(m[k], origin) ==> m[k].contentType in OriginTypes(m, origin)
    ensures forall t :: t in OriginTypes(m, origin) ==>
              exists k :: k in m && MatchesOrigin(m[k], origin) && m[k].contentType == t
  {
  }

  /** The answers the loops can give: the first identifier with a match decides, then the origin. */
  function PossibleByMetadata(m: MetadataMap, identifiers: seq<Identifier>, origin: string): (r: set<string>)
    ensures r != {}
  {
    if identifiers == [] then
      if OriginTypes(m, origin) == {} then {""} else OriginTypes(m, origin)
    else if AuthorityTypes(m, identifiers[0].authority) != {} then AuthorityTypes(m, identifiers[0].authority)
    else PossibleByMetadata(m, identifiers[1..], origin)
  }

  /** The answer the headers give on their own. */
  function ByHeader(typeHeader: string, contentType: string): Option<string> {
    if Contains(typeHeader, AUDIO_HEADER) || contentType == CONTENT_TYPE_AUDIO then Some(AUDIO_TYPE)
    else if Contains(typeHeader, ARTICLE_HEADER) then Some(ARTICLE_TYPE)
    else if Contains(typeHeader, LIVE_EVENT_HEADER) then Some(LIVE_EVENT_TYPE)
    else None
  }

  function PossibleTypes(m: MetadataMap, typeHeader: string, origin: string, c: Content): (r: set<string>)
    ensures r != {}
  {
    match ByHeader(typeHeader, c.contentType)
    case Some(t) => {t}
    case None => PossibleByMetadata(m, c.identifiers, origin)
  }

  // ----- the loops -----

  /** `for _, t := range contentMetadata` with the authority test: entries come in any order. */
  method RangeAuthority(m: MetadataMap, authority: string) returns (found: bool, contentType: string)
    ensures found <==> AuthorityTypes(m, authority) != {}
    ensures found ==> contentType in AuthorityTypes(m, authority)
  {
    var remaining := m.Keys;
    while remaining != {}
      invariant remaining <= m.Keys
      invariant forall k :: k in m && k !in remaining ==> !MatchesAuthority(m[k], authority)
      decreases remaining
    {
      var k :| k in remaining;
      if MatchesAuthority(m[k], authority) {
        assert m[k].contentType in AuthorityTypes(m, authority);
        return true, m[k].contentType;
      }
      remaining := remaining - {k};
    }
    return false, "";
  }

  /** The same with the origin test. */
  method RangeOrigin(m: MetadataMap, origin: string) returns (found: bool, contentType: string)
    ensures found <==> OriginTypes(m, origin) != {}
    ensures found ==> contentType in OriginTypes(m, origin)
  {
    var remaining := m.Keys;
    while remaining != {}
      invariant remaining <= m.Keys
      invariant forall k :: k in m && k !in remaining ==> !MatchesOrigin(m[k], origin)
      decreases remaining
    {
      var k :| k in remaining;
      if MatchesOrigin(m[k], origin) {
        assert m[k].contentType in OriginTypes(m, origin);
        return true, m[k].contentType;
      }
      remaining := remaining - {k};
    }
    return false, "";
  }

  /** readContentType */
  method ReadContentType(m: MetadataMap, typeHeader: string, origin: string, c: Content) returns (contentType: string)
    ensures contentType in PossibleTypes(m, typeHeader, origin, c)
  {
    if Contains(typeHeader, AUDIO_HEADER) || c.contentType == CONTENT_TYPE_AUDIO {
      return AUDIO_TYPE;
    }
    if Contains(typeHeader, ARTICLE_HEADER) {
      return ARTICLE_TYPE;
    }
    if Contains(typeHeader, LIVE_EVENT_HEADER) {
      return LIVE_EVENT_TYPE;
    }
    for i := 0 to |c.identifiers|
      invariant PossibleByMetadata(m, c.identifiers, origin) == PossibleByMetadata(m, c.identifiers[i..], origin)
    {
      var found, t := RangeAuthority(m, c.identifiers[i].authority);
      if found {
        return t;
      }
    }
    var found, t := RangeOrigin(m, origin);
    if found {
      return t;
    }
    return "";
  }

  const ALLOWED_TYPES := ["Article", "Video", "MediaResource", "Audio", "ContentPackage", ""]

  /** isAllowedType */
  method IsAllowedType(s: string) returns (allowed: bool)
    ensures allowed <==> s in ALLOWED_TYPES
  {
    for i := 0 to |ALLOWED_TYPES|
      invariant s !in ALLOWED_TYPES[..i]
    {
      if ALLOWED_TYPES[i] == s {
        return true;
      }
      assert ALLOWED_TYPES[..i + 1] == ALLOWED_TYPES[..i] + [ALLOWED_TYPES[i]];
    }
    assert ALLOWED_TYPES[..|ALLOWED_TYPES|] == ALLOWED_TYPES;
    return false;
  }

  // ----- every possible answer is given by some order, and no other -----

  /** An order in which a range statement can visit the map. */
  ghost predicate IsOrder(m: MetadataMap, order: seq<string>) {
    (forall k :: k in order <==> k in m) && forall i, j :: 0 <= i < j < |order| ==> order[i] != order[j]
  }

  /** The first entry the test accepts, in the given order. */
  function FirstAccepted(m: MetadataMap, order: seq<string>, test: ContentMetadata -> bool): Option<string> {
    if order == [] then None
    else if order[0] in m && test(m[order[0]]) then Some(m[order[0]].contentType)
    else FirstAccepted(m, order[1..], test)
  }

  /** readContentType when the range statement for identifier i visits the map in orders[i], and the
      one over the origins in the last order. */
  function ReadInOrders(m: MetadataMap, identifiers: seq<Identifier>, origin: string, orders: seq<seq<string>>): string
    requires |orders| == |identifiers| + 1
  {
    if identifiers == [] then
      match FirstAccepted(m, orders[0], t => MatchesOrigin(t, origin))
      case Some(t) => t
      case None => ""
    else
      match FirstAccepted(m, orders[0], t => MatchesAuthority(t, identifiers[0].authority))
      case Some(t) => t
      case None => ReadInOrders(m, identifiers[1..], origin, orders[1..])
  }

  ghost predicate AreOrders(m: MetadataMap, orders: seq<seq<string>>) {
    forall i :: 0 <= i < |orders| ==> IsOrder(m, orders[i])
  }

  lemma {:induction false} FirstAcceptedIs(m: MetadataMap, order: seq<string>, test: ContentMetadata -> bool)
    requires forall k :: k in order ==> k in m
    ensures match FirstAccepted(m, order, test)
            case Some(t) => exists k :: k in order && test(m[k]) && m[k].contentType == t
            case None => forall k :: k in order ==> !test(m[k])
  {
    if order != [] {
      assert order == [order[0]] + order[1..];
      assert forall k :: k in order[1..] ==> k in order;
      FirstAcceptedIs(m, order[1..], test);
    }
  }

  lemma {:induction false} SomeOrder(keys: set<string>) returns (order: seq<string>)
    ensures (forall k :: k in order <==> k in keys) && forall i, j :: 0 <= i < j < |order| ==> order[i] != order[j]
    decreases keys
  {
    if keys == {} {
      order := [];
    } else {
      var k :| k in keys;
      var rest := SomeOrder(keys - {k});
      order := [k] + rest;
    }
  }

  /** Any entry can come first. */
  lemma OrderStartingWith(m: MetadataMap, k: string) returns (order: seq<string>)
    requires k in m
    ensures IsOrder(m, order) && order != [] && order[0] == k
  {
    var rest := SomeOrder(m.Keys - {k});
    order := [k] + rest;
  }

  lemma {:induction false} OrdersStayPossible(m: MetadataMap, identifiers: seq<Identifier>, origin: string,
                                              orders: seq<seq<string>>)
    requires |orders| == |identifiers| + 1 && AreOrders(m, orders)
    ensures ReadInOrders(m, identifiers, origin, orders) in PossibleByMetadata(m, identifiers, origin)
    decreases |identifiers|
  {
    assert IsOrder(m, orders[0]);
    if identifiers == [] {
      OriginTypesAre(m, origin);
      FirstAcceptedIs(m, orders[0], t => MatchesOrigin(t, origin));
    } else {
      var a := identifiers[0].authority;
      AuthorityTypesAre(m, a);
      FirstAcceptedIs(m, orders[0], t => MatchesAuthority(t, identifiers[0].authority));
      var first := FirstAccepted(m, orders[0], t => MatchesAuthority(t, identifiers[0].authority));
      assert first.Some? ==> first.value in AuthorityTypes(m, a);
      OrdersStayPossible(m, identifiers[1..], origin, orders[1..]);
    }
  }

  lemma {:induction false} PossibleHasOrders(m: MetadataMap, identifiers: seq<Identifier>, origin: string,
                                             answer: string)
    returns (orders: seq<seq<string>>)
    requires answer in PossibleByMetadata(m, identifiers, origin)
    ensures |orders| == |identifiers| + 1 && AreOrders(m, orders) &&
            ReadInOrders(m, identifiers, origin, orders) == answer
    decreases |identifiers|
  {
    if identifiers == [] {
      var order := SomeOrder(m.Keys);
      if OriginTypes(m, origin) != {} {
        var k :| k in m && MatchesOrigin(m[k], origin) && m[k].contentType == answer;
        order := OrderStartingWith(m, k);
      } else {
        OriginTypesAre(m, origin);
        FirstAcceptedIs(m, order, t => MatchesOrigin(t, origin));
      }
      orders := [order];
    } else if AuthorityTypes(m, identifiers[0].authority) != {} {
      var k :| k in m && MatchesAuthority(m[k], identifiers[0].authority) && m[k].contentType == answer;
      var order := OrderStartingWith(m, k);
      orders := seq(|identifiers| + 1, _ => order);
    } else {
      var order := SomeOrder(m.Keys);
      AuthorityTypesAre(m, identifiers[0].authority);
      FirstAcceptedIs(m, order, t => MatchesAuthority(t, identifiers[0].authority));
      var rest := PossibleHasOrders(m, identifiers[1..], origin, answer);
      orders := [order] + rest;
      assert orders[1..] == rest;
    }
  }

  /** The answers over all orders are exactly the possible ones. */
  lemma PossibleIsExact(m: MetadataMap, identifiers: seq<Identifier>, origin: string, answer: string)
    ensures answer in PossibleByMetadata(m, identifiers, origin) <==>
            exists orders: seq<seq<string>> ::
              |orders| == |identifiers| + 1 && AreOrders(m, orders) &&
              ReadInOrders(m, identifiers, origin, orders) == answer
  {
    if answer in PossibleByMetadata(m, identifiers, origin) {
      var orders := PossibleHasOrders(m, identifiers, origin, answer);
    }
    forall orders: seq<seq<string>> | |orders| == |identifiers| + 1 && AreOrders(m, orders)
      ensures ReadInOrders(m, identifiers, origin, orders) in PossibleByMetadata(m, identifiers, origin)
    {
      OrdersStayPossible(m, identifiers, origin, orders);
    }
  }

  predicate AuthoritiesAgree(m: MetadataMap, authority: string) {
    forall j, k :: j in m && k in m && MatchesAuthority(m[j], authority) && MatchesAuthority(m[k], authority) ==>
      m[j].contentType == m[k].contentType
  }

  predicate OriginsAgree(m: MetadataMap, origin: string) {
    forall j, k :: j in m && k in m && MatchesOrigin(m[j], origin) && MatchesOrigin(m[k], origin) ==>
      m[j].contentType == m[k].contentType
  }

  /** All entries that match the first matched identifier, or else the origin, have one type. */
  predicate EntriesAgree(m: MetadataMap, identifiers: seq<Identifier>, origin: string) {
    if identifiers == [] then OriginsAgree(m, origin)
    else if exists k :: k in m && MatchesAuthority(m[k], identifiers[0].authority)
    then AuthoritiesAgree(m, identifiers[0].authority)
    else EntriesAgree(m, identifiers[1..], origin)
  }

  ghost predicate OneAnswer(answers: set<string>) { forall s, t :: s in answers && t in answers ==> s == t }

  lemma AuthoritiesAgreeIff(m: MetadataMap, authority: string)
    ensures AuthoritiesAgree(m, authority) <==> OneAnswer(AuthorityTypes(m, authority))
  {
    AuthorityTypesAre(m, authority);
  }

  lemma OriginsAgreeIff(m: MetadataMap, origin: string)
    ensures OriginsAgree(m, origin) <==> OneAnswer(OriginTypes(m, origin))
  {
    OriginTypesAre(m, origin);
  }

  lemma {:induction false} AgreeIsOneAnswer(m: MetadataMap, identifiers: seq<Identifier>, origin: string)
    ensures EntriesAgree(m, identifiers, origin) <==> OneAnswer(PossibleByMetadata(m, identifiers, origin))
    decreases |identifiers|
  {
    if identifiers == [] {
      OriginsAgreeIff(m, origin);
    } else {
      var a := identifiers[0].authority;
      AuthoritiesAgreeIff(m, a);
      AuthorityTypesAre(m, a);
      AgreeIsOneAnswer(m, identifiers[1..], origin);
    }
  }

  /** The order of the map never shows exactly when the entries that decide agree. */
  lemma OrderIndependentIff(m: MetadataMap, identifiers: seq<Identifier>, origin: string)
    ensures EntriesAgree(m, identifiers, origin) <==>
            forall o, p :: |o| == |p| == |identifiers| + 1 && AreOrders(m, o) && AreOrders(m, p) ==>
              ReadInOrders(m, identifiers, origin, o) == ReadInOrders(m, identifiers, origin, p)
  {
    AgreeIsOneAnswer(m, identifiers, origin);
    var possible := PossibleByMetadata(m, identifiers, origin);
    if EntriesAgree(m, identifiers, origin) {
      forall o, p | |o| == |p| == |identifiers| + 1 && AreOrders(m, o) && AreOrders(m, p)
        ensures ReadInOrders(m, identifiers, origin, o) == ReadInOrders(m, identifiers, origin, p)
      {
        OrdersStayPossible(m, identifiers, origin, o);
        OrdersStayPossible(m, identifiers, origin, p);
      }
    } else {
      var s, t :| s in possible && t in possible && s != t;
      var o := PossibleHasOrders(m, identifiers, origin, s);
      var p := PossibleHasOrders(m, identifiers, origin, t);
      assert ReadInOrders(m, identifiers, origin, o) != ReadInOrders(m, identifiers, origin, p);
    }
  }

  // ----- a message with two types -----

  /** configs/app.yml:22-42 */
  const SHIPPED: MetadataMap := map[
    "methode" := ContentMetadata("methode-web-pub", "http://api.ft.com/system/FTCOM-METHODE", "article"),
    "wordpress" := ContentMetadata("wordpress", "http://api.ft.com/system/FT-LABS-WP", "blog"),
    "video" := ContentMetadata("next-video-editor", "http://api.ft.com/system/NEXT-VIDEO-EDITOR", "video"),
    "cct" := ContentMetadata("http://cmdb.ft.com/systems/cct", "http://api.ft.com/system/cct", "article"),
    "spark" := ContentMetadata("http://cmdb.ft.com/systems/spark", "http://api.ft.com/system/spark", "article")]

  /** An origin in which both the blog and the video entry find theirs. */
  const SHARED_ORIGIN := "wordpress,next-video-editor"

  lemma SharedOrigin()
    ensures MatchesOrigin(SHIPPED["wordpress"], SHARED_ORIGIN) && MatchesOrigin(SHIPPED["video"], SHARED_ORIGIN)
  {
    assert SHARED_ORIGIN[0..][..|"wordpress"|] == "wordpress";
    assert SHARED_ORIGIN[10..][..|"next-video-editor"|] == "next-video-editor";
  }

  function BlogFirst(): seq<string> { ["wordpress", "video", "methode", "cct", "spark"] }

  function VideoFirst(): seq<string> { ["video", "wordpress", "methode", "cct", "spark"] }

  lemma ShippedOrders()
    ensures IsOrder(SHIPPED, BlogFirst()) && IsOrder(SHIPPED, VideoFirst())
  {
  }

  lemma FirstEntryDecides(m: MetadataMap, origin: string, order: seq<string>)
    requires order != [] && order[0] in m && MatchesOrigin(m[order[0]], origin)
    ensures ReadInOrders(m, [], origin, [order]) == m[order[0]].contentType
  {
  }

  lemma OneOrder(m: MetadataMap, order: seq<string>)
    requires IsOrder(m, order)
    ensures AreOrders(m, [order])
  {
  }

  /** With the shipped configuration two orders of the map give a message of that origin two types. */
  lemma ReadsCanDiffer()
    ensures AreOrders(SHIPPED, [BlogFirst()]) && AreOrders(SHIPPED, [VideoFirst()])
    ensures ReadInOrders(SHIPPED, [], SHARED_ORIGIN, [BlogFirst()]) == "blog"
    ensures ReadInOrders(SHIPPED, [], SHARED_ORIGIN, [VideoFirst()]) == "video"
  {
    ShippedOrders();
    OneOrder(SHIPPED, BlogFirst());
    OneOrder(SHIPPED, VideoFirst());
    SharedOrigin();
    FirstEntryDecides(SHIPPED, SHARED_ORIGIN, BlogFirst());
    FirstEntryDecides(SHIPPED, SHARED_ORIGIN, VideoFirst());
  }
}
