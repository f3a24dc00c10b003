/** pkg/message/message_handler.go:96-181 with pkg/es/service.go:115-138: what one message does to the
    index. */
module Message {
  import opened Strings
  import opened Annotations
  import M = Mapper
  import opened ContentTypes

  const SYNTHETIC_REQUEST_PREFIX := "SYNTHETIC-REQ-MON"
  const TRANSACTION_ID_HEADER := "X-Request-Id"
  const ORIGIN_HEADER := "Origin-System-Id"
  const CONTENT_TYPE_HEADER := "Content-Type"
  const PAC_ORIGIN := "http://cmdb.ft.com/systems/pac"

  /** kafka.FTMessage; the body is what JSON decoding makes of it, if anything. */
  datatype FTMessage = FTMessage(headers: map<string, string>, body: Option<M.EnrichedContent>)
  {
    /** A missing header reads as the empty string. */
    function Header(key: string): string { if key in headers then headers[key] else "" }
  }

  /** EvaluateContentPolicy: whether to skip a publication, or an error. */
  type Policy = seq<string> -> Option<bool>

  datatype Settings = Settings(config: Config, contentMetadata: MetadataMap, lib: M.Libraries, policy: Policy)

  type Index = map<string, M.Document>

  datatype Action = Ignore | Delete(uuid: string) | Write(uuid: string, document: M.Document)

  /** A successful call to the index. */
  function Apply(index: Index, a: Action): Index {
    match a
    case Ignore => index
    case Delete(uuid) => index - {uuid}
    case Write(uuid, document) => index[uuid := document]
  }

  /** message_handler.go:118-121 */
  function Promoted(e: M.EnrichedContent): M.EnrichedContent {
    if e.content.bodyXML != "" && e.content.body == ""
    then e.(content := e.content.(body := e.content.bodyXML, bodyXML := ""))
    else e
  }

  function Tid(msg: FTMessage, newTid: string): string {
    if msg.Header(TRANSACTION_ID_HEADER) == "" then newTid else msg.Header(TRANSACTION_ID_HEADER)
  }

  /** The event passes every check before the content type is read. */
  predicate Accepted(s: Settings, msg: FTMessage, newTid: string) {
    && !Contains(Tid(msg, newTid), SYNTHETIC_REQUEST_PREFIX)
    && msg.body.Some?
    && s.policy(msg.body.value.content.publication) == Some(false)
    && msg.body.value.content.contentType in ALLOWED_TYPES
  }

  /** The content types the message can be given. */
  function TypesOf(s: Settings, msg: FTMessage): set<string>
    requires msg.body.Some?
  {
    PossibleTypes(s.contentMetadata, msg.Header(CONTENT_TYPE_HEADER), msg.Header(ORIGIN_HEADER), msg.body.value.content)
  }

  /** What an accepted event of the type `contentType` does. */
  function EventAction(s: Settings, baseAPIURL: string, e: M.EnrichedContent, origin: string,
                       contentType: string): Action
    requires Sorts(s.lib.sorter)
  {
    if e.deleted then
      if contentType != "" || origin == PAC_ORIGIN then Delete(e.uuid) else Ignore
    else if contentType != "" && e.content.uuid != "" then
      Write(e.uuid, M.DocumentOf(s.config, s.lib, baseAPIURL, e, contentType))
    else Ignore
  }

  /** The whole effect of a message that was given the type `contentType`. */
  function ActionOf(s: Settings, baseAPIURL: string, msg: FTMessage, newTid: string, contentType: string): Action
    requires Sorts(s.lib.sorter)
  {
    if Accepted(s, msg, newTid)
    then EventAction(s, baseAPIURL, Promoted(msg.body.value), msg.Header(ORIGIN_HEADER), contentType)
    else Ignore
  }

  /** How an index request ends. One that fails, in time or by its deadline, may have been carried out. */
  datatype Outcome = Succeeded | Failed(carriedOut: bool)
  {
    predicate TookEffect() { Succeeded? || carriedOut }
  }

  /** es.ElasticsearchService; `calls` lists the calls made to the client and how they ended. */
  class ElasticsearchService {
    var connected: bool  // ElasticClient is not nil
    var index: Index
    var calls: seq<(Action, Outcome)>

    constructor ()
      ensures !connected && index == map[] && calls == []
    {
      connected, index, calls := false, map[], [];
    }

    method SetClient()
      modifies `connected
      ensures connected
    {
      connected := true;
    }

    /** A nil client would be dereferenced. `outcome` is how the request ends. */
    method WriteData(uuid: string, payload: M.Document, outcome: Outcome) returns (err: bool)
      requires connected
      modifies `index, `calls
      ensures err == outcome.Failed? && calls == old(calls) + [(Write(uuid, payload), outcome)]
      ensures index == if outcome.TookEffect() then Apply(old(index), Write(uuid, payload)) else old(index)
    {
      calls := calls + [(Write(uuid, payload), outcome)];
      if outcome.TookEffect() {
        index := index[uuid := payload];
      }
      err := outcome.Failed?;
    }

    method DeleteData(uuid: string, outcome: Outcome) returns (err: bool)
      requires connected
      modifies `index, `calls
      ensures err == outcome.Failed? && calls == old(calls) + [(Delete(uuid), outcome)]
      ensures index == if outcome.TookEffect() then Apply(old(index), Delete(uuid)) else old(index)
    {
      calls := calls + [(Delete(uuid), outcome)];
      if outcome.TookEffect() {
        index := index - {uuid};
      }
      err := outcome.Failed?;
    }
  }

  /** message.Handler */
  class Handler {
    const esService: ElasticsearchService
    const mapper: M.Handler
    const contentMetadata: MetadataMap
    const policy: Policy

    constructor (esService: ElasticsearchService, mapper: M.Handler, contentMetadata: MetadataMap, policy: Policy)
      ensures this.esService == esService && this.mapper == mapper
      ensures this.contentMetadata == contentMetadata && this.policy == policy
    {
      this.esService, this.mapper, this.contentMetadata, this.policy := esService, mapper, contentMetadata, policy;
    }

    ghost function SettingsOf(): Settings { Settings(mapper.config, contentMetadata, mapper.lib, policy) }

    /** The action was taken: one call that ends as `outcome` says, or none when there is nothing to do. */
    ghost predicate Done(a: Action, outcome: Outcome, index: Index, calls: seq<(Action, Outcome)>, baseAPIURL: string)
      reads esService, mapper
    {
      && esService.calls == (if a.Ignore? then calls else calls + [(a, outcome)])
      && esService.index == (if outcome.TookEffect() then Apply(index, a) else index)
      && mapper.baseAPIURL == (if a.Write? then M.Secured(baseAPIURL) else baseAPIURL)
    }

    /** handleMessage. The generated transaction ID and the outcome of the index request are inputs;
        `contentType` is the type the message was given. At most one call reaches the index. */
    method HandleMessage(msg: FTMessage, newTid: string, outcome: Outcome) returns (ghost contentType: string)
      requires esService.connected && Sorts(mapper.lib.sorter)
      modifies esService`index, esService`calls, mapper`baseAPIURL
      ensures msg.body.Some? ==> contentType in TypesOf(SettingsOf(), msg)
      ensures Done(ActionOf(SettingsOf(), old(mapper.baseAPIURL), msg, newTid, contentType), outcome,
                   old(esService.index), old(esService.calls), old(mapper.baseAPIURL))
    {
      contentType := "";
      if msg.body.Some? {
        contentType :| contentType in TypesOf(SettingsOf(), msg);
      }
      ghost var accepted := Accepted(SettingsOf(), msg, newTid);
      var tid := msg.Header(TRANSACTION_ID_HEADER);
      if tid == "" {
        tid := newTid;
      }
      if Contains(tid, SYNTHETIC_REQUEST_PREFIX) {
        assert !accepted;
        return;
      }
      if msg.body == None {
        assert !accepted;
        return;
      }
      var event := msg.body.value;
      if event.content.bodyXML != "" && event.content.body == "" {
        event := event.(content := event.content.(body := event.content.bodyXML, bodyXML := ""));
      }
      assert event == Promoted(msg.body.value);
      var res := policy(event.content.publication);
      if res == None {
        assert !accepted;
        return;
      }
      if res.value {
        assert !accepted;
        return;
      }
      var allowed := IsAllowedType(event.content.contentType);
      if !allowed {
        assert !accepted;
        return;
      }
      assert accepted;
      var read := ReadContentType(contentMetadata, msg.Header(CONTENT_TYPE_HEADER), msg.Header(ORIGIN_HEADER),
                                  event.content);
      contentType := read;
      TypesIgnorePromotion(SettingsOf(), msg);
      HandleEvent(event, msg.Header(ORIGIN_HEADER), read, outcome);
    }

    /** message_handler.go:150-180, the part after the content type is read. */
    method HandleEvent(event: M.EnrichedContent, origin: string, contentType: string, outcome: Outcome)
      requires esService.connected && Sorts(mapper.lib.sorter)
      modifies esService`index, esService`calls, mapper`baseAPIURL
      ensures Done(EventAction(SettingsOf(), old(mapper.baseAPIURL), event, origin, contentType), outcome,
                   old(esService.index), old(esService.calls), old(mapper.baseAPIURL))
    {
      if contentType == "" && origin != PAC_ORIGIN {
        return;
      }
      if event.deleted {
        var _ := esService.DeleteData(event.uuid, outcome);
        return;
      }
      if event.content.uuid == "" || contentType == "" {
        return;
      }
      var payload := mapper.ToIndexModel(event, contentType);
      var _ := esService.WriteData(event.uuid, payload.Snapshot(), outcome);
    }
  }

  lemma TypesIgnorePromotion(s: Settings, msg: FTMessage)
    requires msg.body.Some?
    ensures TypesOf(s, msg) ==
            PossibleTypes(s.contentMetadata, msg.Header(CONTENT_TYPE_HEADER), msg.Header(ORIGIN_HEADER),
                          Promoted(msg.body.value).content)
  {
  }
}
