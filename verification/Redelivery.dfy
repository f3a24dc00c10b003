/** Whole runs of the message handler, with every index request succeeding. */
module Redelivery {
  import opened Strings
  import opened Annotations
  import M = Mapper
  import opened ContentTypes
  import opened Message

  /** A message as it was handled once: the generated transaction ID and the content type it was given. */
  datatype Delivery = Delivery(msg: FTMessage, newTid: string, contentType: string)

  /** What survives between messages: the mapper's URL and the index. */
  datatype State = State(baseAPIURL: string, index: Index)

  predicate Legal(s: Settings, d: Delivery) {
    && !Contains(d.newTid, SYNTHETIC_REQUEST_PREFIX)
    && (d.msg.body.Some? ==> d.contentType in TypesOf(s, d.msg))
  }

  /** The configuration gives the message one type: the headers do, or the entries that decide agree. */
  predicate OneType(s: Settings, msg: FTMessage)
    requires msg.body.Some?
  {
    var c := msg.body.value.content;
    ByHeader(msg.Header(CONTENT_TYPE_HEADER), c.contentType).Some? ||
    EntriesAgree(s.contentMetadata, c.identifiers, msg.Header(ORIGIN_HEADER))
  }

  /** The message passes every check before the content type is read, whatever transaction ID is generated. */
  predicate Passes(s: Settings, msg: FTMessage) { Accepted(s, msg, "") }

  /** What the message does hangs on no order of the configuration's entries. One that is stopped before
      its type is read does nothing. A delete only asks whether it has a type, and not even that when it
      comes from PAC. Content without a uuid is ignored, any other is written under its type. */
  predicate Determined(s: Settings, msg: FTMessage) {
    Passes(s, msg) ==>
      var e := msg.body.value;
      if e.deleted then
        msg.Header(ORIGIN_HEADER) == PAC_ORIGIN || "" !in TypesOf(s, msg) || TypesOf(s, msg) == {""}
      else e.content.uuid == "" || OneType(s, msg)
  }

  function StepOn(s: Settings, st: State, d: Delivery): State
    requires Sorts(s.lib.sorter)
  {
    var a := ActionOf(s, st.baseAPIURL, d.msg, d.newTid, d.contentType);
    State(if a.Write? then M.Secured(st.baseAPIURL) else st.baseAPIURL, Apply(st.index, a))
  }

  function Run(s: Settings, st: State, ds: seq<Delivery>): State
    requires Sorts(s.lib.sorter)
    decreases |ds|
  {
    if ds == [] then st else Run(s, StepOn(s, st, ds[0]), ds[1..])
  }

  // ----- runs of actions -----

  function ApplyAll(index: Index, actions: seq<Action>): Index
    decreases |actions|
  {
    if actions == [] then index else ApplyAll(Apply(index, actions[0]), actions[1..])
  }

  /** What the last action about `uuid` leaves: a document, or nothing. */
  function LastEffect(actions: seq<Action>, uuid: string): Option<Option<M.Document>> {
    if actions == [] then None
    else
      match actions[|actions| - 1]
      case Write(u, document) => if u == uuid then Some(Some(document)) else LastEffect(actions[..|actions| - 1], uuid)
      case Delete(u) => if u == uuid then Some(None) else LastEffect(actions[..|actions| - 1], uuid)
      case Ignore => LastEffect(actions[..|actions| - 1], uuid)
  }

  function At(index: Index, uuid: string): Option<M.Document> { if uuid in index then Some(index[uuid]) else None }

  lemma {:induction false} ApplyAllSnoc(index: Index, actions: seq<Action>, a: Action)
    ensures ApplyAll(index, actions + [a]) == Apply(ApplyAll(index, actions), a)
    decreases |actions|
  {
    if actions != [] {
      assert (actions + [a])[0] == actions[0] && (actions + [a])[1..] == actions[1..] + [a];
      ApplyAllSnoc(Apply(index, actions[0]), actions[1..], a);
    }
  }

  lemma {:induction false} ApplyAllConcat(index: Index, a: seq<Action>, b: seq<Action>)
    ensures ApplyAll(index, a + b) == ApplyAll(ApplyAll(index, a), b)
    decreases |a|
  {
    if a == [] {
      assert a + b == b;
    } else {
      assert (a + b)[0] == a[0] && (a + b)[1..] == a[1..] + b;
      ApplyAllConcat(Apply(index, a[0]), a[1..], b);
    }
  }

  /** After a run each uuid holds what the last action about it left; without one it is as before. */
  lemma {:induction false} LastActionDecides(index: Index, actions: seq<Action>, uuid: string)
    ensures At(ApplyAll(index, actions), uuid) ==
            match LastEffect(actions, uuid) case Some(left) => left case None => At(index, uuid)
    decreases |actions|
  {
    if actions != [] {
      var n := |actions| - 1;
      LastActionDecides(index, actions[..n], uuid);
      ApplyAllSnoc(index, actions[..n], actions[n]);
      assert actions == actions[..n] + [actions[n]];
    }
  }

  lemma SameAtSame(a: Index, b: Index)
    requires forall uuid :: At(a, uuid) == At(b, uuid)
    ensures a == b
  {
    forall uuid ensures uuid in a <==> uuid in b {
      assert At(a, uuid) == At(b, uuid);
    }
    forall uuid | uuid in a ensures a[uuid] == b[uuid] {
      assert At(a, uuid) == At(b, uuid);
    }
  }

  /** Repeating the end of a run of actions changes nothing. */
  lemma RepeatChangesNothing(index: Index, actions: seq<Action>, k: nat)
    requires k <= |actions|
    ensures ApplyAll(ApplyAll(index, actions), actions[k..]) == ApplyAll(index, actions)
  {
    var once, before, repeated := ApplyAll(index, actions), actions[..k], actions[k..];
    assert actions == before + repeated;
    ApplyAllConcat(index, before, repeated);
    forall uuid ensures At(ApplyAll(once, repeated), uuid) == At(once, uuid) {
      LastActionDecides(once, repeated, uuid);
      LastActionDecides(ApplyAll(index, before), repeated, uuid);
    }
    SameAtSame(ApplyAll(once, repeated), once);
  }

  // ----- runs of messages -----

  function Actions(s: Settings, baseAPIURL: string, ds: seq<Delivery>): seq<Action>
    requires Sorts(s.lib.sorter)
  {
    seq(|ds|, i requires 0 <= i < |ds| => ActionOf(s, baseAPIURL, ds[i].msg, ds[i].newTid, ds[i].contentType))
  }

  /** Securing the URL early does not show. */
  lemma ActionOfSecured(s: Settings, url: string, d: Delivery)
    requires Sorts(s.lib.sorter)
    ensures ActionOf(s, M.Secured(url), d.msg, d.newTid, d.contentType) ==
            ActionOf(s, url, d.msg, d.newTid, d.contentType)
  {
    M.SecuredSettles(url);
  }

  lemma ActionsOfSecured(s: Settings, url: string, ds: seq<Delivery>)
    requires Sorts(s.lib.sorter)
    ensures Actions(s, M.Secured(url), ds) == Actions(s, url, ds)
  {
    forall i | 0 <= i < |ds| ensures Actions(s, M.Secured(url), ds)[i] == Actions(s, url, ds)[i] {
      ActionOfSecured(s, url, ds[i]);
    }
  }

  lemma {:induction false} RunApplies(s: Settings, st: State, ds: seq<Delivery>)
    requires Sorts(s.lib.sorter)
    ensures Run(s, st, ds).index == ApplyAll(st.index, Actions(s, st.baseAPIURL, ds))
    ensures Run(s, st, ds).baseAPIURL == st.baseAPIURL || Run(s, st, ds).baseAPIURL == M.Secured(st.baseAPIURL)
    decreases |ds|
  {
    if ds != [] {
      var next, rest := StepOn(s, st, ds[0]), ds[1..];
      RunApplies(s, next, rest);
      ActionsOfSecured(s, st.baseAPIURL, rest);
      M.SecuredSettles(st.baseAPIURL);
      assert Actions(s, st.baseAPIURL, ds)[1..] == Actions(s, st.baseAPIURL, rest);
    }
  }

  lemma OneTypeIff(s: Settings, msg: FTMessage)
    requires msg.body.Some?
    ensures OneType(s, msg) <==> OneAnswer(TypesOf(s, msg))
  {
    var c := msg.body.value.content;
    AgreeIsOneAnswer(s.contentMetadata, c.identifiers, msg.Header(ORIGIN_HEADER));
  }

  lemma PassesAnyTid(s: Settings, d: Delivery)
    requires Legal(s, d)
    ensures Accepted(s, d.msg, d.newTid) <==> Passes(s, d.msg)
  {
  }

  /** A determined message does the same each time it is delivered. */
  lemma SameMessageSameAction(s: Settings, url: string, d: Delivery, e: Delivery)
    requires Sorts(s.lib.sorter) && d.msg == e.msg && Legal(s, d) && Legal(s, e) && Determined(s, d.msg)
    ensures ActionOf(s, url, d.msg, d.newTid, d.contentType) == ActionOf(s, url, e.msg, e.newTid, e.contentType)
  {
    PassesAnyTid(s, d);
    PassesAnyTid(s, e);
    if Passes(s, d.msg) {
      OneTypeIff(s, d.msg);
    }
  }

  /** `again` delivers the messages of `ds` from `k` on once more. */
  predicate Redelivers(ds: seq<Delivery>, k: nat, again: seq<Delivery>) {
    k + |again| == |ds| && forall i :: 0 <= i < |again| ==> again[i].msg == ds[k + i].msg
  }

  ghost predicate AllLegal(s: Settings, ds: seq<Delivery>) { forall i :: 0 <= i < |ds| ==> Legal(s, ds[i]) }

  lemma RedeliveredActions(s: Settings, url: string, ds: seq<Delivery>, k: nat, again: seq<Delivery>)
    requires Sorts(s.lib.sorter) && Redelivers(ds, k, again) && AllLegal(s, ds) && AllLegal(s, again)
    requires forall i :: 0 <= i < |ds| ==> Determined(s, ds[i].msg)
    ensures Actions(s, url, again) == Actions(s, url, ds)[k..]
  {
    var first, second := Actions(s, url, ds), Actions(s, url, again);
    forall i | 0 <= i < |again| ensures second[i] == first[k + i] {
      SameMessageSameAction(s, url, ds[k + i], again[i]);
    }
    assert forall i :: 0 <= i < |again| ==> first[k..][i] == first[k + i];
  }

  /** A second run starts from the URL as it was, or secured; its actions are those of the first URL. */
  lemma RunAgainApplies(s: Settings, st: State, ds: seq<Delivery>, again: seq<Delivery>)
    requires Sorts(s.lib.sorter)
    ensures Run(s, Run(s, st, ds), again).index == ApplyAll(Run(s, st, ds).index, Actions(s, st.baseAPIURL, again))
  {
    RunApplies(s, st, ds);
    RunApplies(s, Run(s, st, ds), again);
    ActionsOfSecured(s, st.baseAPIURL, again);
  }

  /** Handling messages and then any tail of them again leaves the index as handling them once did. */
  lemma RedeliveryConverges(s: Settings, st: State, ds: seq<Delivery>, k: nat, again: seq<Delivery>)
    requires Sorts(s.lib.sorter) && Redelivers(ds, k, again) && AllLegal(s, ds) && AllLegal(s, again)
    requires forall i :: 0 <= i < |ds| ==> Determined(s, ds[i].msg)
    ensures Run(s, Run(s, st, ds), again).index == Run(s, st, ds).index
  {
    var actions := Actions(s, st.baseAPIURL, ds);
    RunApplies(s, st, ds);
    RunAgainApplies(s, st, ds, again);
    RedeliveredActions(s, st.baseAPIURL, ds, k, again);
    RepeatChangesNothing(st.index, actions, k);
  }

  /** Two runs of the same determined messages leave the same index, whatever orders Go's maps took. */
  lemma RunsAgree(s: Settings, st: State, ds: seq<Delivery>, es: seq<Delivery>)
    requires Sorts(s.lib.sorter) && Redelivers(ds, 0, es) && AllLegal(s, ds) && AllLegal(s, es)
    requires forall i :: 0 <= i < |ds| ==> Determined(s, ds[i].msg)
    ensures Run(s, st, ds).index == Run(s, st, es).index
  {
    RunApplies(s, st, ds);
    RunApplies(s, st, es);
    RedeliveredActions(s, st.baseAPIURL, ds, 0, es);
  }

  // ----- and only for determined messages -----

  /** Two legal deliveries of a message that is not determined, the second of which does something else. */
  lemma TwoDeliveries(s: Settings, url: string, msg: FTMessage) returns (d: Delivery, e: Delivery)
    requires Sorts(s.lib.sorter) && !Determined(s, msg)
    ensures d.msg == e.msg == msg && Legal(s, d) && Legal(s, e)
    ensures var uuid := msg.body.value.uuid;
            var a := ActionOf(s, url, msg, d.newTid, d.contentType);
            var b := ActionOf(s, url, msg, e.newTid, e.contentType);
            a != b && !b.Ignore? && b.uuid == uuid && (a.Ignore? || (a.Write? && a.uuid == uuid))
  {
    var types := TypesOf(s, msg);
    var event := Promoted(msg.body.value);
    if event.deleted {
      var t :| t in types && t != "";
      d, e := Delivery(msg, "", ""), Delivery(msg, "", t);
    } else {
      OneTypeIff(s, msg);
      var t, u :| t in types && u in types && t != u;
      d, e := Delivery(msg, "", t), Delivery(msg, "", u);
      if u == "" {
        d, e := e, d;
      }
    }
  }

  /** There is an index that the second action, after the first, leaves otherwise than the first. */
  lemma SecondShows(a: Action, b: Action, uuid: string, some: M.Document) returns (index: Index)
    requires a != b && !b.Ignore? && b.uuid == uuid && (a.Ignore? || (a.Write? && a.uuid == uuid))
    ensures Apply(Apply(index, a), b) == Apply(index, b) != Apply(index, a)
  {
    index := if b.Delete? then map[uuid := some] else map[];
    assert uuid in Apply(index, a) <==> a.Write? || uuid in index;
    if a.Write? && b.Write? {
      assert Apply(index, a)[uuid] == a.document && Apply(index, b)[uuid] == b.document;
    } else {
      assert uuid in Apply(index, a) <==> uuid !in Apply(index, b);
    }
  }

  /** The deliveries are of these messages. */
  ghost predicate DrawnFrom(msgs: seq<FTMessage>, s: Settings, ds: seq<Delivery>) {
    AllLegal(s, ds) && forall i :: 0 <= i < |ds| ==> ds[i].msg in msgs
  }

  /** Delivering the messages of `ds` from `k` on again leaves the index of the run over `ds`. */
  ghost predicate Converges(s: Settings, msgs: seq<FTMessage>, st: State, ds: seq<Delivery>, k: nat,
                            again: seq<Delivery>)
    requires Sorts(s.lib.sorter)
  {
    DrawnFrom(msgs, s, ds) && DrawnFrom(msgs, s, again) && Redelivers(ds, k, again) ==>
      Run(s, Run(s, st, ds), again).index == Run(s, st, ds).index
  }

  /** It does from any start, for any run over the messages and any tail of it. */
  ghost predicate AlwaysConverges(s: Settings, msgs: seq<FTMessage>)
    requires Sorts(s.lib.sorter)
  {
    forall st, ds, k, again :: Converges(s, msgs, st, ds, k, again)
  }

  /** Delivering the messages of `ds` in another way leaves the same index. */
  ghost predicate Agrees(s: Settings, msgs: seq<FTMessage>, st: State, ds: seq<Delivery>, again: seq<Delivery>)
    requires Sorts(s.lib.sorter)
  {
    DrawnFrom(msgs, s, ds) && DrawnFrom(msgs, s, again) && Redelivers(ds, 0, again) ==>
      Run(s, st, ds).index == Run(s, st, again).index
  }

  ghost predicate AlwaysAgrees(s: Settings, msgs: seq<FTMessage>)
    requires Sorts(s.lib.sorter)
  {
    forall st, ds, again :: Agrees(s, msgs, st, ds, again)
  }

  lemma RunOne(s: Settings, st: State, d: Delivery)
    requires Sorts(s.lib.sorter)
    ensures Run(s, st, [d]) == StepOn(s, st, d)
  {
    assert [d][1..] == [];
  }

  /** A start and two deliveries of the message after which redelivery changes the index, and so does
      taking the other order of the configuration's entries. */
  lemma UndeterminedShows(s: Settings, msg: FTMessage) returns (st: State, d: Delivery, e: Delivery)
    requires Sorts(s.lib.sorter) && !Determined(s, msg)
    ensures d.msg == e.msg == msg && Legal(s, d) && Legal(s, e) && Redelivers([d], 0, [e])
    ensures Run(s, Run(s, st, [d]), [e]).index != Run(s, st, [d]).index
    ensures Run(s, st, [d]).index != Run(s, st, [e]).index
  {
    d, e := TwoDeliveries(s, "", msg);
    var a, b := ActionOf(s, "", msg, d.newTid, d.contentType), ActionOf(s, "", msg, e.newTid, e.contentType);
    var index := SecondShows(a, b, msg.body.value.uuid, M.DocumentOf(s.config, s.lib, "", msg.body.value, ""));
    st := State("", index);
    RunOne(s, st, d);
    RunOne(s, st, e);
    RunOne(s, StepOn(s, st, d), e);
    ActionOfSecured(s, "", e);
  }

  /** Redelivery always converges, and runs always agree, exactly when every message is determined. */
  lemma ConvergesIff(s: Settings, msgs: seq<FTMessage>)
    requires Sorts(s.lib.sorter)
    ensures AlwaysConverges(s, msgs) <==> forall m :: m in msgs ==> Determined(s, m)
    ensures AlwaysAgrees(s, msgs) <==> forall m :: m in msgs ==> Determined(s, m)
  {
    if forall m :: m in msgs ==> Determined(s, m) {
      DeterminedConverge(s, msgs);
    } else {
      var m :| m in msgs && !Determined(s, m);
      UndeterminedDiverges(s, msgs, m);
    }
  }

  lemma UndeterminedDiverges(s: Settings, msgs: seq<FTMessage>, m: FTMessage)
    requires Sorts(s.lib.sorter) && m in msgs && !Determined(s, m)
    ensures !AlwaysConverges(s, msgs) && !AlwaysAgrees(s, msgs)
  {
    var st, d, e := UndeterminedShows(s, m);
    assert DrawnFrom(msgs, s, [d]) && DrawnFrom(msgs, s, [e]);
    assert !Converges(s, msgs, st, [d], 0, [e]);
    assert !Agrees(s, msgs, st, [d], [e]);
  }

  lemma DeterminedConverge(s: Settings, msgs: seq<FTMessage>)
    requires Sorts(s.lib.sorter) && forall m :: m in msgs ==> Determined(s, m)
    ensures AlwaysConverges(s, msgs) && AlwaysAgrees(s, msgs)
  {
    forall st, ds, k, again ensures Converges(s, msgs, st, ds, k, again) {
      if DrawnFrom(msgs, s, ds) && DrawnFrom(msgs, s, again) && Redelivers(ds, k, again) {
        RedeliveryConverges(s, st, ds, k, again);
      }
    }
    forall st, ds, again ensures Agrees(s, msgs, st, ds, again) {
      if DrawnFrom(msgs, s, ds) && DrawnFrom(msgs, s, again) && Redelivers(ds, 0, again) {
        RunsAgree(s, st, ds, again);
      }
    }
  }

  /** An article of the origin that two shipped entries find theirs in. */
  predicate SharedArticle(s: Settings, msg: FTMessage) {
    && s.contentMetadata == SHIPPED
    && msg.headers == map[ORIGIN_HEADER := SHARED_ORIGIN] && msg.body.Some?
    && var e := msg.body.value;
       && e.content.contentType == "Article" && e.content.uuid != "" && !e.deleted && e.content.identifiers == []
       && s.policy(e.content.publication) == Some(false)
  }

  lemma SharedArticlePasses(s: Settings, msg: FTMessage)
    requires SharedArticle(s, msg)
    ensures Passes(s, msg) && msg.Header(CONTENT_TYPE_HEADER) == "" && msg.Header(ORIGIN_HEADER) == SHARED_ORIGIN
  {
    assert ALLOWED_TYPES[0] == "Article";
    assert ORIGIN_HEADER[0] == 'O' && TRANSACTION_ID_HEADER[0] == 'X' && CONTENT_TYPE_HEADER[0] == 'C';
  }

  lemma EntriesDisagree()
    ensures !EntriesAgree(SHIPPED, [], SHARED_ORIGIN)
  {
    ReadsCanDiffer();
    OrderIndependentIff(SHIPPED, [], SHARED_ORIGIN);
  }

  /** The shipped configuration can make redelivery change the index. */
  lemma SharedArticleCanChange(s: Settings, msg: FTMessage)
    requires Sorts(s.lib.sorter) && SharedArticle(s, msg)
    ensures !Determined(s, msg) && !AlwaysConverges(s, [msg]) && !AlwaysAgrees(s, [msg])
  {
    SharedArticlePasses(s, msg);
    EntriesDisagree();
    assert ByHeader("", "Article") == None;
    ConvergesIff(s, [msg]);
  }

  // ----- frame -----

  predicate Touches(d: Delivery, s: Settings, uuid: string) {
    Accepted(s, d.msg, d.newTid) && d.msg.body.value.uuid == uuid
  }

  lemma {:induction false} NoActionNoEffect(actions: seq<Action>, uuid: string)
    requires forall i :: 0 <= i < |actions| ==> actions[i].Ignore? || actions[i].uuid != uuid
    ensures LastEffect(actions, uuid) == None
    decreases |actions|
  {
    if actions != [] { NoActionNoEffect(actions[..|actions| - 1], uuid); }
  }

  /** A run leaves alone every uuid that no accepted message is about. */
  lemma RunFrame(s: Settings, st: State, ds: seq<Delivery>, uuid: string)
    requires Sorts(s.lib.sorter)
    requires forall i :: 0 <= i < |ds| ==> !Touches(ds[i], s, uuid)
    ensures At(Run(s, st, ds).index, uuid) == At(st.index, uuid)
  {
    RunApplies(s, st, ds);
    var actions := Actions(s, st.baseAPIURL, ds);
    forall i | 0 <= i < |actions| ensures actions[i].Ignore? || actions[i].uuid != uuid {
      assert !Touches(ds[i], s, uuid);
    }
    NoActionNoEffect(actions, uuid);
    LastActionDecides(st.index, actions, uuid);
  }

  /** After a run a uuid holds what the last action about it left: the document of the last accepted
      write, nothing after a delete. */
  lemma RunLookup(s: Settings, st: State, ds: seq<Delivery>, i: nat, uuid: string)
    requires Sorts(s.lib.sorter) && i < |ds|
    requires var a := ActionOf(s, st.baseAPIURL, ds[i].msg, ds[i].newTid, ds[i].contentType);
             !a.Ignore? && a.uuid == uuid
    requires forall j :: i < j < |ds| ==>
               var a := ActionOf(s, st.baseAPIURL, ds[j].msg, ds[j].newTid, ds[j].contentType);
               a.Ignore? || a.uuid != uuid
    ensures At(Run(s, st, ds).index, uuid) ==
            match ActionOf(s, st.baseAPIURL, ds[i].msg, ds[i].newTid, ds[i].contentType)
            case Write(_, document) => Some(document)
            case _ => None
  {
    RunApplies(s, st, ds);
    var actions := Actions(s, st.baseAPIURL, ds);
    LastActionDecides(st.index, actions, uuid);
    LastEffectAt(actions, i, uuid);
  }

  lemma {:induction false} LastEffectAt(actions: seq<Action>, i: nat, uuid: string)
    requires i < |actions| && !actions[i].Ignore? && actions[i].uuid == uuid
    requires forall j :: i < j < |actions| ==> actions[j].Ignore? || actions[j].uuid != uuid
    ensures LastEffect(actions, uuid) == Some(match actions[i] case Write(_, document) => Some(document) case _ => None)
    decreases |actions|
  {
    if i < |actions| - 1 {
      LastEffectAt(actions[..|actions| - 1], i, uuid);
    }
  }

  // ----- the handler's own runs -----

  lemma {:induction false} RunSnoc(s: Settings, st: State, ds: seq<Delivery>, d: Delivery)
    requires Sorts(s.lib.sorter)
    ensures Run(s, st, ds + [d]) == StepOn(s, Run(s, st, ds), d)
    decreases |ds|
  {
    if ds != [] {
      assert (ds + [d])[0] == ds[0] && (ds + [d])[1..] == ds[1..] + [d];
      RunSnoc(s, StepOn(s, st, ds[0]), ds[1..], d);
    }
  }

  /** The consumer hands the handler one message after the other. When every index request succeeds the
      handler goes through a run of legal deliveries of these messages. */
  method Consume(h: Handler, msgs: seq<FTMessage>, newTids: seq<string>) returns (ghost ds: seq<Delivery>)
    requires h.esService.connected && Sorts(h.mapper.lib.sorter) && |newTids| == |msgs|
    requires forall i :: 0 <= i < |newTids| ==> !Contains(newTids[i], SYNTHETIC_REQUEST_PREFIX)
    modifies h.esService, h.mapper
    ensures |ds| == |msgs| && forall i :: 0 <= i < |ds| ==> ds[i].msg == msgs[i] && Legal(h.SettingsOf(), ds[i])
    ensures State(h.mapper.baseAPIURL, h.esService.index) ==
            Run(h.SettingsOf(), old(State(h.mapper.baseAPIURL, h.esService.index)), ds)
  {
    ds := [];
    for n := 0 to |msgs|
      invariant h.esService.connected
      invariant |ds| == n && forall i :: 0 <= i < |ds| ==> ds[i].msg == msgs[i] && Legal(h.SettingsOf(), ds[i])
      invariant State(h.mapper.baseAPIURL, h.esService.index) ==
                Run(h.SettingsOf(), old(State(h.mapper.baseAPIURL, h.esService.index)), ds)
    {
      ghost var contentType := h.HandleMessage(msgs[n], newTids[n], Succeeded);
      ghost var d := Delivery(msgs[n], newTids[n], contentType);
      RunSnoc(h.SettingsOf(), old(State(h.mapper.baseAPIURL, h.esService.index)), ds, d);
      ds := ds + [d];
    }
  }
}
