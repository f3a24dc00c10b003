/** pkg/concept/concordance.go, on values: the loop as a fold over the response's records,
    and what it computes for each key without running it. */
module Concordance {

  const THING_URI_PREFIX := "http://api.ft.com/things/"

  const TME_AUTHORITY := "http://api.ft.com/system/FT-TME"
  const UPP_AUTHORITY := "http://api.ft.com/system/UPP"

  /** What the code's two comparisons can tell about an identifier's authority. */
  datatype Authority = FtTme | Upp | Other(uri: string)

  function ParseAuthority(uri: string): Authority {
    if uri == TME_AUTHORITY then FtTme else if uri == UPP_AUTHORITY then Upp else Other(uri)
  }

  /** One concordance as the response has it: concept.id, identifier.authority, identifier.identifierValue. */
  datatype Entry = Entry(conceptID: string, authority: string, identifierValue: string)

  /** The same with its authority told. */
  datatype Record = Record(conceptID: string, authority: Authority, value: string)
  {
    predicate IsTme() { authority == FtTme }

    predicate IsUpp() { authority == Upp }

    function AliasKey(): string { THING_URI_PREFIX + value }

    /** The record can put `key` into the map. */
    predicate Mentions(key: string) { conceptID == key || (IsUpp() && AliasKey() == key) }
  }

  function Records(entries: seq<Entry>): seq<Record> {
    seq(|entries|, i requires 0 <= i < |entries| =>
      Record(entries[i].conceptID, ParseAuthority(entries[i].authority), entries[i].identifierValue))
  }

  /** A nil slice and an empty one are the same value here; the loop never builds the latter. */
  type ConceptMap = map<string, seq<string>>

  /** The three updates the loop makes need only equality of keys. */
  type Lists<!K> = map<K, seq<string>>

  /** A missing key starts with an empty list. */
  function Touch<K(==), V>(m: map<K, seq<V>>, key: K): map<K, seq<V>> {
    if key in m then m else m[key := []]
  }

  function Grow<K(==), V>(m: map<K, seq<V>>, key: K, value: V): map<K, seq<V>>
    requires key in m
  {
    m[key := m[key] + [value]]
  }

  /** The alias key copies the concept's list unless it is already there. */
  function Alias<K(==), V>(m: map<K, seq<V>>, key: K, alias: K): map<K, seq<V>>
    requires key in m
  {
    if alias in m then m else m[alias := m[key]]
  }

  /** One iteration of the loop, on values. */
  function Step(m: ConceptMap, r: Record): ConceptMap {
    var touched := Touch(m, r.conceptID);
    if r.IsTme() then Grow(touched, r.conceptID, r.value)
    else if r.IsUpp() then Alias(touched, r.conceptID, r.AliasKey())
    else touched
  }

  function Fold(rs: seq<Record>): ConceptMap {
    if rs == [] then map[] else Step(Fold(rs[..|rs| - 1]), rs[|rs| - 1])
  }

  // ----- what the map holds, said without the loop -----

  /** Index of the first record that mentions `key`, or |rs|. */
  function FirstMention(rs: seq<Record>, key: string): (i: nat)
    ensures i <= |rs|
    ensures i < |rs| ==> rs[i].Mentions(key)
    ensures forall j :: 0 <= j < i ==> !rs[j].Mentions(key)
  {
    if rs == [] then 0
    else
      var n := |rs| - 1;
      var i := FirstMention(rs[..n], key);
      assert forall j :: 0 <= j < n ==> rs[j] == rs[..n][j];
      if i < n then i else if rs[n].Mentions(key) then n else n + 1
  }

  /** What one record adds to the values about `key`. */
  function TmeValue(r: Record, key: string): seq<string> { if r.IsTme() && r.conceptID == key then [r.value] else [] }

  /** The TME values of the records about `key`, in response order. */
  function TmeValues(rs: seq<Record>, key: string): seq<string> {
    if rs == [] then []
    else
      var n := |rs| - 1;
      TmeValues(rs[..n], key) + TmeValue(rs[n], key)
  }

  /** The list `key` must carry: a key first mentioned as a concept collects every TME value about
      it; a key first mentioned as an alias starts from what its concept had at that record. */
  function Declared(rs: seq<Record>, key: string): seq<string>
    decreases |rs|
  {
    var i := FirstMention(rs, key);
    if i == |rs| then []
    else if rs[i].conceptID == key then TmeValues(rs, key)
    else Declared(rs[..i], rs[i].conceptID) + TmeValues(rs[i + 1..], key)
  }

  lemma {:induction false} NoMentionNoValues(rs: seq<Record>, key: string)
    requires forall j :: 0 <= j < |rs| ==> !rs[j].Mentions(key)
    ensures TmeValues(rs, key) == []
  {
    if rs != [] {
      NoMentionNoValues(rs[..|rs| - 1], key);
    }
  }

  lemma FirstMentionIs(rs: seq<Record>, key: string, i: nat)
    requires i < |rs| && rs[i].Mentions(key)
    requires forall j :: 0 <= j < i ==> !rs[j].Mentions(key)
    ensures FirstMention(rs, key) == i
  {
  }

  lemma TmeValuesSnoc(rs: seq<Record>, r: Record, key: string)
    ensures TmeValues(rs + [r], key) == TmeValues(rs, key) + TmeValue(r, key)
  {
    assert (rs + [r])[..|rs|] == rs;
  }

  lemma {:induction false} TmeValuesSplit(a: seq<Record>, b: seq<Record>, key: string)
    ensures TmeValues(a + b, key) == TmeValues(a, key) + TmeValues(b, key)
  {
    if b == [] {
      assert a + b == a;
    } else {
      var before, r := b[..|b| - 1], b[|b| - 1];
      assert b == before + [r] && a + b == (a + before) + [r];
      TmeValuesSplit(a, before, key);
      assert TmeValues(a + b, key) == TmeValues(a + before, key) + TmeValue(r, key) by {
        TmeValuesSnoc(a + before, r, key);
      }
      assert TmeValues(b, key) == TmeValues(before, key) + TmeValue(r, key) by { TmeValuesSnoc(before, r, key); }
    }
  }

  lemma FirstMentionStays(rs: seq<Record>, more: seq<Record>, key: string)
    requires FirstMention(rs, key) < |rs|
    ensures FirstMention(rs + more, key) == FirstMention(rs, key)
  {
    FirstMentionIs(rs + more, key, FirstMention(rs, key));
  }

  lemma AliasGrows(rs: seq<Record>, more: seq<Record>, key: string, i: nat)
    requires i == FirstMention(rs, key) == FirstMention(rs + more, key) < |rs| && rs[i].conceptID != key
    ensures Declared(rs + more, key) == Declared(rs, key) + TmeValues(more, key)
  {
    var all := rs + more;
    assert all[..i] == rs[..i] && all[i + 1..] == rs[i + 1..] + more && all[i] == rs[i];
    TmeValuesSplit(rs[i + 1..], more, key);
  }

  /** A mentioned key's declared list grows by exactly the TME values about it. */
  lemma DeclaredGrows(rs: seq<Record>, more: seq<Record>, key: string)
    requires FirstMention(rs, key) < |rs|
    ensures FirstMention(rs + more, key) == FirstMention(rs, key)
    ensures Declared(rs + more, key) == Declared(rs, key) + TmeValues(more, key)
  {
    var i := FirstMention(rs, key);
    FirstMentionStays(rs, more, key);
    if rs[i].conceptID == key {
      TmeValuesSplit(rs, more, key);
    } else {
      AliasGrows(rs, more, key, i);
    }
  }

  /** The record that first mentions a key starts its list. */
  lemma DeclaredStarts(rs: seq<Record>, r: Record, key: string)
    requires FirstMention(rs, key) == |rs| && r.Mentions(key)
    ensures FirstMention(rs + [r], key) == |rs|
    ensures Declared(rs + [r], key) ==
            if r.conceptID == key then TmeValues([r], key) else Declared(rs, r.conceptID)
  {
    var all := rs + [r];
    FirstMentionIs(all, key, |rs|);
    if r.conceptID == key {
      NoMentionNoValues(rs, key);
      TmeValuesSplit(rs, [r], key);
    } else {
      assert all[..|rs|] == rs;
      assert all[|rs| + 1..] == [];
    }
  }

  lemma TmeValuesOne(r: Record, key: string)
    ensures TmeValues([r], key) == TmeValue(r, key)
  {
    assert TmeValues([r][..0], key) == [];
  }

  /** `key` is in the map exactly when mentioned, with its declared list. */
  predicate ExactAt(rs: seq<Record>, m: ConceptMap, key: string) {
    && (key in m <==> FirstMention(rs, key) < |rs|)
    && (key in m ==> m[key] == Declared(rs, key))
  }

  lemma ExactAtStep(rs: seq<Record>, m: ConceptMap, r: Record, key: string)
    requires ExactAt(rs, m, key) && ExactAt(rs, m, r.conceptID)
    ensures ExactAt(rs + [r], Step(m, r), key)
  {
    TmeValuesOne(r, key);
    if FirstMention(rs, key) < |rs| {
      DeclaredGrows(rs, [r], key);
    } else if r.Mentions(key) {
      DeclaredStarts(rs, r, key);
    } else {
      assert (rs + [r])[..|rs|] == rs;
    }
  }

  /** The map's keys are the mentioned keys and each carries its declared list. */
  lemma {:induction false} ConceptMapExact(rs: seq<Record>)
    ensures forall key :: ExactAt(rs, Fold(rs), key)
  {
    if rs != [] {
      var before, r := rs[..|rs| - 1], rs[|rs| - 1];
      ConceptMapExact(before);
      forall key ensures ExactAt(rs, Fold(rs), key) {
        ExactAtStep(before, Fold(before), r, key);
        assert before + [r] == rs;
      }
    }
  }

  lemma FoldAt(rs: seq<Record>, key: string)
    requires FirstMention(rs, key) < |rs|
    ensures key in Fold(rs) && Fold(rs)[key] == Declared(rs, key)
  {
    ConceptMapExact(rs);
    assert ExactAt(rs, Fold(rs), key);
  }

  /** Key set in the response's own terms: concept IDs and prefixed UPP values, nothing else. */
  lemma ConceptMapKeys(rs: seq<Record>, key: string)
    ensures key in Fold(rs) <==>
            exists j :: 0 <= j < |rs| &&
              (rs[j].conceptID == key || (rs[j].IsUpp() && key == THING_URI_PREFIX + rs[j].value))
  {
    ConceptMapExact(rs);
    assert ExactAt(rs, Fold(rs), key);
    var i := FirstMention(rs, key);
    if i < |rs| {
      assert rs[i].Mentions(key);
    } else {
      forall j | 0 <= j < |rs|
        ensures !(rs[j].conceptID == key || (rs[j].IsUpp() && key == THING_URI_PREFIX + rs[j].value))
      {
        assert !rs[j].Mentions(key);
      }
    }
  }

  // ----- aliases -----

  /** Record i inserts its alias key (concordance.go:113). */
  predicate CreatesAlias(rs: seq<Record>, i: nat)
    requires i < |rs|
  {
    rs[i].IsUpp() && rs[i].conceptID != rs[i].AliasKey() && FirstMention(rs, rs[i].AliasKey()) == i
  }

  lemma {:induction false} NoTmeNoValues(rs: seq<Record>, key: string)
    requires forall j :: 0 <= j < |rs| ==> !(rs[j].IsTme() && rs[j].conceptID == key)
    ensures TmeValues(rs, key) == []
  {
    if rs != [] {
      NoTmeNoValues(rs[..|rs| - 1], key);
    }
  }

  /** The values about `key` are complete from the point after which no TME record is about it. */
  lemma ValuesComplete(rs: seq<Record>, i: nat, key: string)
    requires i <= |rs|
    requires forall j :: i <= j < |rs| ==> !(rs[j].IsTme() && rs[j].conceptID == key)
    ensures TmeValues(rs[..i], key) == TmeValues(rs, key)
  {
    TmeValuesSplit(rs[..i], rs[i..], key);
    NoTmeNoValues(rs[i..], key);
    assert rs == rs[..i] + rs[i..];
  }

  lemma AliasDeclared(rs: seq<Record>, i: nat, alias: string)
    requires i < |rs| && FirstMention(rs, alias) == i && rs[i].conceptID != alias
    requires forall j :: i < j < |rs| ==> !(rs[j].IsTme() && rs[j].conceptID == alias)
    ensures Declared(rs, alias) == Declared(rs[..i], rs[i].conceptID)
  {
    NoTmeNoValues(rs[i + 1..], alias);
  }

  /** A list that gets no TME value from record i on, a record that mentions the key, is complete there. */
  lemma DeclaredComplete(rs: seq<Record>, i: nat, key: string)
    requires i < |rs| && rs[i].conceptID == key && !rs[i].IsTme()
    requires forall j :: i < j < |rs| ==> !(rs[j].IsTme() && rs[j].conceptID == key)
    ensures Declared(rs[..i], key) == Declared(rs, key)
  {
    if FirstMention(rs[..i], key) < i {
      assert rs[..i] + rs[i..] == rs;
      DeclaredGrows(rs[..i], rs[i..], key);
      NoTmeNoValues(rs[i..], key);
    } else {
      FirstMentionIs(rs, key, i);
      ValuesComplete(rs, i, key);
      NoMentionNoValues(rs[..i], key);
    }
  }

  /** When all TME records of a concept come before the record that creates an alias of it, and no later
      TME record names the alias as its concept, both keys carry the same list, however the concept's
      own list began. */
  lemma AliasCarriesFullList(rs: seq<Record>, i: nat, source: string, alias: string)
    requires i < |rs| && CreatesAlias(rs, i) && source == rs[i].conceptID && alias == rs[i].AliasKey()
    requires forall j :: i < j < |rs| && rs[j].IsTme() ==> rs[j].conceptID != source && rs[j].conceptID != alias
    ensures alias in Fold(rs) && source in Fold(rs)
    ensures Fold(rs)[alias] == Fold(rs)[source]
    ensures rs[FirstMention(rs, source)].conceptID == source ==> Fold(rs)[alias] == TmeValues(rs, source)
  {
    AliasDeclared(rs, i, alias);
    DeclaredComplete(rs, i, source);
    FoldAt(rs, alias);
    FoldAt(rs, source);
  }

  // ----- provenance -----

  /** `source` is `key` itself or the concept whose list seeded it, transitively. */
  predicate Feeds(rs: seq<Record>, source: string, key: string)
    decreases |rs|
  {
    source == key ||
    var i := FirstMention(rs, key);
    i < |rs| && rs[i].conceptID != key && Feeds(rs[..i], source, rs[i].conceptID)
  }

  /** Some TME record of `rs` about a concept that fed `key` has the value `id`. */
  ghost predicate ComesFrom(rs: seq<Record>, key: string, id: string) {
    exists j :: 0 <= j < |rs| && rs[j].IsTme() && rs[j].value == id && Feeds(rs, rs[j].conceptID, key)
  }

  lemma {:induction false} TmeValuesCome(rs: seq<Record>, key: string, id: string)
    requires id in TmeValues(rs, key)
    ensures exists j :: 0 <= j < |rs| && rs[j] == Record(key, FtTme, id)
  {
    var n := |rs| - 1;
    if rs[n] != Record(key, FtTme, id) {
      TmeValuesCome(rs[..n], key, id);
      var j :| 0 <= j < n && rs[..n][j] == Record(key, FtTme, id);
      assert rs[j] == rs[..n][j];
    }
  }

  /** Nothing is invented: each ID under a key is the value of a TME record about that key or
      about a concept that fed it. */
  lemma {:induction false} Provenance(rs: seq<Record>, key: string, id: string)
    requires key in Fold(rs) && id in Fold(rs)[key]
    ensures ComesFrom(rs, key, id)
    decreases |rs|, 1
  {
    ConceptMapExact(rs);
    assert ExactAt(rs, Fold(rs), key);
    var i := FirstMention(rs, key);
    if rs[i].conceptID == key {
      TmeValuesCome(rs, key, id);
    } else if id in TmeValues(rs[i + 1..], key) {
      TmeValuesCome(rs[i + 1..], key, id);
      var j :| 0 <= j < |rs[i + 1..]| && rs[i + 1..][j] == Record(key, FtTme, id);
      assert rs[i + 1 + j] == Record(key, FtTme, id);
    } else {
      SeedComesFrom(rs, key, id, i);
    }
  }

  lemma {:induction false} SeedComesFrom(rs: seq<Record>, key: string, id: string, i: nat)
    requires i == FirstMention(rs, key) < |rs| && rs[i].conceptID != key
    requires id in Declared(rs[..i], rs[i].conceptID)
    ensures ComesFrom(rs, key, id)
    decreases |rs|, 0
  {
    var source, seed := rs[i].conceptID, rs[..i];
    ConceptMapExact(seed);
    assert ExactAt(seed, Fold(seed), source);
    Provenance(seed, source, id);
    var j :| 0 <= j < i && seed[j].IsTme() && seed[j].value == id && Feeds(seed, seed[j].conceptID, source);
    assert rs[j] == seed[j];
    assert Feeds(rs, rs[j].conceptID, key);
  }
}
