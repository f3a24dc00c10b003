/** pkg/concept/concordance.go as it runs: a loop over the response that inserts headers into a map
    and appends to arrays the headers share. */
module ConcordanceService {
  import opened Concordance
  import opened SliceMemory
  import opened LastWriters
  import opened Entries

  /** A Go []string starting at its array's first element; `buf.Length` is its capacity. */
  datatype GoSlice = Nil | On(buf: array<string>, len: nat)

  /** The header stands for `s`, with the memory's arrays numbered by `arrays`. */
  ghost predicate Stands(g: GoSlice, s: Slice, arrays: seq<array<string>>) {
    match s
    case NilSlice => g.Nil?
    case View(b, n) => b < |arrays| && g == On(arrays[b], n)
  }

  ghost predicate Mirrors<K>(conceptMap: map<K, GoSlice>, arrays: seq<array<string>>, mem: Memory<K>)
    reads arrays
  {
    && Sound(mem)
    && |arrays| == |mem.bufs|
    && (forall b :: 0 <= b < |arrays| ==> arrays[b][..] == mem.bufs[b])
    && (forall b, c :: 0 <= b < c < |arrays| ==> arrays[b] != arrays[c])
    && conceptMap.Keys == mem.table.Keys
    && (forall k :: k in conceptMap ==> Stands(conceptMap[k], mem.table[k], arrays))
  }

  /** What a reader of the slice sees. */
  ghost function Elems(g: GoSlice): seq<string>
    reads if g.On? then {g.buf} else {}
  {
    if g.On? && g.len <= g.buf.Length then g.buf[..g.len] else []
  }

  /** The map has the keys of `lists` and its slices their elements. */
  ghost predicate Shown<K>(conceptMap: map<K, GoSlice>, lists: Lists<K>)
    reads set k | k in conceptMap && conceptMap[k].On? :: conceptMap[k].buf
  {
    conceptMap.Keys == lists.Keys && forall k :: k in conceptMap ==> Elems(conceptMap[k]) == lists[k]
  }

  lemma MirrorsShow<K>(conceptMap: map<K, GoSlice>, arrays: seq<array<string>>, mem: Memory<K>)
    requires Mirrors(conceptMap, arrays, mem)
    ensures Shown(conceptMap, Views(mem))
  {
    forall k | k in conceptMap
      ensures Elems(conceptMap[k]) == Views(mem)[k]
    {
      assert Stands(conceptMap[k], mem.table[k], arrays);
      assert InBounds(mem.bufs, mem.table[k]);
    }
  }

  lemma MirrorsTouch<K>(conceptMap: map<K, GoSlice>, arrays: seq<array<string>>, mem: Memory<K>, key: K)
    requires Mirrors(conceptMap, arrays, mem)
    ensures Mirrors(if key in conceptMap then conceptMap else conceptMap[key := Nil], arrays, TouchSlice(mem, key))
  {
  }

  lemma MirrorsAlias<K>(conceptMap: map<K, GoSlice>, arrays: seq<array<string>>, mem: Memory<K>, key: K, alias: K)
    requires Mirrors(conceptMap, arrays, mem) && key in conceptMap
    ensures Mirrors(if alias in conceptMap then conceptMap else conceptMap[alias := conceptMap[key]],
                    arrays, AliasSlice(mem, key, alias))
  {
  }

  /** append(s, value): in place when the array has room, otherwise into a new array. */
  method Append(s: GoSlice, value: string, grow: Growth) returns (r: GoSlice)
    requires s.On? ==> 0 < s.len <= s.buf.Length
    requires Grows(grow)
    modifies if s.On? && s.len < s.buf.Length then {s.buf} else {}
    ensures r.On?
    ensures s.On? && s.len < s.buf.Length ==>
              r == On(s.buf, s.len + 1) && s.buf[..] == old(s.buf[..])[s.len := value]
    ensures !(s.On? && s.len < s.buf.Length) ==>
              var elems := if s.Nil? then [] else s.buf[..];
              fresh(r.buf) && r.len == |elems| + 1 && r.buf[..] == Fresh(elems + [value], grow(|elems|))
  {
    if s.On? && s.len < s.buf.Length {
      s.buf[s.len] := value;
      r := On(s.buf, s.len + 1);
    } else {
      var elems := if s.Nil? then [] else s.buf[..];
      var moved := Fresh(elems + [value], grow(|elems|));
      var buf := new string[|moved|](i requires 0 <= i < |moved| => moved[i]);
      r := On(buf, |elems| + 1);
    }
  }

  /** concordance.go:106-108: read the entry, append to it, store it back. */
  method AppendUnder<K(==)>(conceptMap: map<K, GoSlice>, key: K, value: string, grow: Growth,
                            ghost arrays: seq<array<string>>, ghost mem: Memory<K>)
    returns (conceptMap': map<K, GoSlice>, ghost arrays': seq<array<string>>)
    requires Grows(grow) && Mirrors(conceptMap, arrays, mem) && key in conceptMap
    modifies arrays
    ensures forall b :: 0 <= b < |arrays'| ==> (b < |arrays| && arrays'[b] == arrays[b]) || fresh(arrays'[b])
    ensures Mirrors(conceptMap', arrays', AppendTo(mem, key, value, grow))
  {
    ghost var s := mem.table[key];
    AppendKeepsSound(mem, key, value, grow);
    var concept := conceptMap[key];
    assert Stands(concept, s, arrays);
    assert s.View? ==> arrays[s.buf][..] == mem.bufs[s.buf];
    assert concept.On? && concept.len < concept.buf.Length <==> HasRoom(mem.bufs, s);
    ghost var elems := Read(mem.bufs, s);
    concept := Append(concept, value, grow);
    conceptMap' := conceptMap[key := concept];
    arrays' := if HasRoom(mem.bufs, s) then arrays else arrays + [concept.buf];
    ghost var mem' := AppendTo(mem, key, value, grow);
    forall b | 0 <= b < |arrays'|
      ensures arrays'[b][..] == mem'.bufs[b]
    {
      if b < |arrays| && !(HasRoom(mem.bufs, s) && b == s.buf) {
        assert arrays[b][..] == old(arrays[b][..]);
      }
    }
    forall k | k in conceptMap'
      ensures Stands(conceptMap'[k], mem'.table[k], arrays')
    {
      assert k != key ==> Stands(conceptMap[k], mem.table[k], arrays);
    }
  }

  /** A key first mentioned as a concept shows all IDs given for it, in order. */
  ghost predicate ConceptsHaveAll(conceptMap: map<string, GoSlice>, entries: seq<Entry>)
    reads set k | k in conceptMap && conceptMap[k].On? :: conceptMap[k].buf
  {
    forall key, i :: FirstAsConcept(entries, key, i) ==>
      key in conceptMap && Elems(conceptMap[key]) == IDsGiven(entries, key)
  }

  lemma ShownOfEntries(conceptMap: map<string, GoSlice>, entries: seq<Entry>, grow: Growth)
    requires Grows(grow) && Shown(conceptMap, Views(Run(Records(entries), grow)))
    ensures forall key :: key in conceptMap <==> SomeMentions(entries, key)
    ensures forall key, id :: key in conceptMap && id in Elems(conceptMap[key]) ==> SomeGives(entries, id)
    ensures Shown(conceptMap, Fold(Records(entries))) ==> ConceptsHaveAll(conceptMap, entries)
  {
    var rs := Records(entries);
    RunSizes(rs, grow);
    forall key ensures key in conceptMap <==> SomeMentions(entries, key) {
      MarksAreFold(rs, key);
      KeysAre(entries, key);
    }
    forall key, id | key in conceptMap && id in Elems(conceptMap[key]) ensures SomeGives(entries, id) {
      ShownAreGiven(entries, grow, key, id);
    }
    if Shown(conceptMap, Fold(rs)) {
      forall key, i | FirstAsConcept(entries, key, i)
        ensures key in conceptMap && Elems(conceptMap[key]) == IDsGiven(entries, key)
      {
        ConceptList(entries, key, i);
      }
    }
  }

  /** TransformToConceptModel. What its result shows is the run on slice headers: under each key, place
      by place, the ID of the last writer; and, when no alias collects TME values of its own or lists stay
      compatible, the fold. */
  method TransformToConceptModel(concordances: seq<Entry>, grow: Growth)
    returns (conceptMap: map<string, GoSlice>, ghost arrays: seq<array<string>>)
    requires Grows(grow)
    ensures forall b :: 0 <= b < |arrays| ==> fresh(arrays[b])
    ensures Mirrors(conceptMap, arrays, Run(Records(concordances), grow))
    ensures Shown(conceptMap, Views(Run(Records(concordances), grow)))
    ensures Shown(conceptMap, ShownIDs(Records(concordances), grow))
    ensures Compatible(Records(concordances)) ==> Shown(conceptMap, Fold(Records(concordances)))
    ensures NoAliasGrows(Records(concordances)) ==> Shown(conceptMap, Fold(Records(concordances)))
    ensures forall key :: key in conceptMap <==> SomeMentions(concordances, key)
    ensures forall key, id :: key in conceptMap && id in Elems(conceptMap[key]) ==> SomeGives(concordances, id)
    ensures NoAliasGrows(Records(concordances)) ==> ConceptsHaveAll(conceptMap, concordances)
  {
    ghost var rs := Records(concordances);
    conceptMap, arrays := map[], [];
    for i := 0 to |concordances|
      invariant forall b :: 0 <= b < |arrays| ==> fresh(arrays[b])
      invariant Mirrors(conceptMap, arrays, Run(rs[..i], grow))
    {
      var c := concordances[i];
      ghost var before := Run(rs[..i], grow);
      ghost var mem := TouchSlice(before, c.conceptID);
      RunSnoc(rs, i, grow);
      MirrorsTouch(conceptMap, arrays, before, c.conceptID);
      if c.conceptID !in conceptMap {
        conceptMap := conceptMap[c.conceptID := Nil];
      }
      if c.authority == TME_AUTHORITY {
        conceptMap, arrays := AppendUnder(conceptMap, c.conceptID, c.identifierValue, grow, arrays, mem);
      }
      if c.authority == UPP_AUTHORITY {
        var alias := THING_URI_PREFIX + c.identifierValue;
        MirrorsAlias(conceptMap, arrays, mem, c.conceptID, alias);
        if alias !in conceptMap {
          conceptMap := conceptMap[alias := conceptMap[c.conceptID]];
        }
      }
    }
    assert rs[..|rs|] == rs;
    MirrorsShow(conceptMap, arrays, Run(rs, grow));
    ViewsExact(rs, grow);
    SharingIsInvisibleIff(rs);
    if NoAliasGrows(rs) {
      NoAliasGrowsIsCompatible(rs);
    }
    ShownOfEntries(conceptMap, concordances, grow);
  }
}
