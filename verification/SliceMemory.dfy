/** pkg/concept/concordance.go with Go's slices as they are: a map value is a header (backing
    array, length), copying a header shares the array, and append writes in place while the
    backing array has room. The growth of a full array is a parameter. */
module SliceMemory {
  import opened Concordance

  /** A slice header; its capacity is the length of its backing array. */
  datatype Slice = NilSlice | View(buf: nat, len: nat)

  datatype Memory<!K> = Memory(bufs: seq<seq<string>>, table: map<K, Slice>)

  /** Capacity append gives to a new array, from the capacity of the full one. */
  type Growth = nat -> nat

  ghost predicate Grows(grow: Growth) { forall n: nat :: grow(n) > n }

  predicate InBounds(bufs: seq<seq<string>>, s: Slice) {
    s.View? ==> s.buf < |bufs| && 0 < s.len <= |bufs[s.buf]|
  }

  predicate Sound<K(==)>(mem: Memory<K>) {
    forall k :: k in mem.table ==> InBounds(mem.bufs, mem.table[k])
  }

  function Read(bufs: seq<seq<string>>, s: Slice): seq<string>
    requires InBounds(bufs, s)
  {
    if s.NilSlice? then [] else bufs[s.buf][..s.len]
  }

  function Views<K(==)>(mem: Memory<K>): Lists<K>
    requires Sound(mem)
  {
    map k | k in mem.table :: Read(mem.bufs, mem.table[k])
  }

  function Len(s: Slice): nat { if s.NilSlice? then 0 else s.len }

  predicate HasRoom(bufs: seq<seq<string>>, s: Slice)
    requires InBounds(bufs, s)
  {
    s.View? && s.len < |bufs[s.buf]|
  }

  /** A new backing array: the elements and then zero values up to the capacity. */
  function Fresh(elems: seq<string>, cap: nat): seq<string>
    requires |elems| <= cap
  {
    elems + seq(cap - |elems|, _ => "")
  }

  /** Go's append of one element, header by header. */
  function AppendTo<K(==)>(mem: Memory<K>, key: K, value: string, grow: Growth): (mem': Memory<K>)
    requires Sound(mem) && key in mem.table && Grows(grow)
  {
    var s := mem.table[key];
    if HasRoom(mem.bufs, s) then
      Memory(mem.bufs[s.buf := mem.bufs[s.buf][s.len := value]], mem.table[key := View(s.buf, s.len + 1)])
    else
      var moved := Fresh(Read(mem.bufs, s) + [value], grow(Len(s)));
      Memory(mem.bufs + [moved], mem.table[key := View(|mem.bufs|, Len(s) + 1)])
  }

  lemma AppendKeepsSound<K>(mem: Memory<K>, key: K, value: string, grow: Growth)
    requires Sound(mem) && key in mem.table && Grows(grow)
    ensures Sound(AppendTo(mem, key, value, grow))
  {
    var mem' := AppendTo(mem, key, value, grow);
    assert forall b :: 0 <= b < |mem.bufs| ==> |mem'.bufs[b]| == |mem.bufs[b]|;
  }

  /** concordance.go:100-103 */
  function TouchSlice<K(==)>(mem: Memory<K>, key: K): Memory<K> {
    if key in mem.table then mem else mem.(table := mem.table[key := NilSlice])
  }

  /** concordance.go:111-114: the header is copied, not the elements. */
  function AliasSlice<K(==)>(mem: Memory<K>, key: K, alias: K): Memory<K>
    requires key in mem.table
  {
    if alias in mem.table then mem else mem.(table := mem.table[alias := mem.table[key]])
  }

  function SliceStep(mem: Memory<string>, r: Record, grow: Growth): (mem': Memory<string>)
    requires Sound(mem) && Grows(grow)
    ensures Sound(mem')
  {
    var touched := TouchSlice(mem, r.conceptID);
    if r.IsTme() then
      AppendKeepsSound(touched, r.conceptID, r.value, grow);
      AppendTo(touched, r.conceptID, r.value, grow)
    else if r.IsUpp() then AliasSlice(touched, r.conceptID, r.AliasKey())
    else touched
  }

  function Run(rs: seq<Record>, grow: Growth): (mem: Memory<string>)
    requires Grows(grow)
    ensures Sound(mem)
  {
    if rs == [] then Memory([], map[]) else SliceStep(Run(rs[..|rs| - 1], grow), rs[|rs| - 1], grow)
  }

  lemma RunSnoc(rs: seq<Record>, i: nat, grow: Growth)
    requires Grows(grow) && i < |rs|
    ensures Run(rs[..i + 1], grow) == SliceStep(Run(rs[..i], grow), rs[i], grow)
  {
    assert rs[..i + 1][..i] == rs[..i];
  }

  // ----- lineage: which keys can come to share a backing array -----

  /** Each key's lineage, numbered in order of appearance. */
  type Lineage<!K> = map<K, nat>

  function RootTouch<K(==)>(root: Lineage<K>, key: K): Lineage<K> {
    if key in root then root else root[key := |root|]
  }

  /** A key seeded with a non-empty list joins its source's lineage; any other key starts one. */
  function RootAlias<K(==)>(lists: Lists<K>, root: Lineage<K>, key: K, alias: K): Lineage<K>
    requires key in lists && key in root
  {
    if alias in root then root else root[alias := if lists[key] == [] then |root| else root[key]]
  }

  /** Numbers not yet given are free for the next lineage. */
  predicate Numbered<K(==)>(root: Lineage<K>) { forall k :: k in root ==> root[k] < |root| }

  function RootStep(m: ConceptMap, root: Lineage<string>, r: Record): Lineage<string> {
    var started := RootTouch(root, r.conceptID);
    if r.IsUpp() then RootAlias(Touch(m, r.conceptID), started, r.conceptID, r.AliasKey()) else started
  }

  function Roots(rs: seq<Record>): Lineage<string> {
    if rs == [] then map[]
    else var before := rs[..|rs| - 1]; RootStep(Fold(before), Roots(before), rs[|rs| - 1])
  }

  predicate Comparable(a: seq<string>, b: seq<string>) { a <= b || b <= a }

  /** No two keys of one lineage have parted ways. */
  predicate Together<K(==)>(lists: Lists<K>, root: Lineage<K>)
    requires lists.Keys == root.Keys
  {
    forall j, k :: j in lists && k in lists && root[j] == root[k] ==> Comparable(lists[j], lists[k])
  }

  lemma {:induction false} RootsKeys(rs: seq<Record>)
    ensures Roots(rs).Keys == Fold(rs).Keys
  {
    if rs != [] { RootsKeys(rs[..|rs| - 1]); }
  }

  /** The condition on the response, read off the value fold: within one lineage every two lists
      are prefixes one of the other. */
  predicate Compatible(rs: seq<Record>) {
    RootsKeys(rs);
    Together(Fold(rs), Roots(rs))
  }

  // ----- compatible responses: the shared arrays show the fold's lists -----

  /** Two headers on the same backing array. */
  predicate Shares(s: Slice, t: Slice) { s.View? && t.View? && s.buf == t.buf }

  /** Memory shows the lists, and only keys of one lineage share an array. */
  ghost predicate Shows<K>(mem: Memory<K>, lists: Lists<K>, root: Lineage<K>) {
    && Sound(mem)
    && mem.table.Keys == lists.Keys == root.Keys
    && (forall k :: k in lists ==> Read(mem.bufs, mem.table[k]) == lists[k])
    && (forall j, k :: j in lists && k in lists && Shares(mem.table[j], mem.table[k]) ==> root[j] == root[k])
  }

  lemma ShowsTouch<K>(mem: Memory<K>, lists: Lists<K>, root: Lineage<K>, key: K)
    requires Shows(mem, lists, root)
    ensures Shows(TouchSlice(mem, key), Touch(lists, key), RootTouch(root, key))
  {
  }

  lemma ShowsAlias<K>(mem: Memory<K>, lists: Lists<K>, root: Lineage<K>, key: K, alias: K)
    requires Shows(mem, lists, root) && key in lists
    ensures Shows(AliasSlice(mem, key, alias), Alias(lists, key, alias),
                  RootAlias(lists, root, key, alias))
  {
  }

  lemma ComparableParts(a: seq<string>, b: seq<string>, a': seq<string>, b': seq<string>)
    requires Comparable(a', b') && a <= a' && b <= b'
    ensures Comparable(a, b)
  {
    assert forall i :: 0 <= i < |a| ==> a[i] == a'[i];
    assert forall i :: 0 <= i < |b| ==> b[i] == b'[i];
    if |a| <= |b| {
      assert a == b[..|a|];
    } else {
      assert b == a[..|b|];
    }
  }

  /** Writing at the end of one view leaves another view of the array alone when the lists agree. */
  lemma WriteKeepsView(bufs: seq<seq<string>>, s: Slice, t: Slice, value: string)
    requires InBounds(bufs, s) && HasRoom(bufs, s) && InBounds(bufs, t) && Shares(s, t)
    requires Comparable(Read(bufs, s) + [value], Read(bufs, t))
    ensures var bufs' := bufs[s.buf := bufs[s.buf][s.len := value]];
            InBounds(bufs', t) && Read(bufs', t) == Read(bufs, t)
  {
    if t.len > s.len {
      assert Read(bufs, t)[s.len] == (Read(bufs, s) + [value])[s.len];
    }
  }

  lemma ReadAfterAppend<K>(mem: Memory<K>, lists: Lists<K>, root: Lineage<K>, key: K, value: string, grow: Growth, k: K)
    requires Shows(mem, lists, root) && key in lists && k in lists && Grows(grow)
    requires Together(Grow(lists, key, value), root)
    ensures var mem' := AppendTo(mem, key, value, grow);
            InBounds(mem'.bufs, mem'.table[k]) && Read(mem'.bufs, mem'.table[k]) == Grow(lists, key, value)[k]
  {
    AppendKeepsSound(mem, key, value, grow);
    var s := mem.table[key];
    if k != key && HasRoom(mem.bufs, s) && Shares(s, mem.table[k]) {
      assert Comparable(Grow(lists, key, value)[key], Grow(lists, key, value)[k]);
      WriteKeepsView(mem.bufs, s, mem.table[k], value);
    }
  }

  /** An append that keeps the lineage together overwrites nothing another key shows. */
  lemma ShowsAppend<K>(mem: Memory<K>, lists: Lists<K>, root: Lineage<K>, key: K, value: string, grow: Growth)
    requires Shows(mem, lists, root) && key in lists && Grows(grow)
    requires Together(Grow(lists, key, value), root)
    ensures Shows(AppendTo(mem, key, value, grow), Grow(lists, key, value), root)
  {
    AppendKeepsSound(mem, key, value, grow);
    var mem', lists' := AppendTo(mem, key, value, grow), Grow(lists, key, value);
    forall k | k in lists'
      ensures Read(mem'.bufs, mem'.table[k]) == lists'[k]
    {
      ReadAfterAppend(mem, lists, root, key, value, grow, k);
    }
  }

  /** The lists have grown and the lineages are as they were. */
  ghost predicate Grown<K>(lists: Lists<K>, root: Lineage<K>, lists': Lists<K>, root': Lineage<K>) {
    && lists.Keys == root.Keys && lists'.Keys == root'.Keys && lists.Keys <= lists'.Keys
    && forall k :: k in lists ==> lists[k] <= lists'[k] && root[k] == root'[k]
  }

  lemma TouchGrows<K>(lists: Lists<K>, root: Lineage<K>, key: K)
    requires lists.Keys == root.Keys
    ensures Grown(lists, root, Touch(lists, key), RootTouch(root, key))
  {
  }

  lemma AliasGrown<K>(lists: Lists<K>, root: Lineage<K>, key: K, alias: K)
    requires lists.Keys == root.Keys && key in lists
    ensures Grown(lists, root, Alias(lists, key, alias), RootAlias(lists, root, key, alias))
  {
  }

  lemma GrowGrows<K>(lists: Lists<K>, root: Lineage<K>, key: K, value: string)
    requires lists.Keys == root.Keys && key in lists
    ensures Grown(lists, root, Grow(lists, key, value), root)
  {
  }

  lemma GrownTwice<K>(l: Lists<K>, r: Lineage<K>, l': Lists<K>, r': Lineage<K>, l'': Lists<K>, r'': Lineage<K>)
    requires Grown(l, r, l', r') && Grown(l', r', l'', r'')
    ensures Grown(l, r, l'', r'')
  {
  }

  lemma StepGrows(m: ConceptMap, root: Lineage<string>, r: Record)
    requires m.Keys == root.Keys
    ensures Grown(m, root, Step(m, r), RootStep(m, root, r))
  {
    var m1, root1 := Touch(m, r.conceptID), RootTouch(root, r.conceptID);
    TouchGrows(m, root, r.conceptID);
    if r.IsTme() {
      GrowGrows(m1, root1, r.conceptID, r.value);
    } else if r.IsUpp() {
      AliasGrown(m1, root1, r.conceptID, r.AliasKey());
    } else {
      return;
    }
    GrownTwice(m, root, m1, root1, Step(m, r), RootStep(m, root, r));
  }

  lemma TogetherBefore<K>(lists: Lists<K>, root: Lineage<K>, lists': Lists<K>, root': Lineage<K>)
    requires Grown(lists, root, lists', root') && Together(lists', root')
    ensures Together(lists, root)
  {
    forall j, k | j in lists && k in lists && root[j] == root[k]
      ensures Comparable(lists[j], lists[k])
    {
      ComparableParts(lists[j], lists[k], lists'[j], lists'[k]);
    }
  }

  lemma ShowsStep(mem: Memory<string>, lists: ConceptMap, root: Lineage<string>, r: Record, grow: Growth)
    requires Shows(mem, lists, root) && Grows(grow)
    requires Step(lists, r).Keys == RootStep(lists, root, r).Keys && Together(Step(lists, r), RootStep(lists, root, r))
    ensures Shows(SliceStep(mem, r, grow), Step(lists, r), RootStep(lists, root, r))
  {
    ShowsTouch(mem, lists, root, r.conceptID);
    var mem1, lists1, root1 := TouchSlice(mem, r.conceptID), Touch(lists, r.conceptID), RootTouch(root, r.conceptID);
    if r.IsTme() {
      ShowsAppend(mem1, lists1, root1, r.conceptID, r.value, grow);
    } else if r.IsUpp() {
      ShowsAlias(mem1, lists1, root1, r.conceptID, r.AliasKey());
    }
  }

  lemma {:induction false} CompatibleShows(rs: seq<Record>, grow: Growth)
    requires Grows(grow) && Compatible(rs)
    ensures Shows(Run(rs, grow), Fold(rs), Roots(rs))
  {
    if rs != [] {
      var before, r := rs[..|rs| - 1], rs[|rs| - 1];
      RootsKeys(before);
      RootsKeys(rs);
      StepGrows(Fold(before), Roots(before), r);
      TogetherBefore(Fold(before), Roots(before), Fold(rs), Roots(rs));
      CompatibleShows(before, grow);
      ShowsStep(Run(before, grow), Fold(before), Roots(before), r, grow);
    }
  }

  // ----- incompatible responses: roomy arrays show the difference -----

  /** A growth that never fills up: n records append at most n elements. */
  function Roomy(n: nat): Growth { cap => cap + n + 1 }

  /** A header under roomy growth: as long as its list, with room for the records to come. */
  predicate HasHeadroom<K(==)>(mem: Memory<K>, s: Slice, length: nat, total: nat)
    requires InBounds(mem.bufs, s)
  {
    Len(s) == length && (s.View? ==> |mem.bufs[s.buf]| > total)
  }

  /** Two keys of one lineage are on one array; so a key with no array is alone in its own. */
  ghost predicate Bound<K>(mem: Memory<K>, root: Lineage<K>, j: K, k: K)
    requires mem.table.Keys == root.Keys && j in root && k in root
  {
    root[j] == root[k] && j != k ==> Shares(mem.table[j], mem.table[k])
  }

  /** Under roomy growth a lineage has one backing array. */
  ghost predicate OneArray<K>(mem: Memory<K>, lists: Lists<K>, root: Lineage<K>, done: nat, total: nat) {
    && Sound(mem) && Numbered(root)
    && mem.table.Keys == lists.Keys == root.Keys
    && (forall k :: k in lists ==> |lists[k]| <= done && HasHeadroom(mem, mem.table[k], |lists[k]|, total))
    && (forall j, k {:trigger Bound(mem, root, j, k)} :: j in lists && k in lists ==> Bound(mem, root, j, k))
  }

  lemma BoundAfterTouch<K>(mem: Memory<K>, root: Lineage<K>, key: K, j: K, k: K)
    requires mem.table.Keys == root.Keys && Numbered(root)
    requires j in RootTouch(root, key) && k in RootTouch(root, key)
    requires j in root && k in root ==> Bound(mem, root, j, k)
    ensures TouchSlice(mem, key).table.Keys == RootTouch(root, key).Keys
    ensures Bound(TouchSlice(mem, key), RootTouch(root, key), j, k)
  {
  }

  lemma OneArrayTouch<K>(mem: Memory<K>, lists: Lists<K>, root: Lineage<K>, done: nat, total: nat, key: K)
    requires OneArray(mem, lists, root, done, total)
    ensures OneArray(TouchSlice(mem, key), Touch(lists, key), RootTouch(root, key), done, total)
  {
    forall j, k | j in Touch(lists, key) && k in Touch(lists, key)
      ensures Bound(TouchSlice(mem, key), RootTouch(root, key), j, k)
    {
      assert j in lists && k in lists ==> Bound(mem, root, j, k);
      BoundAfterTouch(mem, root, key, j, k);
    }
  }

  lemma BoundAfterAlias<K>(mem: Memory<K>, lists: Lists<K>, root: Lineage<K>, done: nat, total: nat, key: K, alias: K,
                           j: K, k: K)
    requires OneArray(mem, lists, root, done, total) && key in lists && alias !in lists
    requires (j in lists || j == alias) && (k in lists || k == alias)
    ensures AliasSlice(mem, key, alias).table.Keys == RootAlias(lists, root, key, alias).Keys
    ensures j in RootAlias(lists, root, key, alias) && k in RootAlias(lists, root, key, alias)
    ensures Bound(AliasSlice(mem, key, alias), RootAlias(lists, root, key, alias), j, k)
  {
    assert HasHeadroom(mem, mem.table[key], |lists[key]|, total);
    assert Bound(mem, root, if j in lists then j else key, if k in lists then k else key);
  }

  lemma OneArrayAlias<K>(mem: Memory<K>, lists: Lists<K>, root: Lineage<K>, done: nat, total: nat, key: K, alias: K)
    requires OneArray(mem, lists, root, done, total) && key in lists
    ensures OneArray(AliasSlice(mem, key, alias), Alias(lists, key, alias), RootAlias(lists, root, key, alias),
                     done, total)
  {
    assert HasHeadroom(mem, mem.table[key], |lists[key]|, total);
    if alias !in lists {
      forall j, k | j in Alias(lists, key, alias) && k in Alias(lists, key, alias)
        ensures Bound(AliasSlice(mem, key, alias), RootAlias(lists, root, key, alias), j, k)
      {
        BoundAfterAlias(mem, lists, root, done, total, key, alias, j, k);
      }
    }
  }

  lemma HeadroomAfterAppend<K>(mem: Memory<K>, lists: Lists<K>, root: Lineage<K>, done: nat, total: nat,
                               key: K, value: string, mem': Memory<K>, lists': Lists<K>, k: K)
    requires OneArray(mem, lists, root, done, total) && key in lists && k in lists && done < total
    requires mem' == AppendTo(mem, key, value, Roomy(total)) && lists' == Grow(lists, key, value)
    ensures k in mem'.table && InBounds(mem'.bufs, mem'.table[k])
    ensures HasHeadroom(mem', mem'.table[k], |lists'[k]|, total)
  {
    assert HasHeadroom(mem, mem.table[key], |lists[key]|, total);
    assert HasHeadroom(mem, mem.table[k], |lists[k]|, total);
    AppendKeepsSound(mem, key, value, Roomy(total));
  }

  lemma SharesAfterAppend<K>(mem: Memory<K>, lists: Lists<K>, root: Lineage<K>, done: nat, total: nat,
                             key: K, value: string, mem': Memory<K>, j: K, k: K)
    requires OneArray(mem, lists, root, done, total) && key in lists && done < total
    requires mem' == AppendTo(mem, key, value, Roomy(total))
    requires j in lists && k in lists && root[j] == root[k] && j != k
    ensures j in mem'.table && k in mem'.table && Shares(mem'.table[j], mem'.table[k])
  {
    assert HasHeadroom(mem, mem.table[key], |lists[key]|, total);
    assert Bound(mem, root, j, k);
  }

  lemma OneArrayAppend<K>(mem: Memory<K>, lists: Lists<K>, root: Lineage<K>, done: nat, total: nat, key: K,
                          value: string,
                          mem': Memory<K>, lists': Lists<K>)
    requires OneArray(mem, lists, root, done, total) && key in lists && done < total
    requires mem' == AppendTo(mem, key, value, Roomy(total)) && lists' == Grow(lists, key, value)
    ensures OneArray(mem', lists', root, done + 1, total)
  {
    AppendKeepsSound(mem, key, value, Roomy(total));
    forall k | k in lists' ensures |lists'[k]| <= done + 1 && HasHeadroom(mem', mem'.table[k], |lists'[k]|, total) {
      HeadroomAfterAppend(mem, lists, root, done, total, key, value, mem', lists', k);
    }
    forall j, k | j in lists' && k in lists' ensures Bound(mem', root, j, k) {
      if root[j] == root[k] && j != k {
        SharesAfterAppend(mem, lists, root, done, total, key, value, mem', j, k);
      }
    }
  }

  lemma OneArrayStep(mem: Memory<string>, lists: ConceptMap, root: Lineage<string>, done: nat, total: nat, r: Record)
    requires OneArray(mem, lists, root, done, total) && done < total
    ensures OneArray(SliceStep(mem, r, Roomy(total)), Step(lists, r), RootStep(lists, root, r), done + 1, total)
  {
    OneArrayTouch(mem, lists, root, done, total, r.conceptID);
    var mem1, lists1, root1 := TouchSlice(mem, r.conceptID), Touch(lists, r.conceptID), RootTouch(root, r.conceptID);
    if r.IsTme() {
      OneArrayAppend(mem1, lists1, root1, done, total, r.conceptID, r.value,
                     AppendTo(mem1, r.conceptID, r.value, Roomy(total)), Grow(lists1, r.conceptID, r.value));
    } else if r.IsUpp() {
      OneArrayAlias(mem1, lists1, root1, done, total, r.conceptID, r.AliasKey());
    }
  }

  lemma {:induction false} RoomyRun(rs: seq<Record>, total: nat)
    requires |rs| <= total
    ensures OneArray(Run(rs, Roomy(total)), Fold(rs), Roots(rs), |rs|, total)
  {
    if rs != [] {
      var before := rs[..|rs| - 1];
      RoomyRun(before, total);
      OneArrayStep(Run(before, Roomy(total)), Fold(before), Roots(before), |before|, total, rs[|rs| - 1]);
    }
  }

  lemma OneArrayTogether<K>(mem: Memory<K>, lists: Lists<K>, root: Lineage<K>, done: nat, total: nat)
    requires OneArray(mem, lists, root, done, total)
    requires Views(mem) == lists
    ensures Together(lists, root)
  {
    forall j, k | j in lists && k in lists && root[j] == root[k]
      ensures Comparable(lists[j], lists[k])
    {
      assert lists[j] == Read(mem.bufs, mem.table[j]) && lists[k] == Read(mem.bufs, mem.table[k]);
      if j != k {
        assert Bound(mem, root, j, k);
        var buf := mem.bufs[mem.table[j].buf];
        ComparableParts(lists[j], lists[k], buf, buf);
      }
    }
  }

  /** The shared slices give every key the fold's list, however Go grows its arrays, exactly for
      compatible responses. */
  lemma SharingIsInvisibleIff(rs: seq<Record>)
    ensures (forall grow: Growth :: Grows(grow) ==> Views(Run(rs, grow)) == Fold(rs)) <==> Compatible(rs)
  {
    RootsKeys(rs);
    if Compatible(rs) {
      forall grow: Growth | Grows(grow)
        ensures Views(Run(rs, grow)) == Fold(rs)
      {
        CompatibleShows(rs, grow);
      }
    } else if Views(Run(rs, Roomy(|rs|))) == Fold(rs) {
      RoomyRun(rs, |rs|);
      OneArrayTogether(Run(rs, Roomy(|rs|)), Fold(rs), Roots(rs), |rs|, |rs|);
      assert false;
    }
  }

  // ----- a guard on the response that is enough -----

  /** No alias key created by one record is the concept of a later TME record. */
  predicate NoAliasGrows(rs: seq<Record>) {
    forall i, j :: 0 <= i < j < |rs| && CreatesAlias(rs, i) ==>
      !(rs[j].IsTme() && rs[j].conceptID == rs[i].AliasKey())
  }

  /** Two keys of one lineage have not parted, and a lineage's owner, the key touched as a concept,
      is ahead of every list seeded from it. */
  ghost predicate InLine<K>(lists: Lists<K>, root: Lineage<K>, owners: set<K>, j: K, k: K)
    requires lists.Keys == root.Keys && j in lists && k in lists
  {
    root[j] == root[k] ==>
      && Comparable(lists[j], lists[k])
      && (k in owners ==> lists[j] <= lists[k] && (j in owners ==> j == k))
  }

  ghost predicate OwnersLead<K>(lists: Lists<K>, root: Lineage<K>, owners: set<K>) {
    && lists.Keys == root.Keys && owners <= lists.Keys && Numbered(root)
    && (forall j, k {:trigger InLine(lists, root, owners, j, k)} :: j in lists && k in lists ==>
          InLine(lists, root, owners, j, k))
  }

  lemma OwnersLeadTouch<K>(lists: Lists<K>, root: Lineage<K>, owners: set<K>, key: K)
    requires OwnersLead(lists, root, owners)
    ensures OwnersLead(Touch(lists, key), RootTouch(root, key), if key in lists then owners else owners + {key})
  {
    var owners' := if key in lists then owners else owners + {key};
    forall j, k | j in Touch(lists, key) && k in Touch(lists, key)
      ensures InLine(Touch(lists, key), RootTouch(root, key), owners', j, k)
    {
      assert j in lists && k in lists ==> InLine(lists, root, owners, j, k);
    }
  }

  lemma OwnersLeadAlias<K>(lists: Lists<K>, root: Lineage<K>, owners: set<K>, key: K, alias: K)
    requires OwnersLead(lists, root, owners) && key in lists
    ensures OwnersLead(Alias(lists, key, alias), RootAlias(lists, root, key, alias), owners)
  {
    forall j, k | j in Alias(lists, key, alias) && k in Alias(lists, key, alias)
      ensures InLine(Alias(lists, key, alias), RootAlias(lists, root, key, alias), owners, j, k)
    {
      assert InLine(lists, root, owners, if j in lists then j else key, if k in lists then k else key);
    }
  }

  lemma OwnersLeadGrow<K>(lists: Lists<K>, root: Lineage<K>, owners: set<K>, key: K, value: string)
    requires OwnersLead(lists, root, owners) && key in owners
    ensures OwnersLead(Grow(lists, key, value), root, owners)
  {
    forall j, k | j in lists && k in lists
      ensures InLine(Grow(lists, key, value), root, owners, j, k)
    {
      assert InLine(lists, root, owners, j, k) && InLine(lists, root, owners, k, j);
    }
  }

  lemma OwnersLeadTogether<K>(lists: Lists<K>, root: Lineage<K>, owners: set<K>)
    requires OwnersLead(lists, root, owners)
    ensures lists.Keys == root.Keys && Together(lists, root)
  {
    forall j, k | j in lists && k in lists && root[j] == root[k]
      ensures Comparable(lists[j], lists[k])
    {
      assert InLine(lists, root, owners, j, k);
    }
  }

  /** The keys first mentioned as a concept. */
  ghost function Owners(rs: seq<Record>): set<string> {
    set k | k in Fold(rs) && FirstMention(rs, k) < |rs| && rs[FirstMention(rs, k)].conceptID == k
  }

  lemma OwnersSnoc(rs: seq<Record>)
    requires rs != []
    ensures var before, r := rs[..|rs| - 1], rs[|rs| - 1];
            Owners(rs) == if r.conceptID in Fold(before) then Owners(before) else Owners(before) + {r.conceptID}
  {
    var n := |rs| - 1;
    var before, r := rs[..n], rs[n];
    ConceptMapExact(before);
    ConceptMapExact(rs);
    forall k
      ensures k in Owners(rs) <==> k in Owners(before) || (k == r.conceptID && k !in Fold(before))
    {
      assert ExactAt(before, Fold(before), k) && ExactAt(rs, Fold(rs), k);
    }
  }

  /** A TME record's concept is an owner unless an earlier record created it as an alias. */
  lemma TmeConceptIsOwner(rs: seq<Record>)
    requires rs != [] && NoAliasGrows(rs) && rs[|rs| - 1].IsTme()
    ensures rs[|rs| - 1].conceptID in Owners(rs)
  {
    var n := |rs| - 1;
    var key := rs[n].conceptID;
    assert rs[n].Mentions(key);
    var i := FirstMention(rs, key);
    ConceptMapExact(rs);
    assert ExactAt(rs, Fold(rs), key);
    assert rs[i].conceptID == key by {
      assert i <= n;
      assert i < n && CreatesAlias(rs, i) ==> rs[i].AliasKey() != key;
    }
  }

  lemma NoAliasGrowsBefore(rs: seq<Record>)
    requires rs != [] && NoAliasGrows(rs)
    ensures NoAliasGrows(rs[..|rs| - 1])
  {
    var before := rs[..|rs| - 1];
    forall i, j | 0 <= i < j < |before| && CreatesAlias(before, i)
      ensures !(before[j].IsTme() && before[j].conceptID == before[i].AliasKey())
    {
      FirstMentionIs(rs, rs[i].AliasKey(), i);
      assert CreatesAlias(rs, i);
    }
  }

  lemma {:induction false} NoAliasGrowsLeads(rs: seq<Record>)
    requires NoAliasGrows(rs)
    ensures OwnersLead(Fold(rs), Roots(rs), Owners(rs))
  {
    if rs != [] {
      var before, r := rs[..|rs| - 1], rs[|rs| - 1];
      NoAliasGrowsBefore(rs);
      NoAliasGrowsLeads(before);
      OwnersSnoc(rs);
      OwnersLeadTouch(Fold(before), Roots(before), Owners(before), r.conceptID);
      var lists, root := Touch(Fold(before), r.conceptID), RootTouch(Roots(before), r.conceptID);
      if r.IsTme() {
        TmeConceptIsOwner(rs);
        OwnersLeadGrow(lists, root, Owners(rs), r.conceptID, r.value);
      } else if r.IsUpp() {
        OwnersLeadAlias(lists, root, Owners(rs), r.conceptID, r.AliasKey());
      }
    }
  }

  /** When no alias collects TME values of its own, sharing is invisible. */
  lemma NoAliasGrowsIsCompatible(rs: seq<Record>)
    requires NoAliasGrows(rs)
    ensures Compatible(rs)
  {
    NoAliasGrowsLeads(rs);
    OwnersLeadTogether(Fold(rs), Roots(rs), Owners(rs));
  }

  // ----- a response on which sharing shows -----

  /** What append does to small arrays. */
  function Doubling(): (grow: Growth)
    ensures Grows(grow)
  {
    cap => if cap == 0 then 1 else 2 * cap
  }

  /** Three TME IDs for a concept, an alias of it, one more ID for the concept, one for the alias. */
  function ClashingResponse(c: string, ids: seq<string>, x: string, own: string, other: string): seq<Record>
    requires |ids| == 3
  {
    [Record(c, FtTme, ids[0]), Record(c, FtTme, ids[1]), Record(c, FtTme, ids[2]), Record(c, Upp, x),
     Record(c, FtTme, own), Record(THING_URI_PREFIX + x, FtTme, other)]
  }

  /** Three appends fill three of four slots. */
  lemma ThreeAppends<K>(c: K, ids: seq<string>)
    requires |ids| == 3
    ensures var m0 := Memory([], map[c := NilSlice]);
            var m1 := AppendTo(m0, c, ids[0], Doubling());
            Sound(m1) && c in m1.table &&
            var m2 := AppendTo(m1, c, ids[1], Doubling());
            Sound(m2) && c in m2.table &&
            AppendTo(m2, c, ids[2], Doubling()) == Memory([ids[..1], ids[..2], ids + [""]], map[c := View(2, 3)])
  {
    var m0 := Memory([], map[c := NilSlice]);
    var m1 := AppendTo(m0, c, ids[0], Doubling());
    assert m1 == Memory([ids[..1]], map[c := View(0, 1)]) by {
      assert Fresh(Read(m0.bufs, NilSlice) + [ids[0]], 1) == ids[..1];
    }
    var m2 := AppendTo(m1, c, ids[1], Doubling());
    assert m2 == Memory([ids[..1], ids[..2]], map[c := View(1, 2)]) by {
      assert Fresh(ids[..1][..1] + [ids[1]], 2) == ids[..2];
    }
    assert Fresh(ids[..2][..2] + [ids[2]], 4) == ids + [""];
  }

  lemma ThreeIDs(c: string, ids: seq<string>, rs: seq<Record>)
    requires |ids| == 3 && |rs| >= 3
    requires forall i :: 0 <= i < 3 ==> rs[i] == Record(c, FtTme, ids[i])
    ensures Run(rs[..3], Doubling()) == Memory([ids[..1], ids[..2], ids + [""]], map[c := View(2, 3)])
  {
    assert Run(rs[..0], Doubling()) == Memory([], map[]);
    RunSnoc(rs, 0, Doubling());
    RunSnoc(rs, 1, Doubling());
    RunSnoc(rs, 2, Doubling());
    ThreeAppends(c, ids);
  }

  lemma TwoWrites<K>(c: K, a: K, b: seq<string>, rest: seq<seq<string>>, own: string, other: string)
    requires c != a && |b| == 4
    ensures var shared := Memory(rest + [b], map[c := View(|rest|, 3), a := View(|rest|, 3)]);
            var first := AppendTo(shared, c, own, Doubling());
            Sound(first) && a in first.table &&
            AppendTo(first, a, other, Doubling()) ==
              Memory(rest + [b[3 := other]], map[c := View(|rest|, 4), a := View(|rest|, 4)])
  {
    var first := AppendTo(Memory(rest + [b], map[c := View(|rest|, 3), a := View(|rest|, 3)]), c, own, Doubling());
    assert first.bufs == rest + [b[3 := own]];
    assert b[3 := own][3 := other] == b[3 := other];
  }

  lemma ClashShared(c: string, ids: seq<string>, x: string, own: string, other: string)
    requires |ids| == 3 && c != THING_URI_PREFIX + x
    ensures Run(ClashingResponse(c, ids, x, own, other)[..4], Doubling()) ==
            Memory([ids[..1], ids[..2]] + [ids + [""]], map[c := View(2, 3), THING_URI_PREFIX + x := View(2, 3)])
  {
    var rs := ClashingResponse(c, ids, x, own, other);
    assert [ids[..1], ids[..2]] + [ids + [""]] == [ids[..1], ids[..2], ids + [""]];
    ThreeIDs(c, ids, rs);
    RunSnoc(rs, 3, Doubling());
  }

  lemma ClashLastTwo(c: string, ids: seq<string>, x: string, own: string, other: string)
    requires |ids| == 3 && c != THING_URI_PREFIX + x
    ensures Run(ClashingResponse(c, ids, x, own, other), Doubling()) ==
            Memory([ids[..1], ids[..2]] + [(ids + [""])[3 := other]],
                   map[c := View(2, 4), THING_URI_PREFIX + x := View(2, 4)])
  {
    var rs := ClashingResponse(c, ids, x, own, other);
    ClashShared(c, ids, x, own, other);
    RunSnoc(rs, 4, Doubling());
    RunSnoc(rs, 5, Doubling());
    assert rs[..6] == rs;
    TwoWrites(c, THING_URI_PREFIX + x, ids + [""], [ids[..1], ids[..2]], own, other);
  }

  /** The concept shows the alias's last ID in the place of its own. */
  lemma ClashRun(c: string, ids: seq<string>, x: string, own: string, other: string)
    requires |ids| == 3 && c != THING_URI_PREFIX + x
    ensures var m := Run(ClashingResponse(c, ids, x, own, other), Doubling());
            c in Views(m) && Views(m)[c] == ids + [other]
  {
    ClashLastTwo(c, ids, x, own, other);
    assert (ids + [""])[3 := other] == ids + [other];
  }

  lemma ClashFold(c: string, ids: seq<string>, x: string, own: string, other: string)
    requires |ids| == 3 && c != THING_URI_PREFIX + x
    ensures var m := Fold(ClashingResponse(c, ids, x, own, other)); c in m && m[c] == ids + [own]
  {
    var rs, a := ClashingResponse(c, ids, x, own, other), THING_URI_PREFIX + x;
    assert rs[..1][..0] == [] && rs[..2][..1] == rs[..1] && rs[..3][..2] == rs[..2];
    assert rs[..4][..3] == rs[..3] && rs[..5][..4] == rs[..4] && rs[..5] == rs[..|rs| - 1];
    assert Fold(rs[..1])[c] == ids[..1];
    assert Fold(rs[..2])[c] == ids[..2];
    assert Fold(rs[..3])[c] == ids;
    assert Fold(rs[..4])[c] == ids;
    assert Fold(rs[..5])[c] == ids + [own];
  }

  /** Every such response shows a wrong list once the two last IDs differ. */
  lemma SharingCanShow(c: string, ids: seq<string>, x: string, own: string, other: string)
    requires |ids| == 3 && c != THING_URI_PREFIX + x && own != other
    ensures var rs := ClashingResponse(c, ids, x, own, other); Views(Run(rs, Doubling())) != Fold(rs)
    ensures !Compatible(ClashingResponse(c, ids, x, own, other))
  {
    ClashRun(c, ids, x, own, other);
    ClashFold(c, ids, x, own, other);
    assert (ids + [own])[3] != (ids + [other])[3];
    SharingIsInvisibleIff(ClashingResponse(c, ids, x, own, other));
  }
}
