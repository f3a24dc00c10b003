/** Where the IDs come from that Go's shared slices show under a key, however arrays grow. */
module SliceProvenance {
  import opened Concordance
  import opened SliceMemory

  /** The ID stands at this place in the list of some key of the lineage. */
  ghost predicate Listed<K>(lists: Lists<K>, root: Lineage<K>, line: nat, place: nat, id: string)
    requires lists.Keys == root.Keys
  {
    exists m :: m in lists && root[m] == line && place < |lists[m]| && lists[m][place] == id
  }

  /** Everything shown under the key is listed, in its place, in the key's lineage. */
  ghost predicate ShowsLineage<K>(mem: Memory<K>, lists: Lists<K>, root: Lineage<K>, key: K)
    requires lists.Keys == root.Keys && key in lists && key in mem.table && InBounds(mem.bufs, mem.table[key])
  {
    var shown := Read(mem.bufs, mem.table[key]);
    |shown| == |lists[key]| && forall p :: 0 <= p < |shown| ==> Listed(lists, root, root[key], p, shown[p])
  }

  /** Two keys on one array are of one lineage. */
  ghost predicate InOneLine<K>(mem: Memory<K>, root: Lineage<K>, j: K, k: K)
    requires mem.table.Keys == root.Keys && j in root && k in root
  {
    Shares(mem.table[j], mem.table[k]) ==> root[j] == root[k]
  }

  /** Only keys of one lineage share an array. */
  ghost predicate Lines<K>(mem: Memory<K>, lists: Lists<K>, root: Lineage<K>) {
    && Sound(mem) && Numbered(root)
    && mem.table.Keys == lists.Keys == root.Keys
    && (forall j, k {:trigger InOneLine(mem, root, j, k)} :: j in root && k in root ==> InOneLine(mem, root, j, k))
  }

  /** Kept by every step, whether or not lists part ways. */
  ghost predicate LineageShown<K>(mem: Memory<K>, lists: Lists<K>, root: Lineage<K>) {
    Lines(mem, lists, root) && forall k :: k in lists ==> ShowsLineage(mem, lists, root, k)
  }

  lemma ListedStays<K>(lists: Lists<K>, root: Lineage<K>, lists': Lists<K>, root': Lineage<K>, line: nat, place: nat,
                       id: string)
    requires Grown(lists, root, lists', root') && Listed(lists, root, line, place, id)
    ensures Listed(lists', root', line, place, id)
  {
    var m :| m in lists && root[m] == line && place < |lists[m]| && lists[m][place] == id;
    assert lists'[m][place] == id;
  }

  /** A key that shows what another key of the same lineage showed is fine. */
  lemma ShowsStays<K>(mem: Memory<K>, lists: Lists<K>, root: Lineage<K>, from: K,
                      mem': Memory<K>, lists': Lists<K>, root': Lineage<K>, k: K)
    requires Grown(lists, root, lists', root') && from in lists && from in mem.table &&
             InBounds(mem.bufs, mem.table[from])
    requires k in lists' && k in mem'.table && InBounds(mem'.bufs, mem'.table[k])
    requires ShowsLineage(mem, lists, root, from)
    requires Read(mem'.bufs, mem'.table[k]) == Read(mem.bufs, mem.table[from])
    requires lists'[k] == lists[from] && (lists[from] != [] ==> root'[k] == root[from])
    ensures ShowsLineage(mem', lists', root', k)
  {
    var shown := Read(mem.bufs, mem.table[from]);
    forall p | 0 <= p < |shown| ensures Listed(lists', root', root'[k], p, shown[p]) {
      ListedStays(lists, root, lists', root', root[from], p, shown[p]);
    }
  }

  lemma LinesTouch<K>(mem: Memory<K>, lists: Lists<K>, root: Lineage<K>, key: K)
    requires Lines(mem, lists, root)
    ensures Lines(TouchSlice(mem, key), Touch(lists, key), RootTouch(root, key))
    ensures Grown(lists, root, Touch(lists, key), RootTouch(root, key))
  {
    forall j, k | j in RootTouch(root, key) && k in RootTouch(root, key)
      ensures InOneLine(TouchSlice(mem, key), RootTouch(root, key), j, k)
    {
      assert j in root && k in root ==> InOneLine(mem, root, j, k);
    }
  }

  lemma LineageTouch<K>(mem: Memory<K>, lists: Lists<K>, root: Lineage<K>, key: K)
    requires LineageShown(mem, lists, root)
    ensures LineageShown(TouchSlice(mem, key), Touch(lists, key), RootTouch(root, key))
  {
    var mem', lists', root' := TouchSlice(mem, key), Touch(lists, key), RootTouch(root, key);
    LinesTouch(mem, lists, root, key);
    forall k | k in lists' ensures ShowsLineage(mem', lists', root', k) {
      if k in lists {
        ShowsStays(mem, lists, root, k, mem', lists', root', k);
      }
    }
  }

  lemma LinesAlias<K>(mem: Memory<K>, lists: Lists<K>, root: Lineage<K>, key: K, alias: K)
    requires Lines(mem, lists, root) && key in lists && |Read(mem.bufs, mem.table[key])| == |lists[key]|
    ensures Lines(AliasSlice(mem, key, alias), Alias(lists, key, alias), RootAlias(lists, root, key, alias))
    ensures Grown(lists, root, Alias(lists, key, alias), RootAlias(lists, root, key, alias))
  {
    var mem', root' := AliasSlice(mem, key, alias), RootAlias(lists, root, key, alias);
    forall j, k | j in root' && k in root' ensures InOneLine(mem', root', j, k) {
      assert InOneLine(mem, root, if j in root then j else key, if k in root then k else key);
    }
  }

  lemma LineageAlias<K>(mem: Memory<K>, lists: Lists<K>, root: Lineage<K>, key: K, alias: K)
    requires LineageShown(mem, lists, root) && key in lists
    ensures LineageShown(AliasSlice(mem, key, alias), Alias(lists, key, alias), RootAlias(lists, root, key, alias))
  {
    var mem', lists' := AliasSlice(mem, key, alias), Alias(lists, key, alias);
    var root' := RootAlias(lists, root, key, alias);
    assert ShowsLineage(mem, lists, root, key);
    LinesAlias(mem, lists, root, key, alias);
    forall k | k in lists' ensures ShowsLineage(mem', lists', root', k) {
      ShowsStays(mem, lists, root, if k in lists then k else key, mem', lists', root', k);
    }
  }

  /** What a key shows after an append under `key`. */
  lemma ShownAfterAppend<K>(mem: Memory<K>, key: K, value: string, grow: Growth, k: K)
    requires Sound(mem) && key in mem.table && k in mem.table && Grows(grow)
    ensures var mem', was := AppendTo(mem, key, value, grow), Read(mem.bufs, mem.table[k]);
            k in mem'.table && InBounds(mem'.bufs, mem'.table[k]) &&
            var shown, end := Read(mem'.bufs, mem'.table[k]), Len(mem.table[key]);
            && |shown| == (if k == key then |was| + 1 else |was|)
            && (forall p :: 0 <= p < |shown| ==>
                  (p < |was| && shown[p] == was[p]) ||
                  (p == end && shown[p] == value && (k == key || Shares(mem.table[key], mem.table[k]))))
  {
    AppendKeepsSound(mem, key, value, grow);
  }

  lemma LinesAppend<K>(mem: Memory<K>, lists: Lists<K>, root: Lineage<K>, key: K, value: string, grow: Growth)
    requires Lines(mem, lists, root) && key in lists && Grows(grow)
    ensures Lines(AppendTo(mem, key, value, grow), Grow(lists, key, value), root)
    ensures Grown(lists, root, Grow(lists, key, value), root)
  {
    AppendKeepsSound(mem, key, value, grow);
    forall j, k | j in root && k in root ensures InOneLine(AppendTo(mem, key, value, grow), root, j, k) {
      assert InOneLine(mem, root, j, k);
    }
  }

  lemma LineageAfterAppend<K>(mem: Memory<K>, lists: Lists<K>, root: Lineage<K>, key: K, value: string, grow: Growth,
                              mem': Memory<K>, lists': Lists<K>, k: K)
    requires LineageShown(mem, lists, root) && key in lists && k in lists && Grows(grow)
    requires mem' == AppendTo(mem, key, value, grow) && lists' == Grow(lists, key, value)
    ensures k in mem'.table && InBounds(mem'.bufs, mem'.table[k]) && ShowsLineage(mem', lists', root, k)
  {
    assert ShowsLineage(mem, lists, root, key) && ShowsLineage(mem, lists, root, k);
    ShownAfterAppend(mem, key, value, grow, k);
    var was, shown := Read(mem.bufs, mem.table[k]), Read(mem'.bufs, mem'.table[k]);
    forall p | 0 <= p < |shown| ensures Listed(lists', root, root[k], p, shown[p]) {
      if p < |was| && shown[p] == was[p] {
        ListedStays(lists, root, lists', root, root[k], p, shown[p]);
      } else {
        assert InOneLine(mem, root, key, k);
        assert root[key] == root[k] && lists'[key][p] == value;
      }
    }
  }

  lemma LineageAppend<K>(mem: Memory<K>, lists: Lists<K>, root: Lineage<K>, key: K, value: string, grow: Growth)
    requires LineageShown(mem, lists, root) && key in lists && Grows(grow)
    ensures LineageShown(AppendTo(mem, key, value, grow), Grow(lists, key, value), root)
  {
    var mem', lists' := AppendTo(mem, key, value, grow), Grow(lists, key, value);
    LinesAppend(mem, lists, root, key, value, grow);
    forall k | k in lists' ensures ShowsLineage(mem', lists', root, k) {
      LineageAfterAppend(mem, lists, root, key, value, grow, mem', lists', k);
    }
  }

  lemma LineageStep(mem: Memory<string>, lists: ConceptMap, root: Lineage<string>, r: Record, grow: Growth)
    requires LineageShown(mem, lists, root) && Grows(grow)
    ensures LineageShown(SliceStep(mem, r, grow), Step(lists, r), RootStep(lists, root, r))
  {
    LineageTouch(mem, lists, root, r.conceptID);
    var mem1, lists1, root1 := TouchSlice(mem, r.conceptID), Touch(lists, r.conceptID), RootTouch(root, r.conceptID);
    if r.IsTme() {
      LineageAppend(mem1, lists1, root1, r.conceptID, r.value, grow);
    } else if r.IsUpp() {
      LineageAlias(mem1, lists1, root1, r.conceptID, r.AliasKey());
    }
  }

  /** Whatever the response and the growth, each key shows as many IDs as it lists, and each of them
      stands at the same place in the list of a key of its lineage. */
  lemma {:induction false} RunShowsLineage(rs: seq<Record>, grow: Growth)
    requires Grows(grow)
    ensures LineageShown(Run(rs, grow), Fold(rs), Roots(rs))
  {
    if rs != [] {
      var before := rs[..|rs| - 1];
      RunShowsLineage(before, grow);
      LineageStep(Run(before, grow), Fold(before), Roots(before), rs[|rs| - 1], grow);
    }
  }

  // ----- the records behind the IDs -----

  /** Some TME record about a key of the same lineage has the value `id`. */
  ghost predicate FromLineage(rs: seq<Record>, key: string, id: string) {
    exists j :: 0 <= j < |rs| && OfLineage(rs, j, key) && rs[j].value == id
  }

  predicate OfLineage(rs: seq<Record>, j: nat, key: string)
    requires j < |rs|
  {
    var root := Roots(rs);
    rs[j].IsTme() && key in root && rs[j].conceptID in root && root[rs[j].conceptID] == root[key]
  }

  lemma RootsStay(rs: seq<Record>, key: string)
    requires rs != [] && key in Roots(rs[..|rs| - 1])
    ensures key in Roots(rs) && Roots(rs)[key] == Roots(rs[..|rs| - 1])[key]
  {
    var before := rs[..|rs| - 1];
    RootsKeys(before);
    StepGrows(Fold(before), Roots(before), rs[|rs| - 1]);
  }

  lemma FromLineageStays(rs: seq<Record>, key: string, id: string)
    requires rs != [] && FromLineage(rs[..|rs| - 1], key, id)
    ensures FromLineage(rs, key, id)
  {
    var before := rs[..|rs| - 1];
    var j :| 0 <= j < |before| && OfLineage(before, j, key) && before[j].value == id;
    RootsStay(rs, key);
    RootsStay(rs, rs[j].conceptID);
    assert OfLineage(rs, j, key);
  }

  /** An alias that starts with an ID joins the lineage of its concept. */
  lemma RootAliasJoins<K>(lists: Lists<K>, root: Lineage<K>, key: K, alias: K)
    requires key in lists && key in root && alias !in root && lists[key] != []
    ensures key in RootAlias(lists, root, key, alias) && alias in RootAlias(lists, root, key, alias)
    ensures RootAlias(lists, root, key, alias)[alias] == root[key] == RootAlias(lists, root, key, alias)[key]
  {
  }

  /** The only key a record that is not TME gives a list is an alias, and the list is its concept's. */
  lemma AliasCopies<K>(lists: Lists<K>, key: K, alias: K, k: K)
    requires var m := Alias(Touch(lists, key), key, alias); k in m && k !in lists && m[k] != []
    ensures k == alias && k !in Touch(lists, key) && key in lists &&
            Alias(Touch(lists, key), key, alias)[k] == lists[key]
  {
  }

  lemma AliasJoins(m: ConceptMap, root: Lineage<string>, r: Record, key: string)
    requires m.Keys == root.Keys && !r.IsTme() && key !in m && key in Step(m, r) && Step(m, r)[key] != []
    ensures r.conceptID in m && Step(m, r)[key] == m[r.conceptID]
    ensures var root' := RootStep(m, root, r); key in root' && r.conceptID in root' && root'[key] == root'[r.conceptID]
  {
    if r.IsUpp() {
      AliasCopies(m, r.conceptID, r.AliasKey(), key);
      RootAliasJoins(Touch(m, r.conceptID), RootTouch(root, r.conceptID), r.conceptID, key);
    }
  }

  lemma {:induction false} ListedFromLineage(rs: seq<Record>, key: string, id: string)
    requires key in Fold(rs) && id in Fold(rs)[key]
    ensures FromLineage(rs, key, id)
  {
    var n := |rs| - 1;
    var before, r := rs[..n], rs[n];
    RootsKeys(before);
    RootsKeys(rs);
    if key in Fold(before) && id in Fold(before)[key] {
      ListedFromLineage(before, key, id);
      FromLineageStays(rs, key, id);
    } else if r.IsTme() {
      assert OfLineage(rs, n, key) && r.value == id;
    } else {
      AliasJoins(Fold(before), Roots(before), r, key);
      ListedFromLineage(before, r.conceptID, id);
      FromLineageStays(rs, r.conceptID, id);
      var j :| 0 <= j < |rs| && OfLineage(rs, j, r.conceptID) && rs[j].value == id;
      assert OfLineage(rs, j, key);
    }
  }

  /** Whatever the response and the growth, an ID shown under a key is the value of a TME record about
      a key of its lineage. */
  lemma SharedProvenance(rs: seq<Record>, grow: Growth, key: string, id: string)
    requires Grows(grow) && key in Views(Run(rs, grow)) && id in Views(Run(rs, grow))[key]
    ensures FromLineage(rs, key, id)
  {
    RunShowsLineage(rs, grow);
    var mem, lists, root := Run(rs, grow), Fold(rs), Roots(rs);
    assert ShowsLineage(mem, lists, root, key);
    var p :| 0 <= p < |Read(mem.bufs, mem.table[key])| && Read(mem.bufs, mem.table[key])[p] == id;
    var m :| m in lists && root[m] == root[key] && p < |lists[m]| && lists[m][p] == id;
    ListedFromLineage(rs, m, id);
    var j :| 0 <= j < |rs| && OfLineage(rs, j, m) && rs[j].value == id;
    assert OfLineage(rs, j, key);
  }

  /** On compatible responses it is the value of a record about the key or about a concept that fed it. */
  lemma CompatibleProvenance(rs: seq<Record>, grow: Growth, key: string, id: string)
    requires Grows(grow) && Compatible(rs) && key in Views(Run(rs, grow)) && id in Views(Run(rs, grow))[key]
    ensures ComesFrom(rs, key, id)
  {
    SharingIsInvisibleIff(rs);
    Provenance(rs, key, id);
  }

  /** On others it need not be: the concept shows an ID that only its alias was given. */
  lemma SharingCanInvent(c: string, ids: seq<string>, x: string, own: string, other: string)
    requires |ids| == 3 && c != THING_URI_PREFIX + x && own != other && other !in ids
    ensures var rs := ClashingResponse(c, ids, x, own, other);
            c in Views(Run(rs, Doubling())) && other in Views(Run(rs, Doubling()))[c] && !ComesFrom(rs, c, other)
  {
    var rs := ClashingResponse(c, ids, x, own, other);
    ClashRun(c, ids, x, own, other);
    assert (ids + [other])[3] == other;
    assert ids[0] in ids && ids[1] in ids && ids[2] in ids;
    FirstMentionIs(rs, c, 0);
    forall j | 0 <= j < |rs| && rs[j].IsTme() && rs[j].value == other ensures !Feeds(rs, rs[j].conceptID, c) {
      assert j == 5;
    }
  }

  // ----- when IDs are told apart, exactly the compatible responses show own IDs only -----

  predicate DistinctValues(rs: seq<Record>) {
    forall i, j :: 0 <= i < j < |rs| && rs[i].IsTme() && rs[j].IsTme() ==> rs[i].value != rs[j].value
  }

  /** Every ID shown under a key is one the fold lists there. */
  ghost predicate ShowsOwnIDs(rs: seq<Record>, grow: Growth)
    requires Grows(grow)
  {
    var views := Views(Run(rs, grow));
    views.Keys == Fold(rs).Keys && forall key, id :: key in views && id in views[key] ==> id in Fold(rs)[key]
  }

  /** An ID stands at one place, in whichever lists it is. */
  ghost predicate OnePlace(a: seq<string>, b: seq<string>) {
    forall p, q :: 0 <= p < |a| && 0 <= q < |b| && a[p] == b[q] ==> p == q
  }

  lemma {:induction false} ListedValue(rs: seq<Record>, key: string, id: string)
    requires key in Fold(rs) && id in Fold(rs)[key]
    ensures exists j :: 0 <= j < |rs| && rs[j].IsTme() && rs[j].value == id
  {
    ListedFromLineage(rs, key, id);
    var j :| 0 <= j < |rs| && OfLineage(rs, j, key) && rs[j].value == id;
  }

  lemma {:induction false} OnePlaceEach(rs: seq<Record>, a: string, b: string)
    requires DistinctValues(rs) && a in Fold(rs) && b in Fold(rs)
    ensures OnePlace(Fold(rs)[a], Fold(rs)[b])
  {
    var n := |rs| - 1;
    var before, r := rs[..n], rs[n];
    var m := Fold(before);
    if r.IsTme() {
      forall k | k in m ensures r.value !in m[k] {
        if r.value in m[k] {
          ListedValue(before, k, r.value);
        }
      }
      if a in m && b in m { OnePlaceEach(before, a, b); }
      if a in m { OnePlaceEach(before, a, a); }
      if b in m { OnePlaceEach(before, b, b); }
    } else {
      var a0, b0 := if a in m then a else r.conceptID, if b in m then b else r.conceptID;
      if a0 in m && b0 in m { OnePlaceEach(before, a0, b0); }
    }
  }

  /** A key that shows only IDs it lists shows its list. */
  lemma OwnIDsAreTheList(rs: seq<Record>, grow: Growth, key: string)
    requires Grows(grow) && DistinctValues(rs) && ShowsOwnIDs(rs, grow) && key in Fold(rs)
    ensures key in Views(Run(rs, grow)) && Views(Run(rs, grow))[key] == Fold(rs)[key]
  {
    RunShowsLineage(rs, grow);
    var mem, lists, root := Run(rs, grow), Fold(rs), Roots(rs);
    assert ShowsLineage(mem, lists, root, key);
    var shown := Read(mem.bufs, mem.table[key]);
    forall p | 0 <= p < |shown| ensures shown[p] == lists[key][p] {
      assert shown[p] in Views(mem)[key];
      var m :| m in lists && root[m] == root[key] && p < |lists[m]| && lists[m][p] == shown[p];
      OnePlaceEach(rs, m, key);
    }
  }

  /** With distinct values no key shows an ID that is not its own, however arrays grow, exactly when
      the response is compatible. */
  lemma OwnIDsIff(rs: seq<Record>)
    requires DistinctValues(rs)
    ensures (forall grow: Growth :: Grows(grow) ==> ShowsOwnIDs(rs, grow)) <==> Compatible(rs)
  {
    SharingIsInvisibleIff(rs);
    if forall grow: Growth :: Grows(grow) ==> ShowsOwnIDs(rs, grow) {
      forall grow: Growth | Grows(grow) ensures Views(Run(rs, grow)) == Fold(rs) {
        assert ShowsOwnIDs(rs, grow);
        forall key | key in Fold(rs) ensures Views(Run(rs, grow))[key] == Fold(rs)[key] {
          OwnIDsAreTheList(rs, grow, key);
        }
      }
    }
  }
}
