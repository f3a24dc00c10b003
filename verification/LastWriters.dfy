/** Exactly which record's ID the shared slices show under each key at each place, for every response and
    every growth, read off the records without the memory. */
module LastWriters {
  import opened Concordance
  import opened SliceMemory

  // ----- whose IDs a list holds -----

  /** For each key the indices of the records whose IDs its list holds. */
  type Marks<!K> = map<K, seq<nat>>

  function MarkStep(m: Marks<string>, n: nat, r: Record): Marks<string> {
    var touched := Touch(m, r.conceptID);
    if r.IsTme() then Grow(touched, r.conceptID, n)
    else if r.IsUpp() then Alias(touched, r.conceptID, r.AliasKey())
    else touched
  }

  /** The fold over the response with indices in the place of IDs. */
  function MarksOf(rs: seq<Record>): Marks<string> {
    if rs == [] then map[] else MarkStep(MarksOf(rs[..|rs| - 1]), |rs| - 1, rs[|rs| - 1])
  }

  ghost predicate Below<K>(marks: Marks<K>, n: nat) {
    forall k, p :: k in marks && 0 <= p < |marks[k]| ==> marks[k][p] < n
  }

  // ----- which array a place is in -----

  /** The length at which the array that holds place `p` was made, from the array made at length `a`. */
  function StartFrom(grow: Growth, a: nat, p: nat): (q: nat)
    requires Grows(grow) && a <= p
    ensures a <= q <= p < grow(q)
    decreases p - a
  {
    if grow(a) <= p then StartFrom(grow, grow(a), p) else a
  }

  /** The last of 0, grow(0), grow(grow(0)), ... that is not above `p`. */
  function Start(grow: Growth, p: nat): (q: nat)
    requires Grows(grow)
    ensures q <= p < grow(q)
  {
    StartFrom(grow, 0, p)
  }

  lemma {:induction false} StartFromSame(grow: Growth, a: nat, p: nat, p': nat)
    requires Grows(grow) && a <= p <= p'
    ensures StartFrom(grow, a, p') == StartFrom(grow, a, p) <==> p' < grow(StartFrom(grow, a, p))
    ensures StartFrom(grow, a, p) <= StartFrom(grow, a, p')
    decreases p - a
  {
    if grow(a) <= p {
      StartFromSame(grow, grow(a), p, p');
    }
  }

  /** Two places are in one array when the higher one is within its capacity. */
  lemma StartSame(grow: Growth, p: nat, p': nat)
    requires Grows(grow) && p <= p'
    ensures Start(grow, p') == Start(grow, p) <==> p' < grow(Start(grow, p))
    ensures Start(grow, p) <= Start(grow, p')
  {
    StartFromSame(grow, 0, p, p');
  }

  lemma {:induction false} StartFromNext(grow: Growth, a: nat, p: nat)
    requires Grows(grow) && a <= p
    ensures StartFrom(grow, a, p + 1) == if p + 1 < grow(StartFrom(grow, a, p)) then StartFrom(grow, a, p) else p + 1
    decreases p - a
  {
    if grow(a) <= p {
      StartFromNext(grow, grow(a), p);
    }
  }

  lemma StartNext(grow: Growth, p: nat)
    requires Grows(grow)
    ensures Start(grow, p + 1) == if p + 1 < grow(Start(grow, p)) then Start(grow, p) else p + 1
  {
    StartFromNext(grow, 0, p);
  }

  // ----- the last writer of a cell -----

  /** The record before which key `k` is still on the array that holds place `p`: the one at which it
      outgrew it, or else the end. */
  function Until<K>(marks: Marks<K>, grow: Growth, end: nat, k: K, p: nat): nat
    requires Grows(grow) && k in marks
  {
    var full := grow(Start(grow, p));
    if full < |marks[k]| then marks[k][full] else end
  }

  /** Key `m` has an element at place `p` on the array on which `k` has its own. */
  predicate SameCell<K(==)>(marks: Marks<K>, grow: Growth, k: K, p: nat, m: K)
    requires Grows(grow) && k in marks && m in marks && p < |marks[k]|
  {
    p < |marks[m]| && marks[m][Start(grow, p)] == marks[k][Start(grow, p)]
  }

  /** Record `x` writes the cell while `k` is still on the array. */
  ghost predicate Writes<K>(marks: Marks<K>, grow: Growth, end: nat, k: K, p: nat, x: nat)
    requires Grows(grow) && k in marks && p < |marks[k]|
  {
    x < Until(marks, grow, end, k, p) && exists m :: m in marks && SameCell(marks, grow, k, p, m) && marks[m][p] == x
  }

  ghost predicate LastWriter<K>(marks: Marks<K>, grow: Growth, end: nat, k: K, p: nat, x: nat)
    requires Grows(grow) && k in marks && p < |marks[k]|
  {
    Writes(marks, grow, end, k, p, x) && forall y: nat :: Writes(marks, grow, end, k, p, y) ==> y <= x
  }

  // ----- what memory has to do with it -----

  predicate SameArray<K(==)>(marks: Marks<K>, grow: Growth, j: K, k: K)
    requires Grows(grow) && j in marks && k in marks && marks[j] != [] && marks[k] != []
  {
    var q := Start(grow, |marks[j]| - 1);
    Start(grow, |marks[k]| - 1) == q && marks[j][q] == marks[k][q]
  }

  ghost predicate SharesExactly<K>(mem: Memory<K>, marks: Marks<K>, grow: Growth, j: K, k: K)
    requires Grows(grow) && mem.table.Keys == marks.Keys && j in marks && k in marks
  {
    marks[j] != [] && marks[k] != [] ==> (Shares(mem.table[j], mem.table[k]) <==> SameArray(marks, grow, j, k))
  }

  /** The header is as long as the list and its array was made at the last start. */
  ghost predicate Sized<K>(mem: Memory<K>, marks: Marks<K>, grow: Growth, k: K)
    requires Grows(grow) && Sound(mem) && k in mem.table && k in marks
  {
    var s := mem.table[k];
    Len(s) == |marks[k]| && (s.View? ==> |mem.bufs[s.buf]| == grow(Start(grow, s.len - 1)))
  }

  /** Sharing and capacities are as the marks say. */
  ghost predicate Laid<K>(mem: Memory<K>, marks: Marks<K>, grow: Growth)
    requires Grows(grow)
  {
    && Sound(mem) && mem.table.Keys == marks.Keys
    && (forall k {:trigger Sized(mem, marks, grow, k)} :: k in marks ==> Sized(mem, marks, grow, k))
    && (forall j, k {:trigger SharesExactly(mem, marks, grow, j, k)} :: j in marks && k in marks ==>
          SharesExactly(mem, marks, grow, j, k))
  }

  /** Key `k` shows at place `p` the ID of the cell's last writer. */
  ghost predicate CellRight<K>(shown: seq<string>, marks: Marks<K>, grow: Growth, values: seq<string>, k: K, p: nat)
    requires Grows(grow) && k in marks && p < |marks[k]| && p < |shown|
  {
    exists x: nat :: x < |values| && LastWriter(marks, grow, |values|, k, p, x) && shown[p] == values[x]
  }

  ghost predicate ShowsRight<K>(shown: seq<string>, marks: Marks<K>, grow: Growth, values: seq<string>, k: K)
    requires Grows(grow) && k in marks
  {
    |shown| == |marks[k]| && forall p :: 0 <= p < |shown| ==> CellRight(shown, marks, grow, values, k, p)
  }

  /** Kept by every step. */
  ghost predicate Exact<K>(mem: Memory<K>, marks: Marks<K>, grow: Growth, values: seq<string>, n: nat)
    requires Grows(grow)
  {
    && Laid(mem, marks, grow) && Below(marks, n) && n <= |values|
    && forall k :: k in marks ==> ShowsRight(Read(mem.bufs, mem.table[k]), marks, grow, values, k)
  }

  /** A cell with the same writers shows the same ID. */
  lemma CellStays<K>(shown: seq<string>, marks: Marks<K>, values: seq<string>, k: K,
                     shown': seq<string>, marks': Marks<K>, values': seq<string>, k': K, grow: Growth, p: nat)
    requires Grows(grow) && k in marks && p < |marks[k]| && p < |shown| && CellRight(shown, marks, grow, values, k, p)
    requires k' in marks' && p < |marks'[k']| && p < |shown'| && shown'[p] == shown[p] && values <= values'
    requires forall y: nat :: Writes(marks, grow, |values|, k, p, y) <==> Writes(marks', grow, |values'|, k', p, y)
    ensures CellRight(shown', marks', grow, values', k', p)
  {
    var x: nat :| x < |values| && LastWriter(marks, grow, |values|, k, p, x) && shown[p] == values[x];
    assert LastWriter(marks', grow, |values'|, k', p, x);
  }

  // ----- one more record, not yet looked at -----

  lemma WritesLater<K>(marks: Marks<K>, grow: Growth, n: nat, end: nat, k: K, p: nat, y: nat)
    requires Grows(grow) && Below(marks, n) && n <= end && k in marks && p < |marks[k]|
    ensures Writes(marks, grow, n, k, p, y) <==> Writes(marks, grow, end, k, p, y)
  {
  }

  lemma ExactLater<K>(mem: Memory<K>, marks: Marks<K>, grow: Growth, values: seq<string>, value: string)
    requires Grows(grow) && Exact(mem, marks, grow, values, |values|)
    ensures Exact(mem, marks, grow, values + [value], |values|)
  {
    forall k | k in marks ensures ShowsRight(Read(mem.bufs, mem.table[k]), marks, grow, values + [value], k) {
      var shown := Read(mem.bufs, mem.table[k]);
      assert ShowsRight(shown, marks, grow, values, k);
      forall p | 0 <= p < |shown| ensures CellRight(shown, marks, grow, values + [value], k, p) {
        forall y: nat ensures Writes(marks, grow, |values|, k, p, y) <==> Writes(marks, grow, |values| + 1, k, p, y) {
          WritesLater(marks, grow, |values|, |values| + 1, k, p, y);
        }
        CellStays(shown, marks, values, k, shown, marks, values + [value], k, grow, p);
      }
    }
  }

  // ----- a key is touched -----

  lemma LaidTouch<K>(mem: Memory<K>, marks: Marks<K>, grow: Growth, key: K)
    requires Grows(grow) && Laid(mem, marks, grow)
    ensures Laid(TouchSlice(mem, key), Touch(marks, key), grow)
  {
    var mem', marks' := TouchSlice(mem, key), Touch(marks, key);
    forall k | k in marks' ensures Sized(mem', marks', grow, k) {
      assert k in marks ==> Sized(mem, marks, grow, k);
    }
    forall j, k | j in marks' && k in marks' ensures SharesExactly(mem', marks', grow, j, k) {
      assert j in marks && k in marks ==> SharesExactly(mem, marks, grow, j, k);
    }
  }

  lemma WritesTouch<K>(marks: Marks<K>, grow: Growth, end: nat, key: K, marks': Marks<K>, k: K, p: nat, y: nat)
    requires Grows(grow) && k in marks && p < |marks[k]| && marks' == Touch(marks, key)
    ensures Writes(marks, grow, end, k, p, y) <==> Writes(marks', grow, end, k, p, y)
  {
    assert forall m :: m in marks ==> marks'[m] == marks[m];
    if Writes(marks, grow, end, k, p, y) {
      var m :| m in marks && SameCell(marks, grow, k, p, m) && marks[m][p] == y;
      assert SameCell(marks', grow, k, p, m);
    }
    if Writes(marks', grow, end, k, p, y) {
      var m :| m in marks' && SameCell(marks', grow, k, p, m) && marks'[m][p] == y;
      assert m in marks && SameCell(marks, grow, k, p, m);
    }
  }

  lemma ExactTouch<K>(mem: Memory<K>, marks: Marks<K>, grow: Growth, values: seq<string>, n: nat, key: K)
    requires Grows(grow) && Exact(mem, marks, grow, values, n)
    ensures Exact(TouchSlice(mem, key), Touch(marks, key), grow, values, n)
  {
    var mem', marks' := TouchSlice(mem, key), Touch(marks, key);
    LaidTouch(mem, marks, grow, key);
    forall k | k in marks' ensures ShowsRight(Read(mem'.bufs, mem'.table[k]), marks', grow, values, k) {
      if k in marks {
        var shown := Read(mem.bufs, mem.table[k]);
        assert ShowsRight(shown, marks, grow, values, k);
        forall p | 0 <= p < |shown| ensures CellRight(shown, marks', grow, values, k, p) {
          forall y: nat ensures Writes(marks, grow, |values|, k, p, y) <==> Writes(marks', grow, |values|, k, p, y) {
            WritesTouch(marks, grow, |values|, key, marks', k, p, y);
          }
          CellStays(shown, marks, values, k, shown, marks', values, k, grow, p);
        }
      }
    }
  }

  // ----- an alias is made -----

  lemma SharesAlias<K>(mem: Memory<K>, marks: Marks<K>, grow: Growth, key: K, alias: K, mem': Memory<K>,
                       marks': Marks<K>,
                       j: K, k: K)
    requires Grows(grow) && Laid(mem, marks, grow) && key in marks && alias !in marks && j in marks' && k in marks'
    requires mem'.table == mem.table[alias := mem.table[key]] && marks' == marks[alias := marks[key]]
    ensures SharesExactly(mem', marks', grow, j, k)
  {
    var j0, k0 := if j in marks then j else key, if k in marks then k else key;
    assert Sized(mem, marks, grow, j0);
    assert SharesExactly(mem, marks, grow, j0, k0);
    assert marks'[j] == marks[j0] && marks'[k] == marks[k0];
    assert mem'.table[j] == mem.table[j0] && mem'.table[k] == mem.table[k0];
  }

  lemma LaidAlias<K>(mem: Memory<K>, marks: Marks<K>, grow: Growth, key: K, alias: K)
    requires Grows(grow) && Laid(mem, marks, grow) && key in marks
    ensures Laid(AliasSlice(mem, key, alias), Alias(marks, key, alias), grow)
  {
    var mem', marks' := AliasSlice(mem, key, alias), Alias(marks, key, alias);
    if alias !in marks {
      forall k | k in marks' ensures Sized(mem', marks', grow, k) {
        assert Sized(mem, marks, grow, if k in marks then k else key);
      }
      forall j, k | j in marks' && k in marks' ensures SharesExactly(mem', marks', grow, j, k) {
        SharesAlias(mem, marks, grow, key, alias, mem', marks', j, k);
      }
    }
  }

  lemma WritesAlias<K>(marks: Marks<K>, grow: Growth, end: nat, key: K, alias: K, marks': Marks<K>, from: K, k: K,
                       p: nat, y: nat)
    requires Grows(grow) && key in marks && marks' == Alias(marks, key, alias)
    requires k in marks' && from == (if k in marks then k else key) && p < |marks[from]|
    ensures p < |marks'[k]|
    ensures Writes(marks, grow, end, from, p, y) <==> Writes(marks', grow, end, k, p, y)
  {
    assert marks'[k] == marks[from] && forall m :: m in marks ==> marks'[m] == marks[m];
    if Writes(marks, grow, end, from, p, y) {
      var m :| m in marks && SameCell(marks, grow, from, p, m) && marks[m][p] == y;
      assert SameCell(marks', grow, k, p, m);
    }
    if Writes(marks', grow, end, k, p, y) {
      var m :| m in marks' && SameCell(marks', grow, k, p, m) && marks'[m][p] == y;
      assert SameCell(marks, grow, from, p, if m in marks then m else key);
    }
  }

  lemma ExactAlias<K>(mem: Memory<K>, marks: Marks<K>, grow: Growth, values: seq<string>, n: nat, key: K, alias: K)
    requires Grows(grow) && Exact(mem, marks, grow, values, n) && key in marks
    ensures Exact(AliasSlice(mem, key, alias), Alias(marks, key, alias), grow, values, n)
  {
    var mem', marks' := AliasSlice(mem, key, alias), Alias(marks, key, alias);
    LaidAlias(mem, marks, grow, key, alias);
    forall k | k in marks' ensures ShowsRight(Read(mem'.bufs, mem'.table[k]), marks', grow, values, k) {
      var from := if k in marks then k else key;
      var shown := Read(mem.bufs, mem.table[from]);
      assert ShowsRight(shown, marks, grow, values, from);
      forall p | 0 <= p < |shown| ensures CellRight(shown, marks', grow, values, k, p) {
        forall y: nat ensures Writes(marks, grow, |values|, from, p, y) <==> Writes(marks', grow, |values|, k, p, y) {
          WritesAlias(marks, grow, |values|, key, alias, marks', from, k, p, y);
        }
        CellStays(shown, marks, values, from, shown, marks', values, k, grow, p);
      }
    }
  }

  // ----- a value is appended -----

  /** What the headers read after an append under `key`. */
  function ReadAfter<K(==)>(mem: Memory<K>, key: K, value: string, k: K): seq<string>
    requires Sound(mem) && key in mem.table && k in mem.table
  {
    var was, end := Read(mem.bufs, mem.table[k]), Len(mem.table[key]);
    if k == key then was + [value]
    else if HasRoom(mem.bufs, mem.table[key]) && Shares(mem.table[key], mem.table[k]) && end < |was|
    then was[end := value]
    else was
  }

  lemma AppendReads<K>(mem: Memory<K>, key: K, value: string, grow: Growth, k: K)
    requires Sound(mem) && key in mem.table && k in mem.table && Grows(grow)
    ensures var mem' := AppendTo(mem, key, value, grow);
            k in mem'.table && InBounds(mem'.bufs, mem'.table[k]) &&
            Read(mem'.bufs, mem'.table[k]) == ReadAfter(mem, key, value, k)
  {
    AppendKeepsSound(mem, key, value, grow);
  }

  /** There is room exactly when the next place is in the same array. */
  lemma RoomIff<K>(mem: Memory<K>, marks: Marks<K>, grow: Growth, key: K)
    requires Grows(grow) && Sound(mem) && key in mem.table && key in marks && Sized(mem, marks, grow, key)
    ensures var e := |marks[key]|; HasRoom(mem.bufs, mem.table[key]) <==> Start(grow, e) < e
    ensures var e := |marks[key]|; Start(grow, e) < e ==> Start(grow, e) == Start(grow, e - 1)
  {
    if marks[key] != [] {
      StartNext(grow, |marks[key]| - 1);
    }
  }

  lemma SizedAppend<K>(mem: Memory<K>, marks: Marks<K>, grow: Growth, key: K, value: string, n: nat,
                       mem': Memory<K>, marks': Marks<K>, k: K)
    requires Grows(grow) && Laid(mem, marks, grow) && key in marks && k in marks
    requires mem' == AppendTo(mem, key, value, grow) && marks' == Grow(marks, key, n)
    ensures Sound(mem') && k in mem'.table && Sized(mem', marks', grow, k)
  {
    AppendKeepsSound(mem, key, value, grow);
    assert Sized(mem, marks, grow, key) && Sized(mem, marks, grow, k);
    RoomIff(mem, marks, grow, key);
  }

  /** Sharing between `key` and another, after an append under `key`. */
  lemma SharesKey<K>(mem: Memory<K>, marks: Marks<K>, grow: Growth, key: K, value: string, n: nat,
                     mem': Memory<K>, marks': Marks<K>, k: K)
    requires Grows(grow) && Laid(mem, marks, grow) && Below(marks, n) && key in marks && k in marks && k != key &&
             marks[k] != []
    requires mem' == AppendTo(mem, key, value, grow) && marks' == Grow(marks, key, n)
    ensures Shares(mem'.table[key], mem'.table[k]) <==> SameArray(marks', grow, key, k)
    ensures Shares(mem'.table[k], mem'.table[key]) <==> SameArray(marks', grow, k, key)
  {
    var e := |marks[key]|;
    assert Sized(mem, marks, grow, key) && Sized(mem, marks, grow, k);
    assert SharesExactly(mem, marks, grow, key, k);
    RoomIff(mem, marks, grow, key);
    assert marks'[key][..e] == marks[key];
    if Start(grow, e) < e {
      assert SameArray(marks', grow, key, k) <==> SameArray(marks, grow, key, k);
    } else if Start(grow, |marks[k]| - 1) == e {
      assert marks[k][e] < n;
    }
  }

  lemma LaidAppend<K>(mem: Memory<K>, marks: Marks<K>, grow: Growth, key: K, value: string, n: nat,
                      mem': Memory<K>, marks': Marks<K>)
    requires Grows(grow) && Laid(mem, marks, grow) && Below(marks, n) && key in marks
    requires mem' == AppendTo(mem, key, value, grow) && marks' == Grow(marks, key, n)
    ensures Laid(mem', marks', grow)
  {
    AppendKeepsSound(mem, key, value, grow);
    forall k | k in marks' ensures Sized(mem', marks', grow, k) {
      SizedAppend(mem, marks, grow, key, value, n, mem', marks', k);
    }
    forall j, k | j in marks' && k in marks' ensures SharesExactly(mem', marks', grow, j, k) {
      if j != key && k != key {
        assert SharesExactly(mem, marks, grow, j, k);
      } else if j != k && (if j == key then marks[k] else marks[j]) != [] {
        SharesKey(mem, marks, grow, key, value, n, mem', marks', if j == key then k else j);
      }
    }
  }

  /** An append under `key` at place `p` goes into the cell of `k`. */
  predicate Hits<K(==)>(marks: Marks<K>, grow: Growth, key: K, k: K, p: nat)
    requires Grows(grow) && key in marks && k in marks && p < |marks[k]|
  {
    var q := Start(grow, p);
    p == |marks[key]| && q < p && marks[key][q] == marks[k][q] && |marks[k]| <= grow(q)
  }

  lemma WritesGrow<K>(marks: Marks<K>, grow: Growth, n: nat, key: K, marks': Marks<K>, k: K, p: nat, y: nat)
    requires Grows(grow) && Below(marks, n) && key in marks && k in marks && p < |marks[k]| &&
             marks' == Grow(marks, key, n)
    ensures Writes(marks', grow, n + 1, k, p, y) <==>
            Writes(marks, grow, n + 1, k, p, y) || (y == n && Hits(marks, grow, key, k, p))
  {
    var q := Start(grow, p);
    assert forall m :: m in marks ==> marks[m] <= marks'[m];
    assert marks'[k][q] == marks[k][q] && marks'[k][p] == marks[k][p];
    if Writes(marks, grow, n + 1, k, p, y) {
      var m :| m in marks && SameCell(marks, grow, k, p, m) && marks[m][p] == y;
      assert SameCell(marks', grow, k, p, m);
    }
    if Hits(marks, grow, key, k, p) {
      assert SameCell(marks', grow, k, p, key) && marks'[key][p] == n;
    }
    if Writes(marks', grow, n + 1, k, p, y) {
      var m :| m in marks' && SameCell(marks', grow, k, p, m) && marks'[m][p] == y;
      if m != key || p < |marks[key]| {
        assert SameCell(marks, grow, k, p, m);
      }
    }
  }

  /** The cell of `k` is hit exactly when memory says so. */
  lemma HitsIff<K>(mem: Memory<K>, marks: Marks<K>, grow: Growth, key: K, k: K, p: nat)
    requires Grows(grow) && Laid(mem, marks, grow) && key in marks && k in marks && k != key && p < |marks[k]|
    ensures Hits(marks, grow, key, k, p) <==>
            p == |marks[key]| && HasRoom(mem.bufs, mem.table[key]) && Shares(mem.table[key], mem.table[k])
  {
    assert Sized(mem, marks, grow, key) && Sized(mem, marks, grow, k);
    assert SharesExactly(mem, marks, grow, key, k);
    RoomIff(mem, marks, grow, key);
    StartSame(grow, p, |marks[k]| - 1);
  }

  /** A cell that the append does not reach keeps its ID, one that it reaches shows the new one. */
  lemma CellAppend<K>(mem: Memory<K>, marks: Marks<K>, grow: Growth, values: seq<string>, n: nat, key: K,
                      marks': Marks<K>,
                      shown': seq<string>, k: K, p: nat)
    requires Grows(grow) && Exact(mem, marks, grow, values, n) && |values| == n + 1 && key in marks && k in marks &&
             k != key
    requires marks' == Grow(marks, key, n) && shown' == ReadAfter(mem, key, values[n], k) && p < |marks[k]|
    ensures |shown'| == |marks[k]| && CellRight(shown', marks', grow, values, k, p)
  {
    var shown := Read(mem.bufs, mem.table[k]);
    assert ShowsRight(shown, marks, grow, values, k);
    assert Sized(mem, marks, grow, key);
    HitsIff(mem, marks, grow, key, k, p);
    forall y: nat ensures Writes(marks', grow, |values|, k, p, y) <==>
                          Writes(marks, grow, |values|, k, p, y) || (y == n && Hits(marks, grow, key, k, p))
    {
      WritesGrow(marks, grow, n, key, marks', k, p, y);
    }
    if Hits(marks, grow, key, k, p) {
      assert LastWriter(marks', grow, |values|, k, p, n);
    } else {
      CellStays(shown, marks, values, k, shown', marks', values, k, grow, p);
    }
  }

  lemma CellOwn<K>(mem: Memory<K>, marks: Marks<K>, grow: Growth, values: seq<string>, n: nat, key: K, marks': Marks<K>,
                   shown': seq<string>, p: nat)
    requires Grows(grow) && Exact(mem, marks, grow, values, n) && |values| == n + 1 && key in marks
    requires marks' == Grow(marks, key, n) && shown' == ReadAfter(mem, key, values[n], key) && p <= |marks[key]|
    ensures |shown'| == |marks[key]| + 1 && CellRight(shown', marks', grow, values, key, p)
  {
    var shown := Read(mem.bufs, mem.table[key]);
    assert ShowsRight(shown, marks, grow, values, key);
    if p == |marks[key]| {
      assert SameCell(marks', grow, key, p, key) && marks'[key][p] == n;
      assert LastWriter(marks', grow, |values|, key, p, n);
    } else {
      forall y: nat ensures Writes(marks, grow, |values|, key, p, y) <==> Writes(marks', grow, |values|, key, p, y) {
        WritesGrow(marks, grow, n, key, marks', key, p, y);
      }
      CellStays(shown, marks, values, key, shown', marks', values, key, grow, p);
    }
  }

  lemma ExactAppend<K>(mem: Memory<K>, marks: Marks<K>, grow: Growth, values: seq<string>, n: nat, key: K,
                       mem': Memory<K>, marks': Marks<K>)
    requires Grows(grow) && Exact(mem, marks, grow, values, n) && |values| == n + 1 && key in marks
    requires mem' == AppendTo(mem, key, values[n], grow) && marks' == Grow(marks, key, n)
    ensures Exact(mem', marks', grow, values, n + 1)
  {
    LaidAppend(mem, marks, grow, key, values[n], n, mem', marks');
    forall k | k in marks' ensures ShowsRight(Read(mem'.bufs, mem'.table[k]), marks', grow, values, k) {
      AppendReads(mem, key, values[n], grow, k);
      var shown' := Read(mem'.bufs, mem'.table[k]);
      if k == key {
        CellOwn(mem, marks, grow, values, n, key, marks', shown', 0);
        forall p | 0 <= p < |shown'| ensures CellRight(shown', marks', grow, values, k, p) {
          CellOwn(mem, marks, grow, values, n, key, marks', shown', p);
        }
      } else {
        assert ShowsRight(Read(mem.bufs, mem.table[k]), marks, grow, values, k);
        forall p | 0 <= p < |shown'| ensures CellRight(shown', marks', grow, values, k, p) {
          CellAppend(mem, marks, grow, values, n, key, marks', shown', k, p);
        }
      }
    }
  }

  // ----- whole responses -----

  function Values(rs: seq<Record>): seq<string> { seq(|rs|, i requires 0 <= i < |rs| => rs[i].value) }

  lemma BelowMore<K>(mem: Memory<K>, marks: Marks<K>, grow: Growth, values: seq<string>, n: nat)
    requires Grows(grow) && Exact(mem, marks, grow, values, n) && n < |values|
    ensures Exact(mem, marks, grow, values, n + 1)
  {
    assert Below(marks, n + 1);
  }

  lemma ExactStep(mem: Memory<string>, marks: Marks<string>, grow: Growth, values: seq<string>, r: Record)
    requires Grows(grow) && Exact(mem, marks, grow, values, |values|)
    ensures Exact(SliceStep(mem, r, grow), MarkStep(marks, |values|, r), grow, values + [r.value], |values| + 1)
  {
    var n, values' := |values|, values + [r.value];
    ExactLater(mem, marks, grow, values, r.value);
    ExactTouch(mem, marks, grow, values', n, r.conceptID);
    var mem1, marks1 := TouchSlice(mem, r.conceptID), Touch(marks, r.conceptID);
    if r.IsTme() {
      ExactAppend(mem1, marks1, grow, values', n, r.conceptID, SliceStep(mem, r, grow), MarkStep(marks, n, r));
    } else {
      if r.IsUpp() {
        ExactAlias(mem1, marks1, grow, values', n, r.conceptID, r.AliasKey());
      }
      BelowMore(SliceStep(mem, r, grow), MarkStep(marks, n, r), grow, values', n);
    }
  }

  lemma {:induction false} RunIsExact(rs: seq<Record>, grow: Growth)
    requires Grows(grow)
    ensures Exact(Run(rs, grow), MarksOf(rs), grow, Values(rs), |rs|)
  {
    if rs != [] {
      var before, r := rs[..|rs| - 1], rs[|rs| - 1];
      RunIsExact(before, grow);
      ExactStep(Run(before, grow), MarksOf(before), grow, Values(before), r);
      assert Values(rs) == Values(before) + [r.value];
    }
  }

  /** Record `x` is the last to write what key `k` shows at place `p`. */
  ghost predicate WritesLast(rs: seq<Record>, grow: Growth, k: string, p: nat, x: nat)
    requires Grows(grow)
  {
    k in MarksOf(rs) && p < |MarksOf(rs)[k]| && LastWriter(MarksOf(rs), grow, |rs|, k, p, x)
  }

  lemma RunSizes(rs: seq<Record>, grow: Growth)
    requires Grows(grow)
    ensures Views(Run(rs, grow)).Keys == MarksOf(rs).Keys
    ensures forall k :: k in MarksOf(rs) ==> |Views(Run(rs, grow))[k]| == |MarksOf(rs)[k]|
  {
    RunIsExact(rs, grow);
    var mem, marks := Run(rs, grow), MarksOf(rs);
    forall k | k in marks ensures |Views(mem)[k]| == |marks[k]| {
      assert ShowsRight(Read(mem.bufs, mem.table[k]), marks, grow, Values(rs), k);
    }
  }

  /** For every response and growth a key shows at each place of its list the ID of the place's last writer. */
  lemma RunExact(rs: seq<Record>, grow: Growth, k: string, p: nat) returns (x: nat)
    requires Grows(grow) && k in MarksOf(rs) && p < |MarksOf(rs)[k]|
    ensures k in Views(Run(rs, grow)) && |Views(Run(rs, grow))[k]| == |MarksOf(rs)[k]|
    ensures x < |rs| && WritesLast(rs, grow, k, p, x) && Views(Run(rs, grow))[k][p] == rs[x].value
    ensures forall y: nat :: WritesLast(rs, grow, k, p, y) ==> y == x
  {
    RunIsExact(rs, grow);
    var mem, marks := Run(rs, grow), MarksOf(rs);
    var shown := Read(mem.bufs, mem.table[k]);
    assert ShowsRight(shown, marks, grow, Values(rs), k);
    assert CellRight(shown, marks, grow, Values(rs), k, p);
    x :| x < |rs| && LastWriter(marks, grow, |rs|, k, p, x) && shown[p] == Values(rs)[x];
    LastWriterIsOne(marks, grow, |rs|, k, p, x);
  }

  lemma LastWriterIsOne<K>(marks: Marks<K>, grow: Growth, end: nat, k: K, p: nat, x: nat)
    requires Grows(grow) && k in marks && p < |marks[k]| && LastWriter(marks, grow, end, k, p, x)
    ensures forall y: nat :: LastWriter(marks, grow, end, k, p, y) ==> y == x
  {
  }

  // ----- the marks and the fold -----

  /** The list's IDs are those of its marks, which are TME records. */
  ghost predicate MarksFit(rs: seq<Record>, list: seq<string>, marks: seq<nat>) {
    |list| == |marks| && forall p :: 0 <= p < |marks| ==>
      marks[p] < |rs| && rs[marks[p]].IsTme() && rs[marks[p]].value == list[p]
  }

  /** The key has a list in both, which fit, or in none. */
  ghost predicate FitAt<K>(rs: seq<Record>, lists: Lists<K>, marks: Marks<K>, k: K) {
    (k in marks <==> k in lists) && (k in lists ==> MarksFit(rs, lists[k], marks[k]))
  }

  lemma FitTouch<K>(lists: Lists<K>, marks: Marks<K>, rs: seq<Record>, key: K, k: K)
    requires FitAt(rs, lists, marks, key) && FitAt(rs, lists, marks, k)
    ensures FitAt(rs, Touch(lists, key), Touch(marks, key), k)
  {
  }

  lemma FitMore(rs: seq<Record>, r: Record, list: seq<string>, marks: seq<nat>)
    requires MarksFit(rs, list, marks)
    ensures MarksFit(rs + [r], list, marks)
    ensures r.IsTme() ==> MarksFit(rs + [r], list + [r.value], marks + [|rs|])
  {
  }

  lemma FitGrow<K>(lists: Lists<K>, marks: Marks<K>, rs: seq<Record>, r: Record, key: K, k: K)
    requires key in lists && FitAt(rs, lists, marks, key) && FitAt(rs, lists, marks, k)
    ensures r.IsTme() ==> FitAt(rs + [r], Grow(lists, key, r.value), Grow(marks, key, |rs|), k)
    ensures FitAt(rs + [r], lists, marks, k)
  {
    FitMore(rs, r, lists[key], marks[key]);
    if k in lists { FitMore(rs, r, lists[k], marks[k]); }
  }

  lemma FitAlias<K>(lists: Lists<K>, marks: Marks<K>, rs: seq<Record>, key: K, alias: K, k: K)
    requires key in lists && FitAt(rs, lists, marks, key) && FitAt(rs, lists, marks, alias) &&
             FitAt(rs, lists, marks, k)
    ensures FitAt(rs, Alias(lists, key, alias), Alias(marks, key, alias), k)
  {
  }

  /** The marks are those of the fold: the same keys, and for each ID the record that has it. */
  lemma {:induction false} MarksAreFold(rs: seq<Record>, k: string)
    ensures FitAt(rs, Fold(rs), MarksOf(rs), k)
  {
    if rs != [] {
      var before, r := rs[..|rs| - 1], rs[|rs| - 1];
      var key, alias := r.conceptID, r.AliasKey();
      MarksAreFold(before, k);
      MarksAreFold(before, key);
      MarksAreFold(before, alias);
      FitTouch(Fold(before), MarksOf(before), before, key, k);
      FitTouch(Fold(before), MarksOf(before), before, key, key);
      FitTouch(Fold(before), MarksOf(before), before, key, alias);
      var lists, marks := Touch(Fold(before), key), Touch(MarksOf(before), key);
      FitGrow(lists, marks, before, r, key, k);
      FitGrow(lists, marks, before, r, key, key);
      FitGrow(lists, marks, before, r, key, alias);
      assert before + [r] == rs;
      FitAlias(lists, marks, rs, key, alias, k);
    }
  }

  // ----- what is shown, without the memory -----

  lemma LastExists(rs: seq<Record>, grow: Growth, k: string, p: nat)
    requires Grows(grow) && k in MarksOf(rs) && p < |MarksOf(rs)[k]|
    ensures exists x: nat :: x < |rs| && WritesLast(rs, grow, k, p, x)
  {
    var x := RunExact(rs, grow, k, p);
  }

  /** The record that writes last what key `k` shows at place `p`. */
  ghost function LastOf(rs: seq<Record>, grow: Growth, k: string, p: nat): (x: nat)
    requires Grows(grow) && k in MarksOf(rs) && p < |MarksOf(rs)[k]|
    ensures x < |rs| && WritesLast(rs, grow, k, p, x)
  {
    LastExists(rs, grow, k, p);
    var x: nat :| x < |rs| && WritesLast(rs, grow, k, p, x);
    x
  }

  ghost function ShownUnder(rs: seq<Record>, grow: Growth, k: string): seq<string>
    requires Grows(grow) && k in MarksOf(rs)
  {
    seq(|MarksOf(rs)[k]|, p requires 0 <= p < |MarksOf(rs)[k]| => rs[LastOf(rs, grow, k, p)].value)
  }

  /** Under each key, place by place, the ID of the record that writes last. */
  ghost function ShownIDs(rs: seq<Record>, grow: Growth): ConceptMap
    requires Grows(grow)
  {
    map k | k in MarksOf(rs) :: ShownUnder(rs, grow, k)
  }

  lemma ShownUnderExact(rs: seq<Record>, grow: Growth, k: string)
    requires Grows(grow) && k in MarksOf(rs)
    ensures k in Views(Run(rs, grow)) && Views(Run(rs, grow))[k] == ShownUnder(rs, grow, k)
  {
    RunSizes(rs, grow);
    var shown := Views(Run(rs, grow))[k];
    forall p | 0 <= p < |shown| ensures shown[p] == ShownUnder(rs, grow, k)[p] {
      var x := RunExact(rs, grow, k, p);
    }
  }

  /** For every response and growth the shared slices show exactly that. */
  lemma ViewsExact(rs: seq<Record>, grow: Growth)
    requires Grows(grow)
    ensures Views(Run(rs, grow)) == ShownIDs(rs, grow)
  {
    RunSizes(rs, grow);
    forall k | k in MarksOf(rs) ensures Views(Run(rs, grow))[k] == ShownIDs(rs, grow)[k] {
      ShownUnderExact(rs, grow, k);
    }
  }

  /** The last writer of every cell has the ID that the list has there. */
  ghost predicate LastIsListed(rs: seq<Record>, grow: Growth, k: string, p: nat)
    requires Grows(grow)
  {
    k in MarksOf(rs) && p < |MarksOf(rs)[k]| ==>
      k in Fold(rs) && p < |Fold(rs)[k]| && rs[LastOf(rs, grow, k, p)].value == Fold(rs)[k][p]
  }

  lemma ListedUnder(rs: seq<Record>, grow: Growth, k: string)
    requires Grows(grow) && k in MarksOf(rs)
    ensures k in Fold(rs) && (ShownUnder(rs, grow, k) == Fold(rs)[k] <==> forall p: nat :: LastIsListed(rs, grow, k, p))
  {
    MarksAreFold(rs, k);
    var shown, list := ShownUnder(rs, grow, k), Fold(rs)[k];
    if forall p: nat :: LastIsListed(rs, grow, k, p) {
      forall p | 0 <= p < |shown| ensures shown[p] == list[p] {
        assert LastIsListed(rs, grow, k, p);
      }
    }
  }

  /** For one way of growing arrays: sharing does not show exactly when every last writer has the listed ID. */
  lemma SharingShowsIff(rs: seq<Record>, grow: Growth)
    requires Grows(grow)
    ensures Views(Run(rs, grow)) == Fold(rs) <==> forall k: string, p: nat :: LastIsListed(rs, grow, k, p)
  {
    ViewsExact(rs, grow);
    forall k ensures k in MarksOf(rs) <==> k in Fold(rs) {
      MarksAreFold(rs, k);
    }
    forall k | k in MarksOf(rs)
      ensures ShownUnder(rs, grow, k) == Fold(rs)[k] <==> forall p: nat :: LastIsListed(rs, grow, k, p)
    {
      ListedUnder(rs, grow, k);
    }
  }

  // ----- when every shown ID has a source -----

  ghost predicate AllSourced(rs: seq<Record>, grow: Growth)
    requires Grows(grow)
  {
    var views := Views(Run(rs, grow));
    forall key, id :: key in views && id in views[key] ==> ComesFrom(rs, key, id)
  }

  /** The ID of the cell's last writer comes from the key's concept or one that fed it. */
  ghost predicate LastIsSourced(rs: seq<Record>, grow: Growth, k: string, p: nat)
    requires Grows(grow)
  {
    k in MarksOf(rs) && p < |MarksOf(rs)[k]| ==> ComesFrom(rs, k, rs[LastOf(rs, grow, k, p)].value)
  }

  /** Every ID shown is the value of a TME record about its key or about a concept that fed it, exactly when
      that of every last writer is; for every response and every growth. */
  lemma ProvenanceIff(rs: seq<Record>, grow: Growth)
    requires Grows(grow)
    ensures AllSourced(rs, grow) <==> forall k: string, p: nat :: LastIsSourced(rs, grow, k, p)
  {
    ViewsExact(rs, grow);
    if AllSourced(rs, grow) {
      forall k: string, p: nat ensures LastIsSourced(rs, grow, k, p) {
        if k in MarksOf(rs) && p < |MarksOf(rs)[k]| {
          assert ShownUnder(rs, grow, k)[p] in ShownIDs(rs, grow)[k];
        }
      }
    } else {
      var key, id :| key in ShownIDs(rs, grow) && id in ShownIDs(rs, grow)[key] && !ComesFrom(rs, key, id);
      var p :| 0 <= p < |ShownUnder(rs, grow, key)| && ShownUnder(rs, grow, key)[p] == id;
      assert !LastIsSourced(rs, grow, key, p);
    }
  }

  // ----- every ID can have a source though lists part ways -----

  /** The clashing records with the last two in the other order. */
  function SwappedResponse(c: string, ids: seq<string>, x: string, own: string, other: string): seq<Record>
    requires |ids| == 3
  {
    [Record(c, FtTme, ids[0]), Record(c, FtTme, ids[1]), Record(c, FtTme, ids[2]), Record(c, Upp, x),
     Record(THING_URI_PREFIX + x, FtTme, other), Record(c, FtTme, own)]
  }

  lemma MarksSnoc(rs: seq<Record>, i: nat)
    requires i < |rs|
    ensures MarksOf(rs[..i + 1]) == MarkStep(MarksOf(rs[..i]), i, rs[i])
  {
    assert rs[..i + 1][..i] == rs[..i];
  }

  lemma MarkGrows<K>(m: Marks<K>, key: K, was: seq<nat>, n: nat)
    requires if key in m then m[key] == was else was == []
    ensures Grow(Touch(m, key), key, n) == m[key := was + [n]]
  {
  }

  lemma SwappedStart(rs: seq<Record>, c: string)
    requires |rs| >= 3 && forall i :: 0 <= i < 3 ==> rs[i].conceptID == c && rs[i].IsTme()
    ensures MarksOf(rs[..3]) == map[c := [0, 1, 2]]
  {
    var one: seq<nat>, two: seq<nat>, three: seq<nat> := [0], [0, 1], [0, 1, 2];
    assert rs[..0] == [] && [] + [0] == one && one + [1] == two && two + [2] == three;
    MarksSnoc(rs, 0);
    MarkGrows(map[], c, [], 0);
    MarksSnoc(rs, 1);
    MarkGrows(map[c := one], c, one, 1);
    MarksSnoc(rs, 2);
    MarkGrows(map[c := two], c, two, 2);
  }

  lemma SwappedEnd<K>(c: K, a: K, three: seq<nat>)
    requires c != a
    ensures var m := map[c := three, a := three];
            Alias(Touch(map[c := three], c), c, a) == m &&
            Grow(Touch(Grow(Touch(m, a), a, 4), c), c, 5) == map[c := three + [5], a := three + [4]]
  {
  }

  lemma SwappedMarks(c: string, ids: seq<string>, x: string, own: string, other: string)
    requires |ids| == 3 && c != THING_URI_PREFIX + x
    ensures MarksOf(SwappedResponse(c, ids, x, own, other)) ==
            map[c := [0, 1, 2, 5], THING_URI_PREFIX + x := [0, 1, 2, 4]]
  {
    var rs, a, three: seq<nat> := SwappedResponse(c, ids, x, own, other), THING_URI_PREFIX + x, [0, 1, 2];
    assert rs[..6] == rs && three + [5] == [0, 1, 2, 5] && three + [4] == [0, 1, 2, 4];
    SwappedStart(rs, c);
    MarksSnoc(rs, 3);
    MarksSnoc(rs, 4);
    MarksSnoc(rs, 5);
    SwappedEnd(c, a, three);
  }

  lemma SwappedFeeds(c: string, ids: seq<string>, x: string, own: string, other: string)
    requires |ids| == 3 && c != THING_URI_PREFIX + x
    ensures Feeds(SwappedResponse(c, ids, x, own, other), c, THING_URI_PREFIX + x)
  {
    var rs, a := SwappedResponse(c, ids, x, own, other), THING_URI_PREFIX + x;
    FirstMentionIs(rs, a, 3);
  }

  /** The concept shows its own IDs only, whatever the growth. */
  lemma SwappedLast(c: string, ids: seq<string>, x: string, own: string, other: string, grow: Growth, p: nat)
    requires |ids| == 3 && c != THING_URI_PREFIX + x && Grows(grow) && p < 4
    ensures var rs := SwappedResponse(c, ids, x, own, other);
            c in MarksOf(rs) && p < |MarksOf(rs)[c]| && LastOf(rs, grow, c, p) == if p == 3 then 5 else p
  {
    var rs := SwappedResponse(c, ids, x, own, other);
    SwappedMarks(c, ids, x, own, other);
    var marks := MarksOf(rs);
    assert SameCell(marks, grow, c, p, c) && marks[c][p] == if p == 3 then 5 else p;
    assert Writes(marks, grow, 6, c, p, if p == 3 then 5 else p);
  }

  lemma SwappedSourced(c: string, ids: seq<string>, x: string, own: string, other: string, grow: Growth)
    requires |ids| == 3 && c != THING_URI_PREFIX + x && Grows(grow)
    ensures AllSourced(SwappedResponse(c, ids, x, own, other), grow)
  {
    var rs, a := SwappedResponse(c, ids, x, own, other), THING_URI_PREFIX + x;
    SwappedMarks(c, ids, x, own, other);
    SwappedFeeds(c, ids, x, own, other);
    forall k: string, p: nat ensures LastIsSourced(rs, grow, k, p) {
      if k in MarksOf(rs) && p < |MarksOf(rs)[k]| {
        var y := LastOf(rs, grow, k, p);
        if k == c {
          SwappedLast(c, ids, x, own, other, grow, p);
          assert rs[y].IsTme() && Feeds(rs, rs[y].conceptID, c);
        } else {
          assert Writes(MarksOf(rs), grow, 6, a, p, y);
          assert rs[y].IsTme() && Feeds(rs, rs[y].conceptID, a);
        }
      }
    }
    ProvenanceIff(rs, grow);
  }

  lemma SwappedShows(c: string, ids: seq<string>, x: string, own: string, other: string)
    requires |ids| == 3 && c != THING_URI_PREFIX + x && own != other
    ensures var rs := SwappedResponse(c, ids, x, own, other);
            Grows(Roomy(6)) && !LastIsListed(rs, Roomy(6), THING_URI_PREFIX + x, 3)
  {
    var rs, a, grow := SwappedResponse(c, ids, x, own, other), THING_URI_PREFIX + x, Roomy(6);
    SwappedMarks(c, ids, x, own, other);
    var marks := MarksOf(rs);
    assert Start(grow, 3) == 0;
    assert SameCell(marks, grow, a, 3, c) && Writes(marks, grow, 6, a, 3, 5);
    assert LastOf(rs, grow, a, 3) == 5;
    MarksAreFold(rs, a);
  }

  /** A response whose lists part ways and whose every ID nevertheless has a source, however arrays grow:
      the alias shows the concept's ID in the place of its own. */
  lemma SourcedThoughIncompatible(c: string, ids: seq<string>, x: string, own: string, other: string)
    requires |ids| == 3 && c != THING_URI_PREFIX + x && own != other
    ensures var rs := SwappedResponse(c, ids, x, own, other);
            !Compatible(rs) && forall grow: Growth :: Grows(grow) ==> AllSourced(rs, grow)
  {
    var rs := SwappedResponse(c, ids, x, own, other);
    SwappedShows(c, ids, x, own, other);
    SharingShowsIff(rs, Roomy(6));
    SharingIsInvisibleIff(rs);
    forall grow: Growth | Grows(grow) ensures AllSourced(rs, grow) {
      SwappedSourced(c, ids, x, own, other, grow);
    }
  }
}
