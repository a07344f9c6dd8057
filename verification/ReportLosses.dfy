/** When compaction loses tests: the two places where an item can be overwritten, and the exact
    condition for a whole tree. */
module ReportLosses {
  import opened Wrappers
  import opened Report
  import opened ReportCompaction

  // ---- One round of the hoisting loop -----------------------------------------

  lemma PutSum(d: Items, k: Key, v: Compact)
    requires Counted(d)
    ensures if HasKey(d, k) then SumAll(Total, Put(d, k, v)) < SumAll(Total, d) + Sum(Total, v)
            else SumAll(Total, Put(d, k, v)) == SumAll(Total, d) + Sum(Total, v)
  {
    if HasKey(d, k) {
      var i := OverwriteSum(Total, d, k, v);
    } else {
      PutFresh(d, k, v);
      AppendSum(Total, d, (k, v));
    }
  }

  /** Renaming keeps the number of items unless it has to overwrite, and the new keys in their order
      when it keeps the number. */
  lemma {:induction false} RenameOntoShape(acc: Items, key: Key, d: Items)
    ensures var r, n := RenameOnto(acc, key, d), |acc| + |d|;
            && |r| <= n
            && (|r| == n ==> acc <= r && forall i :: 0 <= i < |d| ==> r[|acc| + i].0 == Prefixed(key, d[i].0))
    decreases |d|
  {
    hide Put, Prefixed;
    if d != [] {
      var k := Prefixed(key, d[0].0);
      PutShape(acc, k, d[0].1);
      RenameOntoShape(Put(acc, k, d[0].1), key, d[1..]);
      if !HasKey(acc, k) {
        PutFresh(acc, k, d[0].1);
        assert forall i :: 0 < i < |d| ==> d[i] == d[1..][i - 1];
      }
    }
  }

  lemma CountedPut(d: Items, k: Key, v: Compact)
    requires Counted(d) && Sum(Total, v) > 0
    ensures Counted(Put(d, k, v)) && |Put(d, k, v)| == |d| + (if HasKey(d, k) then 0 else 1)
  {
    PutShape(d, k, v);
    var r := Put(d, k, v);
    forall i | 0 <= i < |r| ensures SumItem(Total, r[i]) > 0 {
      assert r[i] in r;
    }
  }

  /** What is overwritten is lost. */
  lemma {:induction false} RenameOntoSum(acc: Items, key: Key, d: Items)
    requires Counted(acc) && Counted(d)
    ensures var r, sum := RenameOnto(acc, key, d), SumAll(Total, acc) + SumAll(Total, d);
            if |r| == |acc| + |d| then SumAll(Total, r) == sum else SumAll(Total, r) < sum
    decreases |d|
  {
    hide Put, Prefixed, Sum;
    if d != [] {
      var k, v := Prefixed(key, d[0].0), d[0].1;
      assert Sum(Total, v) == SumItem(Total, d[0]);
      PutSum(acc, k, v);
      CountedPut(acc, k, v);
      RenameOntoShape(Put(acc, k, v), key, d[1..]);
      RenameOntoSum(Put(acc, k, v), key, d[1..]);
    }
  }

  lemma RenameDistinct(key: Key, d: Items)
    ensures Distinct(Rename(key, d))
  {
    EveryTrivial(d);
    RenameEvery([], key, d, AnyNode, AnyResult);
  }

  ghost predicate AnyNode(d: Items) { true }

  lemma {:induction false} EveryTrivial(d: Items)
    ensures EveryIn(d, AnyNode, AnyResult)
    decreases SizeAll(d)
  {
    if d != [] {
      assert SizeItem(d[0]) == Size(d[0].1);
      EveryTrivial(d[1..]);
      if d[0].1.Node? {
        EveryTrivial(d[0].1.items);
      }
    }
  }

  lemma ClashOverwrites(key: Key, d: Items)
    requires HasKey(d, None) && HasKey(d, Some("None"))
    ensures |Rename(key, d)| < |d|
  {
    var r := Rename(key, d);
    RenameOntoShape([], key, d);
    var i :| 0 <= i < |d| && d[i].0 == None;
    var j :| 0 <= j < |d| && d[j].0 == Some("None");
    if |r| == |d| {
      assert r[i].0 == r[j].0 && i != j;
      RenameDistinct(key, d);
      assert false;
    }
  }

  /** One round of the loop keeps the number of tests exactly when the dict does not hold both the
      key None and the key "None", which renaming makes one; otherwise it loses tests. */
  lemma RenameConserves(key: Key, d: Items)
    requires Distinct(d) && Counted(d)
    ensures var before, after := SumAll(Total, d), SumAll(Total, Rename(key, d));
            if HasKey(d, None) && HasKey(d, Some("None")) then after < before
            else forall m :: SumAll(m, Rename(key, d)) == SumAll(m, d)
  {
    var none: Items := [];
    RenameOntoSum(none, key, d);
    if KeysOk(d) {
      RenameIs(key, d);
      SameValues(d, Rename(key, d));
    } else {
      ClashOverwrites(key, d);
    }
  }

  // ---- The loop, one dict and the whole tree -----------------------------------

  ghost predicate Clashes(d: Items) { HasKey(d, None) && HasKey(d, Some("None")) }

  /** Some round of the loop finds both keys. */
  ghost predicate HoistClashes(d: Items)
    decreases SizeAll(d)
  {
    IsChain(d) &&
    (Clashes(d[0].1.items) || (HoistShrinks(d); HoistClashes(Rename(d[0].0, d[0].1.items))))
  }

  /** A dict of the output of a tree without empty dicts. */
  ghost predicate SoundDict(d: Items) { Distinct(d) && d != [] }

  lemma {:induction false} ValueCounted(v: Compact)
    requires Every(v, SoundDict, CountedResult)
    ensures Sum(Total, v) > 0
    decreases Size(v), 0
  {
    if v.Node? {
      EveryCounted(v.items);
    }
  }

  lemma {:induction false} EveryCounted(d: Items)
    requires EveryIn(d, SoundDict, CountedResult)
    ensures Counted(d) && (d != [] ==> SumAll(Total, d) > 0)
    decreases SizeAll(d), 1
  {
    if d != [] {
      assert SizeItem(d[0]) == Size(d[0].1);
      EveryAt(d, 0, SoundDict, CountedResult);
      ValueCounted(d[0].1);
      EveryCounted(d[1..]);
      assert SumItem(Total, d[0]) == Sum(Total, d[0].1);
      assert forall i :: 0 < i < |d| ==> d[i] == d[1..][i - 1];
    }
  }

  lemma {:induction false} HoistExact(d: Items)
    requires SoundDict(d) && EveryIn(d, SoundDict, CountedResult)
    ensures SoundDict(Hoist(d)) && EveryIn(Hoist(d), SoundDict, CountedResult)
    ensures var before, after := SumAll(Total, d), SumAll(Total, Hoist(d));
            if HoistClashes(d) then after < before else forall m :: SumAll(m, Hoist(d)) == SumAll(m, d)
    decreases SizeAll(d)
  {
    if IsChain(d) {
      var items := d[0].1.items;
      var r := Rename(d[0].0, items);
      HoistShrinks(d);
      EveryAt(d, 0, SoundDict, CountedResult);
      EveryCounted(items);
      RenameEvery([], d[0].0, items, SoundDict, CountedResult);
      RenameConserves(d[0].0, items);
      SingleSum(d);
      hide Rename;
      assert r != [] by { RenameNonEmpty(d[0].0, items); }
      HoistExact(r);
    }
  }

  lemma RenameNonEmpty(key: Key, d: Items)
    requires d != []
    ensures Rename(key, d) != []
  {
    RenameOntoGrows(Put([], Prefixed(key, d[0].0), d[0].1), key, d[1..]);
  }

  lemma {:induction false} RenameOntoGrows(acc: Items, key: Key, d: Items)
    ensures |RenameOnto(acc, key, d)| >= |acc|
    decreases |d|
  {
    if d != [] {
      PutShape(acc, Prefixed(key, d[0].0), d[0].1);
      RenameOntoGrows(Put(acc, Prefixed(key, d[0].0), d[0].1), key, d[1..]);
    }
  }

  lemma PartialExact(d: Items)
    requires SoundDict(d) && EveryIn(d, SoundDict, CountedResult)
    ensures Every(Node(PartialCompaction(d)), SoundDict, CountedResult)
    ensures var before, after := SumAll(Total, d), SumAll(Total, PartialCompaction(d));
            if Overwrites(d) then after < before else forall m :: SumAll(m, PartialCompaction(d)) == SumAll(m, d)
  {
    var kept, successes := Select(d, false), Select(d, true);
    SelectSizes(d);
    SelectDistinct(d, false);
    EverySelect(d, false, SoundDict, CountedResult);
    EverySelect(d, true, SoundDict, CountedResult);
    EveryCounted(d);
    forall m ensures !Overwrites(d) ==> SumAll(m, PartialCompaction(d)) == SumAll(m, d) {
      PartialCompactionConserves(m, d);
    }
    PartialCompactionConserves(Total, d);
    hide Select;
    if |successes| > 0 {
      EveryAt(successes, 0, SoundDict, CountedResult);
      var x := Merged(successes);
      PutShape(kept, x.0, x.1);
      EveryPut(kept, x.0, x.1, SoundDict, CountedResult);
    }
  }

  /** A call of `compact_results` overwrites an item: while hoisting, or while merging successes. */
  ghost predicate Loses(d: Items) {
    !(|d| == 1 && d[0].0 == None) && (HoistClashes(d) || (!OneStatus(Hoist(d)) && Overwrites(Hoist(d))))
  }

  lemma CompactDictExact(d: Items)
    requires SoundDict(d) && EveryIn(d, SoundDict, CountedResult)
    ensures Every(CompactDict(d), SoundDict, CountedResult)
    ensures var before, after := SumAll(Total, d), Sum(Total, CompactDict(d));
            if Loses(d) then after < before else forall m :: Sum(m, CompactDict(d)) == SumAll(m, d)
  {
    var h := Hoist(d);
    hide Hoist, HoistClashes, PartialCompaction, Folded, Overwrites;
    if |d| == 1 && d[0].0 == None {
      EveryAt(d, 0, SoundDict, CountedResult);
      OneItem(d);
    } else {
      HoistExact(d);
      if OneStatus(h) {
        FoldedIs(h);
        EveryCounted(h);
        assert Folded(h).result.count == Sum(Total, Folded(h));
      } else {
        PartialExact(h);
      }
    }
  }

  /** Python's dicts: no key twice. */
  ghost predicate DistinctTree(t: Tree) { t.Dict? ==> Distinct(t.items) && DistinctIn(t.items) }

  ghost predicate DistinctItem(item: (Key, Tree)) { DistinctTree(item.1) }

  ghost predicate DistinctIn(items: seq<(Key, Tree)>) {
    items == [] || (DistinctItem(items[0]) && DistinctIn(items[1..]))
  }

  /** Somewhere in the tree a call overwrites an item. */
  ghost predicate LosesTests(t: Tree) { t.Dict? && (LosesIn(t.items) || Loses(VisitAll(t.items))) }

  ghost predicate LosesItem(item: (Key, Tree)) { LosesTests(item.1) }

  ghost predicate LosesIn(items: seq<(Key, Tree)>) {
    items != [] && (LosesItem(items[0]) || LosesIn(items[1..]))
  }

  /** The report counts every test of a tree without empty dicts exactly when no call overwrites an
      item; otherwise it counts fewer, and nothing makes up for it. */
  lemma {:induction false} VisitLoses(t: Tree)
    requires NoEmptyDict(t) && DistinctTree(t)
    ensures Every(Visit(t), SoundDict, CountedResult)
    ensures var before, after := SumTree(Total, t), Sum(Total, Visit(t));
            if LosesTests(t) then after < before else forall m :: Sum(m, Visit(t)) == SumTree(m, t)
  {
    if t.Dict? {
      VisitAllLoses(t.items);
      VisitAllKeys(t.items);
      CompactDictExact(VisitAll(t.items));
    }
  }

  lemma {:induction false} VisitItemLoses(item: (Key, Tree))
    requires NoEmptyItem(item) && DistinctItem(item)
    ensures EveryItem(VisitItem(item), SoundDict, CountedResult)
    ensures var before, after := SumTreeItem(Total, item), SumItem(Total, VisitItem(item));
            if LosesItem(item) then after < before else forall m :: SumItem(m, VisitItem(item)) == SumTreeItem(m, item)
  {
    VisitLoses(item.1);
  }

  lemma {:induction false} VisitAllLoses(items: seq<(Key, Tree)>)
    requires NoEmptyIn(items) && DistinctIn(items)
    ensures EveryIn(VisitAll(items), SoundDict, CountedResult)
    ensures var before, after := SumTrees(Total, items), SumAll(Total, VisitAll(items));
            if LosesIn(items) then after < before else forall m :: SumAll(m, VisitAll(items)) == SumTrees(m, items)
  {
    if items != [] {
      VisitItemLoses(items[0]);
      VisitAllLoses(items[1..]);
    }
  }

  // ---- Why the trees must be clean ------------------------------------------

  const PASSED := CaseResult(true, false, None)
  const FAILED := CaseResult(false, false, Some("boom"))

  lemma VisitThree(a: (Key, Tree), b: (Key, Tree), c: (Key, Tree))
    ensures VisitAll([a, b, c]) == [VisitItem(a), VisitItem(b), VisitItem(c)]
  {
    VisitTwo(b, c);
    assert [a, b, c][1..] == [b, c];
  }

  lemma VisitTwo(a: (Key, Tree), b: (Key, Tree))
    ensures VisitAll([a, b]) == [VisitItem(a), VisitItem(b)]
  {
    VisitOne(b);
    assert [a, b][1..] == [b];
  }

  lemma VisitOne(a: (Key, Tree))
    ensures VisitAll([a]) == [VisitItem(a)]
  {
    var rest := [a][1..];
    assert |rest| == 0;
  }

  lemma SelectThree(x: (Key, Compact), y: (Key, Compact), z: (Key, Compact))
    requires !IsPerfect(x.1) && IsPerfect(y.1) && IsPerfect(z.1)
    ensures Select([x, y, z], false) == [x] && Select([x, y, z], true) == [y, z]
  {
    var none: Items := [];
    forall perfect
      ensures Select([x, y, z], perfect) == Selected(x, perfect) + (Selected(y, perfect) + Selected(z, perfect))
    {
      SelectNone(none);
      SelectCons(z, none, perfect);
      SelectCons(y, [z], perfect);
      SelectCons(x, [y, z], perfect);
      assert [z] + none == [z] && [y] + [z] == [y, z] && [x] + [y, z] == [x, y, z];
    }
  }

  /** A group named like the merged item loses its failures to it: two perfect successes beside it
      are enough. */
  lemma OthersKeyLosesFailures(a: Key, b: Key)
    requires a != b && a != OTHERS && b != OTHERS
    ensures var t := Dict([(OTHERS, Case(FAILED)), (a, Case(PASSED)), (b, Case(PASSED))]);
            Visit(t) == Node([(OTHERS, Result(CompactedResult(true, 2, 0, {})))])
  {
    var f, p := CompactCase(FAILED), CompactCase(PASSED);
    VisitThree((OTHERS, Case(FAILED)), (a, Case(PASSED)), (b, Case(PASSED)));
    var d: Items := [(OTHERS, f), (a, p), (b, p)];
    assert !IsPerfect(f) && IsPerfect(p);
    var successes: Items := [(a, p), (b, p)];
    SelectThree((OTHERS, f), (a, p), (b, p));
    MergedSum(Total, successes);
    AppendSum(Total, [(a, p)], (b, p));
    OneItem([(a, p)]);
    assert successes == [(a, p)] + [(b, p)];
    assert CountAll(successes) == 2;
    assert !OneStatus(d) by { assert d[0].1.result.success != d[1].1.result.success; }
    assert Put([(OTHERS, f)], OTHERS, Result(CompactedResult(true, 2, 0, {}))) ==
           [(OTHERS, Result(CompactedResult(true, 2, 0, {})))];
  }

  /** Hoisting a dict with the keys None and "None" keeps only the later of the two, and turns a
      failure and a success into a single success. */
  lemma NoneKeyLosesFailures(x: string)
    ensures var t := Dict([(Some(x), Dict([(None, Case(FAILED)), (Some("None"), Case(PASSED))]))]);
            Visit(t) == Result(CompactedResult(true, 1, 0, {}))
  {
    var p := CompactCase(PASSED);
    var inner: seq<(Key, Tree)> := [(None, Case(FAILED)), (Some("None"), Case(PASSED))];
    var k := Prefixed(Some(x), None);
    VisitTwo(inner[0], inner[1]);
    ClashingDict();
    VisitOne((Some(x), Dict(inner)));
    var outer := [(Some(x), Node(CLASHING))];
    assert VisitAll([(Some(x), Dict(inner))]) == outer;
    HoistShrinks(outer);
    ClashingRename(Some(x));
    assert Hoist(outer) == Hoist([(k, p)]) == [(k, p)];
    var rest := [(k, p)][1..];
    assert |rest| == 0 && CountAll(rest) == 0 && SkippedAll(rest) == 0 && MessagesAll(rest) == {};
  }

  const CLASHING: Items := [(None, CompactCase(FAILED)), (Some("None"), CompactCase(PASSED))]

  lemma ClashingDict()
    ensures CompactDict(CLASHING) == Node(CLASHING)
  {
    var d := CLASHING;
    assert d[1..] == [d[1]] && |d[1..][1..]| == 0;
    SelectFirst(d);
    SelectFirst(d[1..]);
    assert Select(d, false) == [d[0]] && Select(d, true) == [d[1]];
    assert !OneStatus(d) by { assert d[0].1.result.success != d[1].1.result.success; }
    var kept := [d[0]];
    assert |kept[1..]| == 0;
    assert Put(kept, d[1].0, d[1].1) == [d[0], d[1]];
  }

  lemma ClashingRename(key: Key)
    ensures Rename(key, CLASHING) == [(Prefixed(key, None), CompactCase(PASSED))]
  {
    var d, k := CLASHING, Prefixed(key, None);
    assert Prefixed(key, Some("None")) == k;
    assert d[1..] == [d[1]] && |d[1..][1..]| == 0;
    var once, twice := [(k, d[0].1)], [(k, d[1].1)];
    assert Put([], k, d[0].1) == once;
    assert Put(once, k, d[1].1) == twice;
    assert RenameOnto(twice, key, d[1..][1..]) == twice;
    assert RenameOnto(once, key, d[1..]) == twice;
  }
}
