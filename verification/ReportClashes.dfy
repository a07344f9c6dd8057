/** When compaction loses tests, read off the tree itself before it is compacted: the exact condition,
    and what holds on every tree that does not meet it. */
module ReportClashes {
  import opened Wrappers
  import opened Report
  import opened ReportCompaction
  import opened ReportLosses

  // ---- The condition -----------------------------------------------------------

  /** All tests of the tree succeeded and none was skipped. */
  ghost predicate Perfect(t: Tree) { Uniform(t, true) && SumTree(Skipped, t) == 0 }

  /** The tests of these items do not all have one outcome. */
  ghost predicate Mixed(items: seq<(Key, Tree)>) { !UniformIn(items, true) && !UniformIn(items, false) }

  ghost function PerfectCount(items: seq<(Key, Tree)>): nat {
    if items == [] then 0 else (if Perfect(items[0].1) then 1 else 0) + PerfectCount(items[1..])
  }

  /** An item with this key, which is perfect or is not. */
  ghost predicate HasItem(items: seq<(Key, Tree)>, k: Key, perfect: bool) {
    exists i :: 0 <= i < |items| && items[i].0 == k && Perfect(items[i].1) == perfect
  }

  /** The item with this key keeps it: it is not merged with other perfect ones. */
  ghost predicate Keeps(items: seq<(Key, Tree)>, k: Key) {
    HasItem(items, k, false) || (HasItem(items, k, true) && PerfectCount(items) <= 1)
  }

  /** A dict of one item with the key None stands for the value of that item. */
  function Unwrap(t: Tree): Tree {
    if t.Dict? && |t.items| == 1 && t.items[0].0 == None then Unwrap(t.items[0].1) else t
  }

  /** Several perfect items of a mixed dict are merged over an item that has their new key. */
  ghost predicate MergeClashes(items: seq<(Key, Tree)>) {
    Mixed(items) && PerfectCount(items) >= 2 && HasItem(items, OTHERS, false)
  }

  /** The only item of a dict is a mixed dict that keeps the key None and the key "None". */
  ghost predicate ChainClashes(items: seq<(Key, Tree)>) {
    |items| == 1 && items[0].0 != None &&
    var v := Unwrap(items[0].1);
    v.Dict? && Mixed(v.items) && Keeps(v.items, None) && Keeps(v.items, Some("None"))
  }

  /** Some dict of the tree is such. */
  ghost predicate Clashing(t: Tree) {
    t.Dict? && (ClashingIn(t.items) || MergeClashes(t.items) || ChainClashes(t.items))
  }

  ghost predicate ClashingItem(item: (Key, Tree)) { Clashing(item.1) }

  ghost predicate ClashingIn(items: seq<(Key, Tree)>) {
    items != [] && (ClashingItem(items[0]) || ClashingIn(items[1..]))
  }

  // ---- Outcomes are sums ---------------------------------------------------------

  lemma {:induction false} UniformSums(t: Tree)
    ensures SumTree(Failed, t) <= SumTree(Total, t)
    ensures Uniform(t, true) <==> SumTree(Failed, t) == 0
    ensures Uniform(t, false) <==> SumTree(Failed, t) == SumTree(Total, t)
  {
    if t.Dict? {
      UniformSumsIn(t.items);
    }
  }

  lemma {:induction false} UniformSumsItem(item: (Key, Tree))
    ensures SumTreeItem(Failed, item) <= SumTreeItem(Total, item)
    ensures UniformItem(item, true) <==> SumTreeItem(Failed, item) == 0
    ensures UniformItem(item, false) <==> SumTreeItem(Failed, item) == SumTreeItem(Total, item)
  {
    UniformSums(item.1);
  }

  lemma {:induction false} UniformSumsIn(items: seq<(Key, Tree)>)
    ensures SumTrees(Failed, items) <= SumTrees(Total, items)
    ensures UniformIn(items, true) <==> SumTrees(Failed, items) == 0
    ensures UniformIn(items, false) <==> SumTrees(Failed, items) == SumTrees(Total, items)
  {
    if items != [] {
      UniformSumsItem(items[0]);
      UniformSumsIn(items[1..]);
    }
  }

  // ---- One value of a tree that loses nothing --------------------------------------

  /** A tree as a report reads it, of which compaction loses nothing. */
  ghost predicate Safe(t: Tree) { NoEmptyDict(t) && DistinctTree(t) && !LosesTests(t) }

  /** It becomes a single result exactly when it is uniform, and a perfect one exactly when it is
      perfect. */
  lemma SafeValue(t: Tree)
    requires Safe(t)
    ensures Visit(t).Result? <==> Uniform(t, true) || Uniform(t, false)
    ensures Visit(t).Result? ==> Uniform(t, Visit(t).result.success)
    ensures IsPerfect(Visit(t)) <==> Perfect(t)
  {
    hide LosesTests, Visit;
    VisitLoses(t);
    UniformSums(t);
    if Uniform(t, true) {
      UniformIsFolded(t, true);
    }
    if Uniform(t, false) {
      UniformIsFolded(t, false);
    }
    assert forall m :: Sum(m, Visit(t)) == SumTree(m, t);
    if Visit(t).Result? {
      var c := Visit(t).result;
      assert Sum(Failed, Visit(t)) == Failed.OfResult(c) && Sum(Skipped, Visit(t)) == c.skipped;
      assert Sum(Total, Visit(t)) == c.count;
    }
  }

  lemma {:induction false} SafeAt(items: seq<(Key, Tree)>, i: nat)
    requires i < |items| && NoEmptyIn(items) && DistinctIn(items) && !LosesIn(items)
    ensures Safe(items[i].1)
  {
    hide Visit, Loses;
    if i == 0 {
      assert NoEmptyItem(items[0]) && DistinctItem(items[0]) && !LosesItem(items[0]);
    } else {
      SafeAt(items[1..], i - 1);
      assert items[1..][i - 1] == items[i];
    }
  }

  /** The compacted items, one for each, that are as perfect as the items were. */
  lemma {:induction false} SafeItems(items: seq<(Key, Tree)>)
    requires NoEmptyIn(items) && DistinctIn(items) && !LosesIn(items)
    ensures var d := VisitAll(items);
            && |d| == |items|
            && (forall i :: 0 <= i < |items| ==> d[i] == (items[i].0, Visit(items[i].1)))
            && (forall i :: 0 <= i < |items| ==> (IsPerfect(d[i].1) <==> Perfect(items[i].1)))
            && |Select(d, true)| == PerfectCount(items)
  {
    hide Visit, LosesTests, Perfect, IsPerfect;
    if items != [] {
      var d, rest := VisitAll(items), items[1..];
      SafeItems(rest);
      SafeAt(items, 0);
      SafeValue(items[0].1);
      assert d == [VisitItem(items[0])] + VisitAll(rest);
      SelectFirst(d);
    }
  }

  // ---- Keys of a compacted dict ----------------------------------------------------

  lemma {:induction false} SelectKeys(d: Items, perfect: bool)
    ensures forall k :: HasKey(Select(d, perfect), k) <==>
              exists i :: 0 <= i < |d| && d[i].0 == k && IsPerfect(d[i].1) == perfect
  {
    var s := Select(d, perfect);
    forall k ensures HasKey(s, k) <==> exists i :: 0 <= i < |d| && d[i].0 == k && IsPerfect(d[i].1) == perfect {
      if HasKey(s, k) {
        var j :| 0 <= j < |s| && s[j].0 == k;
        assert s[j] in d;
        var i :| 0 <= i < |d| && d[i] == s[j];
        assert d[i].0 == k && IsPerfect(d[i].1) == perfect;
      }
      if exists i :: 0 <= i < |d| && d[i].0 == k && IsPerfect(d[i].1) == perfect {
        var i :| 0 <= i < |d| && d[i].0 == k && IsPerfect(d[i].1) == perfect;
        SelectIn(d, d[i]);
        assert d[i] in s;
        var j :| 0 <= j < |s| && s[j] == d[i];
        assert s[j].0 == k;
      }
    }
  }

  lemma PartialKeyIs(d: Items, k: Key)
    requires k != OTHERS
    ensures HasKey(PartialCompaction(d), k) <==>
            HasKey(Select(d, false), k) || (|Select(d, true)| == 1 && HasKey(Select(d, true), k))
  {
    hide Select, HasKey, PartialCompaction;
    var kept, successes := Select(d, false), Select(d, true);
    if |successes| > 0 {
      var x := Merged(successes);
      PartialPuts(d);
      PutDistinct(kept, x.0, x.1);
      assert |successes| == 1 ==> (HasKey(successes, k) <==> successes[0].0 == k) by { OnlyKey(successes, k); }
    } else {
      PartialKeeps(d);
    }
  }

  lemma OnlyKey(d: Items, k: Key)
    ensures |d| == 1 ==> (HasKey(d, k) <==> d[0].0 == k)
  {
    if |d| == 1 && d[0].0 == k {
      assert HasKey(d, k);
    }
  }

  // ---- The dicts of the output are mixed ---------------------------------------------

  ghost predicate MixedDict(d: Items) { Distinct(d) && |d| >= 2 && !OneStatus(d) }

  lemma ChainIs(d: Items)
    requires IsChain(d) && EveryIn(d, MixedDict, AnyResult)
    ensures var items := d[0].1.items;
            && MixedDict(items)
            && (HoistClashes(d) <==> Clashes(items))
            && (!Clashes(items) ==>
                  && Renamed(items, d[0].0, Hoist(d)) && Distinct(Hoist(d)) && !HasKey(Hoist(d), OTHERS)
                  && !HasKey(Hoist(d), None)
                  && MixedDict(Hoist(d)) && EveryIn(Hoist(d), MixedDict, AnyResult))
  {
    var items, h := d[0].1.items, Hoist(d);
    EveryAt(d, 0, MixedDict, AnyResult);
    if !Clashes(items) {
      HoistOnce(d);
      var r := Rename(d[0].0, items);
      RenameIs(d[0].0, items);
      HoistShrinks(d);
      assert !HoistClashes(r);
      RenamedKeysOk(items, d[0].0, h);
      EverySameValues(items, h, MixedDict, AnyResult);
      SameStatus(items, h);
      forall i | 0 <= i < |h| ensures h[i].0 != None {
      }
    }
  }

  lemma PartialMixed(d: Items)
    requires MixedDict(d) && EveryIn(d, MixedDict, AnyResult) && !Overwrites(d)
    ensures Every(Node(PartialCompaction(d)), MixedDict, AnyResult)
  {
    var kept, successes := Select(d, false), Select(d, true);
    hide OneStatus;
    PartialStatus(d);
    SelectDistinct(d, false);
    EverySelect(d, false, MixedDict, AnyResult);
    EverySelect(d, true, MixedDict, AnyResult);
    hide Select, Overwrites, PartialCompaction, Put;
    if |successes| > 0 {
      EveryAt(successes, 0, MixedDict, AnyResult);
      var x := Merged(successes);
      PartialPuts(d);
      PutDistinct(kept, x.0, x.1);
      EveryPut(kept, x.0, x.1, MixedDict, AnyResult);
    } else {
      PartialKeeps(d);
    }
  }

  lemma CompactDictMixed(d: Items)
    requires SoundDict(d) && EveryIn(d, MixedDict, AnyResult) && !Loses(d)
    ensures Every(CompactDict(d), MixedDict, AnyResult)
  {
    if |d| == 1 && d[0].0 == None {
      EveryAt(d, 0, MixedDict, AnyResult);
    } else {
      var h := Hoist(d);
      hide OneStatus, Overwrites, PartialCompaction, Clashes, HoistClashes;
      if IsChain(d) {
        ChainIs(d);
      }
      if !OneStatus(h) {
        if |h| == 1 { SingleStatus(h); }
        PartialMixed(h);
      }
    }
  }

  lemma SingleStatus(d: Items)
    requires |d| == 1 && !IsChain(d)
    ensures OneStatus(d)
  {
  }

  lemma {:induction false} SafeIsMixed(t: Tree)
    requires Safe(t)
    ensures Every(Visit(t), MixedDict, AnyResult)
  {
    hide Loses, CompactDict;
    if t.Dict? {
      SafeAllMixed(t.items);
      VisitAllKeys(t.items);
      CompactDictMixed(VisitAll(t.items));
    }
  }

  lemma {:induction false} SafeItemMixed(item: (Key, Tree))
    requires Safe(item.1)
    ensures EveryItem(VisitItem(item), MixedDict, AnyResult)
  {
    SafeIsMixed(item.1);
  }

  lemma {:induction false} SafeAllMixed(items: seq<(Key, Tree)>)
    requires NoEmptyIn(items) && DistinctIn(items) && !LosesIn(items)
    ensures EveryIn(VisitAll(items), MixedDict, AnyResult)
  {
    if items != [] {
      SafeAt(items, 0);
      SafeItemMixed(items[0]);
      SafeAllMixed(items[1..]);
    }
  }
  // ---- A clash is a loss, and the only one -----------------------------------------

  lemma {:induction false} UniformParts(items: seq<(Key, Tree)>, success: bool)
    requires forall i :: 0 <= i < |items| ==> Uniform(items[i].1, success)
    ensures UniformIn(items, success)
  {
    if items != [] {
      assert UniformItem(items[0], success);
      UniformParts(items[1..], success);
    }
  }

  lemma StatusIsMixed(items: seq<(Key, Tree)>)
    requires items != [] && NoEmptyIn(items) && DistinctIn(items) && !LosesIn(items)
    ensures OneStatus(VisitAll(items)) <==> !Mixed(items)
  {
    hide Visit, LosesTests, LosesIn;
    var d := VisitAll(items);
    SafeItems(items);
    hide VisitAll, NoEmptyIn, DistinctIn;
    if UniformIn(items, true) { UniformAllFolded(items, true); }
    if UniformIn(items, false) { UniformAllFolded(items, false); }
    if OneStatus(d) {
      var success := d[0].1.result.success;
      forall i | 0 <= i < |items| ensures Uniform(items[i].1, success) {
        SafeAt(items, i);
        SafeValue(items[i].1);
      }
      UniformParts(items, success);
    }
  }

  lemma {:induction false} UnwrapIs(t: Tree)
    requires Safe(t)
    ensures var v := Unwrap(t);
            Safe(v) && Visit(v) == Visit(t) && !(v.Dict? && |v.items| == 1 && v.items[0].0 == None)
  {
    if t.Dict? && |t.items| == 1 && t.items[0].0 == None {
      hide LosesTests, Loses;
      assert !LosesIn(t.items) by { PartsLoseNothing(t); }
      SafeAt(t.items, 0);
      VisitOne(t.items[0]);
      assert [t.items[0]] == t.items;
      UnwrapIs(t.items[0].1);
    }
  }

  lemma PartsLoseNothing(t: Tree)
    requires t.Dict? && !LosesTests(t)
    ensures !LosesIn(t.items) && !Loses(VisitAll(t.items))
  {
  }

  /** The keys of the compacted items before and after partial compaction. */
  lemma KeptKeys(items: seq<(Key, Tree)>, k: Key)
    requires NoEmptyIn(items) && DistinctIn(items) && !LosesIn(items) && k != OTHERS
    ensures HasKey(PartialCompaction(VisitAll(items)), k) <==> Keeps(items, k)
  {
    hide Visit, LosesTests, Perfect, PartialCompaction, HasKey, LosesIn, VisitAll, NoEmptyIn, DistinctIn, Select;
    var d := VisitAll(items);
    SafeItems(items);
    SelectKeys(d, false);
    SelectKeys(d, true);
    PartialKeyIs(d, k);
    KeyNeedsItem(d, k);
  }

  lemma KeyNeedsItem(d: Items, k: Key)
    ensures HasKey(Select(d, true), k) ==> |Select(d, true)| > 0
  {
  }

  /** The value that a single item is replaced by holds both keys exactly when the tree keeps them. */
  lemma ValueClashes(t: Tree)
    requires Safe(t) && !(t.Dict? && |t.items| == 1 && t.items[0].0 == None)
    ensures Visit(t).Node? && Clashes(Visit(t).items) <==>
            t.Dict? && Mixed(t.items) && Keeps(t.items, None) && Keeps(t.items, Some("None"))
  {
    if t.Dict? {
      var items, d := t.items, VisitAll(t.items);
      PartsLoseNothing(t);
      hide LosesTests;
      VisitAllKeys(items);
      SafeAllMixed(items);
      StatusIsMixed(items);
      hide Keeps, Mixed, PartialCompaction, OneStatus, Overwrites, LosesIn, VisitAll;
      if IsChain(d) {
        ChainIs(d);
        hide Hoist;
        assert Visit(t) == Node(PartialCompaction(Hoist(d)));
        NoNewKey(Hoist(d), None);
        OneKeyOnly(items);
      } else {
        assert Hoist(d) == d;
        KeptKeys(items, None);
        KeptKeys(items, Some("None"));
      }
    }
  }

  lemma NoNewKey(d: Items, k: Key)
    requires !HasKey(d, k) && k != OTHERS
    ensures !HasKey(PartialCompaction(d), k)
  {
    hide PartialCompaction, Select;
    SelectKeys(d, false);
    SelectKeys(d, true);
    PartialKeyIs(d, k);
  }

  lemma OneKeyOnly(items: seq<(Key, Tree)>)
    requires |items| == 1 && items[0].0 != None
    ensures !Keeps(items, None)
  {
  }

  /** In a dict whose parts lose nothing, a call loses tests exactly when the tree shows it. */
  lemma LossHere(items: seq<(Key, Tree)>)
    requires items != [] && Distinct(items) && NoEmptyIn(items) && DistinctIn(items) && !LosesIn(items)
    ensures Loses(VisitAll(items)) <==> MergeClashes(items) || ChainClashes(items)
  {
    var d := VisitAll(items);
    VisitAllKeys(items);
    SafeItems(items);
    SelectSizes(d);
    hide Perfect, Keeps, Mixed, OneStatus, Select, VisitAll, Visit, LosesTests, LosesIn, PerfectCount;
    if |d| == 1 {
      SafeAt(items, 0);
      UnwrapIs(items[0].1);
      ValueClashes(Unwrap(items[0].1));
    }
    if IsChain(d) {
      SafeAllMixed(items);
      ChainIs(d);
      hide Hoist, HoistClashes;
      if !Clashes(d[0].1.items) {
        NoOverwrite(Hoist(d));
      }
    } else {
      assert Hoist(d) == d && !HoistClashes(d);
      StatusIsMixed(items);
      SelectKeys(d, false);
    }
  }

  /** Compaction of a tree without empty dicts loses tests exactly when the tree clashes. */
  lemma {:induction false} LossIsClash(t: Tree)
    requires NoEmptyDict(t) && DistinctTree(t)
    ensures LosesTests(t) <==> Clashing(t)
  {
    hide Loses, MergeClashes, ChainClashes;
    if t.Dict? {
      LossIsClashIn(t.items);
      if !LosesIn(t.items) {
        LossHere(t.items);
      }
    }
  }

  lemma {:induction false} LossIsClashItem(item: (Key, Tree))
    requires NoEmptyItem(item) && DistinctItem(item)
    ensures LosesItem(item) <==> ClashingItem(item)
  {
    LossIsClash(item.1);
  }

  lemma {:induction false} LossIsClashIn(items: seq<(Key, Tree)>)
    requires NoEmptyIn(items) && DistinctIn(items)
    ensures LosesIn(items) <==> ClashingIn(items)
  {
    if items != [] {
      LossIsClashItem(items[0]);
      LossIsClashIn(items[1..]);
    }
  }

  // ---- Main results --------------------------------------------------------------

  /** The report of a tree without empty dicts counts fewer tests than the tree if the tree clashes, and
      otherwise the same tests, failures, skipped tests and skipped failures. */
  lemma VisitExact(t: Tree)
    requires NoEmptyDict(t) && DistinctTree(t)
    ensures if Clashing(t) then Sum(Total, Visit(t)) < SumTree(Total, t)
            else forall m :: Sum(m, Visit(t)) == SumTree(m, t)
  {
    hide LosesTests, Clashing, Visit;
    LossIsClash(t);
    VisitLoses(t);
  }

  /** On a tree that does not clash, whatever its keys, compaction decides uniformity, and every dict of
      the output has at least two items and is not of one status. */
  lemma UniformityWithoutClash(t: Tree, success: bool)
    requires NoEmptyDict(t) && DistinctTree(t) && !Clashing(t)
    ensures Visit(t).Result? && Visit(t).result.success == success <==> Uniform(t, success)
    ensures Every(Visit(t), MixedDict, AnyResult)
  {
    hide LosesTests, Clashing, Visit;
    LossIsClash(t);
    SafeValue(t);
    SafeIsMixed(t);
    if Uniform(t, success) {
      UniformIsFolded(t, success);
    }
  }
}
