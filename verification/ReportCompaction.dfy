/** What compaction keeps and what it decides: conservation of the counts and messages, the normal
    form of its output, and uniformity as the meaning of a single result. */
module ReportCompaction {
  import opened Wrappers
  import opened Report

  // ---- Totals --------------------------------------------------------------

  /** What is counted: all tests, the failed ones, the skipped ones, or the skipped ones that failed. */
  datatype Measure = Total | Failed | Skipped | SkippedFailures {
    function OfCase(c: CaseResult): nat {
      match this
      case Total => 1
      case Failed => if c.success then 0 else 1
      case Skipped => if c.skipped then 1 else 0
      case SkippedFailures => if c.skipped && !c.success then 1 else 0
    }

    function OfResult(c: CompactedResult): nat {
      match this
      case Total => c.count
      case Failed => if c.success then 0 else c.count
      case Skipped => c.skipped
      case SkippedFailures => if c.success then 0 else c.skipped
    }
  }

  function SumTree(m: Measure, t: Tree): nat {
    match t
    case Case(c) => m.OfCase(c)
    case Dict(items) => SumTrees(m, items)
  }

  function SumTreeItem(m: Measure, item: (Key, Tree)): nat { SumTree(m, item.1) }

  function SumTrees(m: Measure, items: seq<(Key, Tree)>): nat {
    if items == [] then 0 else SumTreeItem(m, items[0]) + SumTrees(m, items[1..])
  }

  function Sum(m: Measure, v: Compact): nat {
    match v
    case Result(c) => m.OfResult(c)
    case Node(items) => SumAll(m, items)
  }

  function SumItem(m: Measure, item: (Key, Compact)): nat { Sum(m, item.1) }

  function SumAll(m: Measure, d: Items): nat {
    if d == [] then 0 else SumItem(m, d[0]) + SumAll(m, d[1..])
  }

  function MessagesTree(t: Tree): set<string> {
    match t
    case Case(c) => MessageSet(c)
    case Dict(items) => MessagesTrees(items)
  }

  function MessagesTreeItem(item: (Key, Tree)): set<string> { MessagesTree(item.1) }

  function MessagesTrees(items: seq<(Key, Tree)>): set<string> {
    if items == [] then {} else MessagesTreeItem(items[0]) + MessagesTrees(items[1..])
  }

  function MessagesOf(v: Compact): set<string> {
    match v
    case Result(c) => c.messages
    case Node(items) => MessagesIn(items)
  }

  function MessagesItem(item: (Key, Compact)): set<string> { MessagesOf(item.1) }

  function MessagesIn(d: Items): set<string> {
    if d == [] then {} else MessagesItem(d[0]) + MessagesIn(d[1..])
  }

  // ---- Trees the properties are about ---------------------------------------

  /** No dict of the tree holds the key the compaction writes itself, or two keys of one text. */
  ghost predicate Clean(t: Tree) {
    t.Dict? ==> KeysOk(t.items) && !HasKey(t.items, OTHERS) && CleanAll(t.items)
  }

  ghost predicate CleanItem(item: (Key, Tree)) { Clean(item.1) }

  ghost predicate CleanAll(items: seq<(Key, Tree)>) {
    items == [] || (CleanItem(items[0]) && CleanAll(items[1..]))
  }

  ghost predicate NoEmptyDict(t: Tree) { t.Dict? ==> t.items != [] && NoEmptyIn(t.items) }

  ghost predicate NoEmptyItem(item: (Key, Tree)) { NoEmptyDict(item.1) }

  ghost predicate NoEmptyIn(items: seq<(Key, Tree)>) {
    items == [] || (NoEmptyItem(items[0]) && NoEmptyIn(items[1..]))
  }

  /** Every test of the tree has this outcome. */
  ghost predicate Uniform(t: Tree, success: bool) {
    match t
    case Case(c) => c.success == success
    case Dict(items) => UniformIn(items, success)
  }

  ghost predicate UniformItem(item: (Key, Tree), success: bool) { Uniform(item.1, success) }

  ghost predicate UniformIn(items: seq<(Key, Tree)>, success: bool) {
    items == [] || (UniformItem(items[0], success) && UniformIn(items[1..], success))
  }

  /** Results as the report reads them: a skipped test counts as a success, and a success that was
      not skipped has nothing to say. */
  ghost predicate Readable(t: Tree) {
    match t
    case Case(c) => (c.skipped ==> c.success) && (c.success && !c.skipped ==> c.message.None? || c.message.value == "")
    case Dict(items) => ReadableIn(items)
  }

  ghost predicate ReadableItem(item: (Key, Tree)) { Readable(item.1) }

  ghost predicate ReadableIn(items: seq<(Key, Tree)>) {
    items == [] || (ReadableItem(items[0]) && ReadableIn(items[1..]))
  }

  // ---- One call of partial_compaction ---------------------------------------

  lemma SelectFirst(d: Items)
    requires d != []
    ensures var p := IsPerfect(d[0].1);
            Select(d, p) == [d[0]] + Select(d[1..], p) && Select(d, !p) == Select(d[1..], !p)
  {
  }

  lemma {:induction false} SelectSum(m: Measure, d: Items)
    ensures SumAll(m, Select(d, false)) + SumAll(m, Select(d, true)) == SumAll(m, d)
  {
    if d != [] {
      SelectSum(m, d[1..]);
      SelectFirst(d);
      ConsSum(m, d[0], Select(d[1..], IsPerfect(d[0].1)));
    }
  }

  lemma ConsSum(m: Measure, x: (Key, Compact), rest: Items)
    ensures SumAll(m, [x] + rest) == SumItem(m, x) + SumAll(m, rest)
  {
    assert ([x] + rest)[1..] == rest;
  }

  lemma {:induction false} MergedSum(m: Measure, d: Items)
    requires forall i :: 0 <= i < |d| ==> IsPerfect(d[i].1)
    ensures m.OfResult(CompactedResult(true, CountAll(d), 0, {})) == SumAll(m, d)
  {
    if d != [] {
      MergedSum(m, d[1..]);
      assert SumItem(m, d[0]) == m.OfResult(d[0].1.result);
    }
  }

  lemma {:induction false} AppendSum(m: Measure, d: Items, x: (Key, Compact))
    ensures SumAll(m, d + [x]) == SumAll(m, d) + SumItem(m, x)
  {
    if d == [] {
      assert d + [x] == [x] && [x][1..] == [];
    } else {
      AppendSum(m, d[1..], x);
      assert (d + [x])[1..] == d[1..] + [x];
    }
  }

  /** Overwriting takes away what exactly one value counts. */
  lemma {:induction false} OverwriteSum(m: Measure, d: Items, k: Key, v: Compact) returns (i: nat)
    requires HasKey(d, k)
    ensures i < |d| && d[i].0 == k
    ensures SumAll(m, Put(d, k, v)) + SumItem(m, d[i]) == SumAll(m, d) + Sum(m, v)
  {
    if d[0].0 == k {
      i := 0;
      ConsSum(m, (k, v), d[1..]);
    } else {
      assert HasKey(d[1..], k) by {
        var j :| 0 <= j < |d| && d[j].0 == k;
        assert d[1..][j - 1].0 == k;
      }
      var j := OverwriteSum(m, d[1..], k, v);
      i := j + 1;
      ConsSum(m, d[0], Put(d[1..], k, v));
    }
  }

  lemma SameKeySameItem(d: Items, x: (Key, Compact), y: (Key, Compact))
    requires Distinct(d) && x in d && y in d && x.0 == y.0
    ensures x == y
  {
    var i :| 0 <= i < |d| && d[i] == x;
    var j :| 0 <= j < |d| && d[j] == y;
    assert i == j;
  }

  lemma SelectDisjoint(d: Items, k: Key)
    requires Distinct(d) && HasKey(Select(d, true), k)
    ensures !HasKey(Select(d, false), k)
  {
    var kept, perfect := Select(d, false), Select(d, true);
    hide Select;
    var i :| 0 <= i < |perfect| && perfect[i].0 == k;
    forall j | 0 <= j < |kept| ensures kept[j].0 != k {
      if kept[j].0 == k {
        SameKeySameItem(d, perfect[i], kept[j]);
      }
    }
  }

  lemma {:induction false} SelectDistinct(d: Items, perfect: bool)
    requires Distinct(d)
    ensures Distinct(Select(d, perfect))
  {
    if d != [] {
      assert Distinct(d[1..]);
      SelectDistinct(d[1..], perfect);
      var rest := Select(d[1..], perfect);
      forall i | 0 <= i < |rest| ensures rest[i].0 != d[0].0 {
        assert rest[i] in d[1..];
        var j :| 0 <= j < |d| - 1 && d[1..][j] == rest[i];
        assert d[j + 1] == rest[i];
      }
    }
  }

  /** The items are lost exactly when two perfect successes are merged over an item that already
      bears the merged item's key and is not one of them. */
  ghost predicate Overwrites(d: Items) { |Select(d, true)| >= 2 && HasKey(Select(d, false), OTHERS) }

  ghost predicate Counted(d: Items) { forall i :: 0 <= i < |d| ==> SumItem(Total, d[i]) > 0 }

  /** The item that stands for the perfect successes. */
  function Merged(successes: Items): (Key, Compact)
    requires |successes| > 0
  {
    if |successes| == 1 then successes[0]
    else (OTHERS, Result(CompactedResult(true, CountAll(successes), 0, {})))
  }

  lemma MergedItemSum(m: Measure, d: Items)
    requires |Select(d, true)| > 0
    ensures SumItem(m, Merged(Select(d, true))) == SumAll(m, Select(d, true))
  {
    hide Select, CountAll;
    var successes := Select(d, true);
    if |successes| == 1 {
      OneItem(successes);
    } else {
      MergedSum(m, successes);
    }
  }

  lemma MergedKeyIsFree(d: Items)
    requires Distinct(d) && !Overwrites(d) && |Select(d, true)| > 0
    ensures !HasKey(Select(d, false), Merged(Select(d, true)).0)
  {
    hide Select;
    var successes := Select(d, true);
    if |successes| == 1 {
      assert HasKey(successes, successes[0].0);
      SelectDisjoint(d, successes[0].0);
    }
  }

  lemma PartialPuts(d: Items)
    requires |Select(d, true)| > 0
    ensures var x := Merged(Select(d, true)); PartialCompaction(d) == Put(Select(d, false), x.0, x.1)
  {
    hide Select, Put;
  }

  /** One call keeps all three counts exactly when it overwrites nothing. */
  lemma PartialCompactionConserves(m: Measure, d: Items)
    requires Distinct(d)
    ensures !Overwrites(d) ==> SumAll(m, PartialCompaction(d)) == SumAll(m, d)
    ensures Overwrites(d) && Counted(d) ==> SumAll(Total, PartialCompaction(d)) < SumAll(Total, d)
  {
    var kept, successes := Select(d, false), Select(d, true);
    SelectSum(m, d);
    hide Put, Select, SumAll, Sum, Merged;
    if |successes| == 0 {
      assert SumAll(m, successes) == 0 by { NothingSums(m, successes); }
    } else {
      PartialPuts(d);
      if Overwrites(d) {
        MergingLoses(d);
      } else {
        MergedKeyIsFree(d);
        MergedItemSum(m, d);
        PutFresh(kept, Merged(successes).0, Merged(successes).1);
        AppendSum(m, kept, Merged(successes));
      }
    }
  }

  lemma NothingSums(m: Measure, d: Items)
    requires |d| == 0
    ensures SumAll(m, d) == 0
  {
  }

  lemma MergingLoses(d: Items)
    requires Overwrites(d)
    ensures var x := Merged(Select(d, true));
            Counted(d) ==> SumAll(Total, Put(Select(d, false), x.0, x.1)) < SumAll(Total, d)
  {
    var kept, x := Select(d, false), Merged(Select(d, true));
    SelectSum(Total, d);
    MergedItemSum(Total, d);
    assert forall i :: 0 <= i < |kept| ==> kept[i] in d;
    hide Put, Select, SumAll;
    var i := OverwriteSum(Total, kept, OTHERS, x.1);
    assert kept[i] in d;
  }

  // ---- One call of compact_results on a dict --------------------------------

  lemma {:induction false} SameValues(d: Items, r: Items)
    requires |r| == |d| && forall i :: 0 <= i < |d| ==> r[i].1 == d[i].1
    ensures forall m :: SumAll(m, r) == SumAll(m, d)
    ensures MessagesIn(r) == MessagesIn(d)
    ensures |Select(r, true)| == |Select(d, true)|
  {
    if d != [] {
      SameValues(d[1..], r[1..]);
    }
  }

  lemma {:induction false} FoldSum(m: Measure, d: Items)
    requires OneStatus(d)
    ensures Sum(m, Folded(d)) == SumAll(m, d)
  {
    assert SumItem(m, d[0]) == m.OfResult(d[0].1.result);
    if |d| > 1 {
      assert forall i :: 0 <= i < |d[1..]| ==> d[1..][i] == d[i + 1];
      assert OneStatus(d[1..]) && d[1..][0] == d[1];
      FoldSum(m, d[1..]);
    } else {
      var rest := d[1..];
      assert |rest| == 0 && CountAll(rest) == 0 && SkippedAll(rest) == 0 && SumAll(m, rest) == 0;
    }
  }

  lemma {:induction false} FoldMessages(d: Items)
    requires AllResults(d)
    ensures MessagesAll(d) == MessagesIn(d)
  {
    if d != [] {
      assert forall i :: 0 <= i < |d[1..]| ==> d[1..][i] == d[i + 1];
      FoldMessages(d[1..]);
      assert MessagesItem(d[0]) == d[0].1.result.messages;
    }
  }

  // ---- Normal form of the output --------------------------------------------

  /** A dict of the output: never a single item, never results of one status only, and at most one
      perfect success. */
  ghost predicate NormalNode(d: Items) {
    KeysOk(d) && |d| != 1 && !OneStatus(d) && |Select(d, true)| <= 1
  }

  /** A failure hides no skipped test, and a perfect success has no message. */
  ghost predicate SoundResult(c: CompactedResult) {
    c.count > 0 && (!c.success ==> c.skipped == 0) && (c.Perfect() ==> c.messages == {})
  }

  ghost predicate CountedResult(c: CompactedResult) { c.count > 0 }

  ghost function Checked(readable: bool): CompactedResult -> bool {
    if readable then SoundResult else CountedResult
  }

  /** Where the loop stops: nothing hoisted, or one dict's items under new keys. */
  lemma {:induction false} HoistIs(d: Items, readable: bool)
    requires KeysOk(d) && EveryIn(d, NormalNode, Checked(readable))
    ensures KeysOk(Hoist(d)) && EveryIn(Hoist(d), NormalNode, Checked(readable))
    ensures forall m :: SumAll(m, Hoist(d)) == SumAll(m, d)
    ensures MessagesIn(Hoist(d)) == MessagesIn(d)
    ensures !IsChain(d) ==> Hoist(d) == d
    ensures IsChain(d) ==> !HasKey(Hoist(d), OTHERS) && !OneStatus(Hoist(d)) && |Hoist(d)| != 1
    ensures IsChain(d) && d[0].1.items != [] ==> Hoist(d) != []
  {
    hide Select, OneStatus, KeysOk, HasKey;
    if IsChain(d) {
      var items, r := d[0].1.items, Hoist(d);
      EveryAt(d, 0, NormalNode, Checked(readable));
      HoistOnce(d);
      hide Hoist;
      SingleSum(d);
      RenamedKeysOk(items, d[0].0, r);
      SameValues(items, r);
      EverySameValues(items, r, NormalNode, Checked(readable));
      SameStatus(items, r);
    }
  }

  lemma SingleSum(d: Items)
    requires IsChain(d)
    ensures forall m :: SumAll(m, d) == SumAll(m, d[0].1.items)
    ensures MessagesIn(d) == MessagesIn(d[0].1.items)
  {
    assert d[1..] == [];
    forall m ensures SumAll(m, d) == SumAll(m, d[0].1.items) {
      assert SumItem(m, d[0]) == Sum(m, d[0].1);
    }
    assert MessagesItem(d[0]) == MessagesOf(d[0].1);
  }

  lemma SameStatus(d: Items, r: Items)
    requires |r| == |d| && forall i :: 0 <= i < |d| ==> r[i].1 == d[i].1
    ensures OneStatus(r) ==> OneStatus(d)
  {
  }

  lemma HoistOnce(d: Items)
    requires IsChain(d) && KeysOk(d[0].1.items) && |d[0].1.items| != 1
    ensures Renamed(d[0].1.items, d[0].0, Hoist(d))
  {
    RenameIs(d[0].0, d[0].1.items);
    HoistShrinks(d);
    var r := Rename(d[0].0, d[0].1.items);
    assert Hoist(d) == Hoist(r) == r;
  }

  lemma {:induction false} SelectSizes(d: Items)
    ensures |Select(d, true)| + |Select(d, false)| == |d|
    ensures forall x :: x in d ==> x in Select(d, IsPerfect(x.1))
    ensures Select(Select(d, false), true) == []
  {
    if d != [] {
      SelectSizes(d[1..]);
      SelectFirst(d);
      var rest := Select(d[1..], false);
      assert ([d[0]] + rest)[1..] == rest && ([d[0]] + rest)[0] == d[0];
    }
  }

  lemma {:induction false} PutPresent(d: Items, k: Key, v: Compact) returns (i: nat)
    requires HasKey(d, k)
    ensures i < |d| && d[i].0 == k && Put(d, k, v) == d[i := (k, v)]
  {
    if d[0].0 == k {
      i := 0;
    } else {
      ConsKeys(d[0], d[1..]);
      assert d == [d[0]] + d[1..];
      hide HasKey;
      var j := PutPresent(d[1..], k, v);
      i := j + 1;
      assert [d[0]] + d[1..][j := (k, v)] == d[i := (k, v)];
    }
  }

  lemma PutShape(d: Items, k: Key, v: Compact)
    ensures |Put(d, k, v)| == |d| + (if HasKey(d, k) then 0 else 1)
    ensures (k, v) in Put(d, k, v)
    ensures forall x :: x in d && x.0 != k ==> x in Put(d, k, v)
    ensures forall x :: x in Put(d, k, v) ==> x in d || x == (k, v)
    ensures Distinct(d) ==> Distinct(Put(d, k, v))
  {
    hide Put, HasKey, Distinct;
    PutDistinct(d, k, v);
    var p := Put(d, k, v);
    if HasKey(d, k) {
      var i := PutPresent(d, k, v);
      assert p[i] == (k, v);
      forall x | x in d && x.0 != k ensures x in p {
        var j :| 0 <= j < |d| && d[j] == x;
        assert p[j] == x;
      }
    } else {
      PutFresh(d, k, v);
    }
  }

  lemma SelectIn(d: Items, x: (Key, Compact))
    requires x in d
    ensures x in Select(d, IsPerfect(x.1))
  {
    SelectSizes(d);
  }

  /** What partial compaction leaves of a dict that is not of one status. */
  lemma PartialIsNormal(d: Items, readable: bool)
    requires KeysOk(d) && |d| != 1 && !OneStatus(d) && !HasKey(d, OTHERS)
    requires EveryIn(d, NormalNode, Checked(readable))
    ensures NormalNode(PartialCompaction(d)) && EveryIn(PartialCompaction(d), NormalNode, Checked(readable))
  {
    var p := PartialCompaction(d);
    PartialKeys(d);
    PartialEvery(d, readable);
    NoOverwrite(d);
    PartialStatus(d);
    PartialPerfect(d);
  }

  lemma PartialKeys(d: Items)
    requires KeysOk(d) && !HasKey(d, OTHERS)
    ensures KeysOk(PartialCompaction(d))
  {
    var kept, successes, p := Select(d, false), Select(d, true), PartialCompaction(d);
    SelectDistinct(d, false);
    hide Select;
    if |successes| > 0 {
      var x := Merged(successes);
      PutShape(kept, x.0, x.1);
      assert p == Put(kept, x.0, x.1);
    }
    forall k | HasKey(p, k) ensures HasKey(d, k) || k == OTHERS {
      var i :| 0 <= i < |p| && p[i].0 == k;
      assert p[i] in p;
      assert p[i] in d || p[i].0 == OTHERS;
      if p[i] in d {
        var j :| 0 <= j < |d| && d[j] == p[i];
      }
    }
  }

  lemma PartialEvery(d: Items, readable: bool)
    requires EveryIn(d, NormalNode, Checked(readable))
    ensures EveryIn(PartialCompaction(d), NormalNode, Checked(readable))
  {
    var kept, successes := Select(d, false), Select(d, true);
    EverySelect(d, false, NormalNode, Checked(readable));
    EverySelect(d, true, NormalNode, Checked(readable));
    hide Select;
    if |successes| == 1 {
      EveryAt(successes, 0, NormalNode, Checked(readable));
      EveryPut(kept, successes[0].0, successes[0].1, NormalNode, Checked(readable));
    } else if |successes| >= 2 {
      EveryAt(successes, 0, NormalNode, Checked(readable));
      assert successes[0].1.result.count > 0;
      EveryPut(kept, OTHERS, Result(CompactedResult(true, CountAll(successes), 0, {})), NormalNode, Checked(readable));
    }
  }

  /** The mixture of statuses survives, and so do at least two items. */
  lemma PartialStatus(d: Items)
    requires Distinct(d) && |d| != 1 && !OneStatus(d) && !Overwrites(d)
    ensures |PartialCompaction(d)| != 1 && !OneStatus(PartialCompaction(d))
    ensures d != [] ==> |PartialCompaction(d)| >= 2
  {
    var kept, successes, p := Select(d, false), Select(d, true), PartialCompaction(d);
    SelectSizes(d);
    if |d| == 0 {
      assert p == kept == d;
    } else {
      hide Select, OneStatus, Put, HasKey, PartialCompaction;
      var other := NotAllSucceed(d);
      if |successes| > 0 {
        var x := Merged(successes);
        assert IsPerfect(x.1);
        hide Merged;
        PartialPuts(d);
        MergedKeyIsFree(d);
        PutFresh(kept, x.0, x.1);
        PutShape(kept, x.0, x.1);
        TwoStatuses(p, other, x);
      } else {
        PartialKeeps(d);
        AllKept(d, p);
      }
    }
  }

  lemma NotAllSucceed(d: Items) returns (x: (Key, Compact))
    requires !OneStatus(d) && d != []
    ensures x in Select(d, false) && !(x.1.Result? && x.1.result.success)
    ensures forall y :: y in Select(d, false) ==> y in d
  {
    var i: nat :| i < |d| && !(d[i].1.Result? && d[i].1.result.success);
    x := d[i];
    SelectIn(d, x);
  }

  lemma PartialKeeps(d: Items)
    requires |Select(d, true)| == 0
    ensures PartialCompaction(d) == Select(d, false)
    ensures forall x :: x in d <==> x in Select(d, false)
  {
    SelectSizes(d);
    forall x | x in d ensures x in Select(d, false) {
      assert x in Select(d, IsPerfect(x.1));
    }
  }

  lemma NotKept(d: Items, k: Key, successes: Items)
    requires Distinct(d) && !HasKey(d, OTHERS) && successes == Select(d, true)
    requires k == OTHERS || HasKey(successes, k)
    ensures !HasKey(Select(d, false), k)
  {
    if k == OTHERS {
      var kept := Select(d, false);
      forall i | 0 <= i < |kept| ensures kept[i].0 != k {
        assert kept[i] in d;
      }
    } else {
      SelectDisjoint(d, k);
    }
  }

  lemma TwoStatuses(p: Items, x: (Key, Compact), y: (Key, Compact))
    requires x in p && y in p && IsPerfect(y.1) && !(x.1.Result? && x.1.result.success)
    ensures !OneStatus(p)
  {
    var i :| 0 <= i < |p| && p[i] == x;
    var j :| 0 <= j < |p| && p[j] == y;
  }

  lemma AllKept(d: Items, p: Items)
    requires (forall x :: x in d ==> x in p) && !OneStatus(d) && d != [] && (forall x :: x in p ==> x in d)
    ensures !OneStatus(p)
  {
    if OneStatus(p) {
      forall i | 0 <= i < |d| ensures d[i].1.Result? && d[i].1.result.success == p[0].1.result.success {
        assert d[i] in p;
      }
    }
  }

  lemma {:induction false} PerfectPut(d: Items, k: Key, v: Compact)
    requires |Select(d, true)| == 0
    ensures |Select(Put(d, k, v), true)| <= 1
  {
    if d == [] {
      SelectSizes(Put(d, k, v));
    } else if d[0].0 == k {
      SelectFirst([(k, v)] + d[1..]);
      assert ([(k, v)] + d[1..])[1..] == d[1..];
    } else {
      PerfectPut(d[1..], k, v);
      var rest := Put(d[1..], k, v);
      SelectFirst([d[0]] + rest);
      assert ([d[0]] + rest)[1..] == rest;
    }
  }

  lemma PartialPerfect(d: Items)
    ensures |Select(PartialCompaction(d), true)| <= 1
  {
    var kept, successes := Select(d, false), Select(d, true);
    SelectSizes(d);
    if |successes| == 1 {
      PerfectPut(kept, successes[0].0, successes[0].1);
    } else if |successes| >= 2 {
      PerfectPut(kept, OTHERS, Result(CompactedResult(true, CountAll(successes), 0, {})));
    }
  }

  // ---- Messages ------------------------------------------------------------

  lemma ConsMessages(x: (Key, Compact), rest: Items)
    ensures MessagesIn([x] + rest) == MessagesItem(x) + MessagesIn(rest)
  {
    assert ([x] + rest)[1..] == rest;
  }

  lemma {:induction false} AppendMessages(d: Items, x: (Key, Compact))
    ensures MessagesIn(d + [x]) == MessagesIn(d) + MessagesItem(x)
  {
    if d == [] {
      assert d + [x] == [x] && |[x][1..]| == 0;
    } else {
      AppendMessages(d[1..], x);
      assert (d + [x])[1..] == d[1..] + [x];
    }
  }

  /** Perfect successes have no message, so leaving them out loses none. */
  lemma {:induction false} SelectMessages(d: Items)
    requires EveryIn(d, NormalNode, SoundResult)
    ensures MessagesIn(Select(d, false)) == MessagesIn(d)
  {
    if d != [] {
      SelectMessages(d[1..]);
      SelectFirst(d);
      ConsMessages(d[0], Select(d[1..], false));
      if IsPerfect(d[0].1) {
        EveryAt(d, 0, NormalNode, SoundResult);
        assert MessagesItem(d[0]) == d[0].1.result.messages;
      }
    }
  }

  lemma PartialMessages(d: Items)
    requires KeysOk(d) && !HasKey(d, OTHERS) && EveryIn(d, NormalNode, SoundResult)
    ensures MessagesIn(PartialCompaction(d)) == MessagesIn(d)
  {
    var kept, successes := Select(d, false), Select(d, true);
    SelectMessages(d);
    EverySelect(d, true, NormalNode, SoundResult);
    if |successes| > 0 {
      EveryAt(successes, 0, NormalNode, SoundResult);
      var x := Merged(successes);
      NotKept(d, x.0, successes);
      PutFresh(kept, x.0, x.1);
      AppendMessages(kept, x);
      assert MessagesItem(x) == x.1.result.messages == {};
    }
  }

  // ---- One dict ------------------------------------------------------------

  lemma {:induction false} FoldIsChecked(d: Items, readable: bool)
    requires OneStatus(d) && EveryIn(d, NormalNode, Checked(readable))
    ensures Checked(readable)(Folded(d).result)
  {
    EveryAt(d, 0, NormalNode, Checked(readable));
    if |d| > 1 {
      assert forall i :: 0 <= i < |d[1..]| ==> d[1..][i] == d[i + 1];
      assert OneStatus(d[1..]) && d[1..][0] == d[1];
      FoldIsChecked(d[1..], readable);
    } else {
      var rest := d[1..];
      assert |rest| == 0 && CountAll(rest) == 0 && SkippedAll(rest) == 0 && MessagesAll(rest) == {};
    }
  }

  /** One application of the rewriting to a dict whose values have been rewritten. */
  lemma CompactDictIs(d: Items, readable: bool)
    requires KeysOk(d) && !HasKey(d, OTHERS) && EveryIn(d, NormalNode, Checked(readable))
    ensures Every(CompactDict(d), NormalNode, Checked(readable))
    ensures forall m :: Sum(m, CompactDict(d)) == SumAll(m, d)
    ensures readable ==> MessagesOf(CompactDict(d)) == MessagesIn(d)
    ensures CompactDict(d).Result? ==> OneStatus(d)
  {
    var h := Hoist(d);
    hide Hoist, PartialCompaction, Folded;
    if |d| == 1 && d[0].0 == None {
      EveryAt(d, 0, NormalNode, Checked(readable));
      OneItem(d);
    } else {
      HoistIs(d, readable);
      if OneStatus(h) {
        FoldIsChecked(h, readable);
        FoldMessages(h);
        FoldedIs(h);
      } else {
        PartialIsNormal(h, readable);
        forall m ensures SumAll(m, PartialCompaction(h)) == SumAll(m, h) {
          NoOverwrite(h);
          PartialCompactionConserves(m, h);
        }
        if readable {
          PartialMessages(h);
        }
      }
    }
  }

  lemma OneItem(d: Items)
    requires |d| == 1
    ensures forall m :: SumAll(m, d) == Sum(m, d[0].1)
    ensures MessagesIn(d) == MessagesOf(d[0].1)
  {
    var rest := d[1..];
    assert |rest| == 0;
    forall m ensures SumAll(m, d) == Sum(m, d[0].1) {
      assert SumItem(m, d[0]) == Sum(m, d[0].1) && SumAll(m, rest) == 0;
    }
    assert MessagesItem(d[0]) == MessagesOf(d[0].1);
    assert MessagesIn(rest) == {};
  }

  lemma FoldedIs(d: Items)
    requires OneStatus(d)
    ensures Folded(d).Result? && Folded(d).result.success == d[0].1.result.success
    ensures forall m :: Sum(m, Folded(d)) == SumAll(m, d)
    ensures MessagesOf(Folded(d)) == MessagesAll(d)
  {
    forall m ensures Sum(m, Folded(d)) == SumAll(m, d) {
      FoldSum(m, d);
    }
  }

  lemma NoOverwrite(d: Items)
    requires !HasKey(d, OTHERS)
    ensures !Overwrites(d)
  {
    var kept := Select(d, false);
    forall i | 0 <= i < |kept| ensures kept[i].0 != OTHERS {
      assert kept[i] in d;
    }
  }

  // ---- The whole tree --------------------------------------------------------

  lemma {:induction false} VisitAllKeys(items: seq<(Key, Tree)>)
    ensures |VisitAll(items)| == |items|
    ensures forall i :: 0 <= i < |items| ==> VisitAll(items)[i].0 == items[i].0
  {
    if items != [] {
      VisitAllKeys(items[1..]);
    }
  }

  lemma VisitAllKeysOk(items: seq<(Key, Tree)>)
    requires KeysOk(items) && !HasKey(items, OTHERS)
    ensures KeysOk(VisitAll(items)) && !HasKey(VisitAll(items), OTHERS)
  {
    VisitAllKeys(items);
  }

  /** Normal form and conservation: on a clean tree the output is in normal form and counts the same
      tests, failures and skipped tests; if the results are readable it also holds the same
      messages, and no failure in it has a skipped test. */
  lemma {:induction false} VisitConserves(t: Tree, readable: bool)
    requires Clean(t) && (readable ==> Readable(t))
    ensures Every(Visit(t), NormalNode, Checked(readable))
    ensures forall m :: Sum(m, Visit(t)) == SumTree(m, t)
    ensures readable ==> MessagesOf(Visit(t)) == MessagesTree(t)
  {
    if t.Dict? {
      VisitAllConserves(t.items, readable);
      VisitAllKeysOk(t.items);
      CompactDictIs(VisitAll(t.items), readable);
    }
  }

  lemma {:induction false} VisitItemConserves(item: (Key, Tree), readable: bool)
    requires CleanItem(item) && (readable ==> ReadableItem(item))
    ensures EveryItem(VisitItem(item), NormalNode, Checked(readable))
    ensures forall m :: SumItem(m, VisitItem(item)) == SumTreeItem(m, item)
    ensures readable ==> MessagesItem(VisitItem(item)) == MessagesTreeItem(item)
  {
    VisitConserves(item.1, readable);
  }

  lemma {:induction false} VisitAllConserves(items: seq<(Key, Tree)>, readable: bool)
    requires CleanAll(items) && (readable ==> ReadableIn(items))
    ensures EveryIn(VisitAll(items), NormalNode, Checked(readable))
    ensures forall m :: SumAll(m, VisitAll(items)) == SumTrees(m, items)
    ensures readable ==> MessagesIn(VisitAll(items)) == MessagesTrees(items)
  {
    if items != [] {
      VisitItemConserves(items[0], readable);
      VisitAllConserves(items[1..], readable);
    }
  }

  /** Some test of the tree has this message. */
  ghost predicate Says(t: Tree, m: string) {
    match t
    case Case(c) => c.message == Some(m)
    case Dict(items) => SaysIn(items, m)
  }

  ghost predicate SaysItem(item: (Key, Tree), m: string) { Says(item.1, m) }

  ghost predicate SaysIn(items: seq<(Key, Tree)>, m: string) {
    items != [] && (SaysItem(items[0], m) || SaysIn(items[1..], m))
  }

  lemma {:induction false} MessagesAreSaid(t: Tree, m: string)
    ensures m in MessagesTree(t) <==> m != "" && Says(t, m)
  {
    if t.Dict? {
      MessagesAreSaidIn(t.items, m);
    }
  }

  lemma {:induction false} MessagesAreSaidItem(item: (Key, Tree), m: string)
    ensures m in MessagesTreeItem(item) <==> m != "" && SaysItem(item, m)
  {
    MessagesAreSaid(item.1, m);
  }

  lemma {:induction false} MessagesAreSaidIn(items: seq<(Key, Tree)>, m: string)
    ensures m in MessagesTrees(items) <==> m != "" && SaysIn(items, m)
  {
    if items != [] {
      MessagesAreSaidItem(items[0], m);
      MessagesAreSaidIn(items[1..], m);
    }
  }

  /** A message is in the report exactly when it is not empty and some test has it. */
  lemma MessagesAreKept(t: Tree, m: string)
    requires Clean(t) && Readable(t)
    ensures m in MessagesOf(Visit(t)) <==> m != "" && Says(t, m)
  {
    VisitConserves(t, true);
    MessagesAreSaid(t, m);
  }

  // ---- Keys and order ------------------------------------------------------------

  /** The selected items are those items, in their order. */
  lemma SelectOrder(d: Items, perfect: bool) returns (at: seq<nat>)
    ensures |at| == |Select(d, perfect)|
    ensures forall i :: 0 <= i < |at| ==> at[i] < |d| && Select(d, perfect)[i] == d[at[i]]
    ensures forall i, j :: 0 <= i < j < |at| ==> at[i] < at[j]
    ensures forall k: nat :: k < |d| ==>
              (k in at <==> (d[k].1.Result? && d[k].1.result.success && d[k].1.result.skipped == 0) == perfect)
  {
    hide Select;
    at := SelectPlaces(d, perfect);
    assert forall k: nat :: k < |d| ==>
      (IsPerfect(d[k].1) <==> d[k].1.Result? && d[k].1.result.success && d[k].1.result.skipped == 0);
  }

  lemma {:induction false} SelectPlaces(d: Items, perfect: bool) returns (at: seq<nat>)
    ensures |at| == |Select(d, perfect)|
    ensures forall i :: 0 <= i < |at| ==> at[i] < |d| && Select(d, perfect)[i] == d[at[i]]
    ensures forall i, j :: 0 <= i < j < |at| ==> at[i] < at[j]
    ensures forall k: nat :: k < |d| ==> (k in at <==> IsPerfect(d[k].1) == perfect)
  {
    hide Select, IsPerfect;
    if |d| == 0 {
      at := [];
      SelectNone(d);
    } else {
      var n := |d| - 1;
      var init, last := d[..n], d[n];
      var before := SelectPlaces(init, perfect);
      assert d == init + [last];
      assert forall k :: 0 <= k < n ==> d[k] == init[k];
      SelectSnoc(init, last, perfect);
      if IsPerfect(last.1) == perfect {
        at := before + [n];
        forall k: nat | k < |d| ensures k in at <==> IsPerfect(d[k].1) == perfect {
          assert k in at <==> k in before || k == n;
        }
      } else {
        at := before;
      }
    }
  }

  /** Everything else stays as it is; perfect successes follow, one as it is and several as one item. */
  lemma PartialCompactionIs(d: Items)
    requires Distinct(d) && !HasKey(d, Some("(others)"))
    ensures var kept, successes := Select(d, false), Select(d, true);
            PartialCompaction(d) ==
            if |successes| == 0 then kept
            else if |successes| == 1 then kept + successes
            else kept + [(Some("(others)"), Result(CompactedResult(true, SumAll(Total, successes), 0, {})))]
  {
    var kept, successes := Select(d, false), Select(d, true);
    NoOverwrite(d);
    hide Put, Select, SumAll, Overwrites;
    if |successes| > 0 {
      var x := Merged(successes);
      PartialPuts(d);
      MergedKeyIsFree(d);
      PutFresh(kept, x.0, x.1);
      if |successes| == 1 {
        assert successes == [x];
      } else {
        MergedSum(Total, successes);
      }
    }
  }

  /** The key None of a single item goes without a trace. */
  lemma VisitNone(t: Tree)
    ensures Visit(Dict([(None, t)])) == Visit(t)
  {
    var items := [(None, t)];
    var rest := items[1..];
    assert |rest| == 0 && VisitAll(rest) == [];
    assert VisitAll(items) == [VisitItem(items[0])] + VisitAll(rest);
    assert VisitAll(items) == [VisitItem(items[0])];
  }

  /** Any other key of a single item is put before the keys of its value. */
  lemma VisitChain(key: Key, t: Tree, inner: Items, renamed: Items)
    requires key != None && Visit(t) == Node(inner) && KeysOk(inner) && |inner| >= 2 && !OneStatus(inner)
    requires Renamed(inner, key, renamed)
    ensures Visit(Dict([(key, t)])) == Node(PartialCompaction(renamed))
  {
    var items := [(key, t)];
    var rest := items[1..];
    assert |rest| == 0 && VisitAll(rest) == [];
    assert VisitAll(items) == [VisitItem(items[0])] + VisitAll(rest);
    var d := [(key, Visit(t))];
    assert VisitAll(items) == d;
    HoistOnce(d);
    SameStatus(inner, renamed);
    assert Hoist(d) == renamed;
  }

  ghost predicate NonEmptyNode(d: Items) { d != [] }

  lemma PartialNonEmpty(d: Items)
    requires KeysOk(d) && |d| != 1 && !OneStatus(d) && !HasKey(d, OTHERS) && d != []
    requires EveryIn(d, NonEmptyNode, AnyResult)
    ensures Every(Node(PartialCompaction(d)), NonEmptyNode, AnyResult)
  {
    var kept, successes := Select(d, false), Select(d, true);
    NoOverwrite(d);
    PartialStatus(d);
    EverySelect(d, false, NonEmptyNode, AnyResult);
    EverySelect(d, true, NonEmptyNode, AnyResult);
    if |successes| == 1 {
      EveryAt(successes, 0, NonEmptyNode, AnyResult);
      EveryPut(kept, successes[0].0, successes[0].1, NonEmptyNode, AnyResult);
    } else if |successes| >= 2 {
      EveryPut(kept, OTHERS, Result(CompactedResult(true, CountAll(successes), 0, {})), NonEmptyNode, AnyResult);
    }
  }

  lemma CompactDictNonEmpty(d: Items)
    requires KeysOk(d) && !HasKey(d, OTHERS) && d != []
    requires EveryIn(d, NormalNode, CountedResult) && EveryIn(d, NonEmptyNode, AnyResult)
    ensures Every(CompactDict(d), NonEmptyNode, AnyResult)
  {
    var h := Hoist(d);
    EveryAt(d, 0, NonEmptyNode, AnyResult);
    if !(|d| == 1 && d[0].0 == None) {
      HoistIs(d, false);
      if IsChain(d) {
        EveryAt(d, 0, NormalNode, CountedResult);
        HoistOnce(d);
        EverySameValues(d[0].1.items, h, NonEmptyNode, AnyResult);
      }
      if !OneStatus(h) {
        PartialNonEmpty(h);
      }
    }
  }

  /** When no dict of the tree is empty, none of the output is, so each has at least two items. */
  lemma {:induction false} VisitNonEmpty(t: Tree)
    requires Clean(t) && NoEmptyDict(t)
    ensures Every(Visit(t), NonEmptyNode, AnyResult)
  {
    if t.Dict? {
      VisitAllNonEmpty(t.items);
      VisitAllConserves(t.items, false);
      VisitAllKeysOk(t.items);
      VisitAllKeys(t.items);
      CompactDictNonEmpty(VisitAll(t.items));
    }
  }

  lemma {:induction false} VisitItemNonEmpty(item: (Key, Tree))
    requires CleanItem(item) && NoEmptyItem(item)
    ensures EveryItem(VisitItem(item), NonEmptyNode, AnyResult)
  {
    VisitNonEmpty(item.1);
  }

  lemma {:induction false} VisitAllNonEmpty(items: seq<(Key, Tree)>)
    requires CleanAll(items) && NoEmptyIn(items)
    ensures EveryIn(VisitAll(items), NonEmptyNode, AnyResult)
  {
    if items != [] {
      VisitItemNonEmpty(items[0]);
      VisitAllNonEmpty(items[1..]);
    }
  }

  // ---- Uniformity ----------------------------------------------------------

  /** A tree without empty dicts whose tests all have one outcome becomes a single result. */
  lemma {:induction false} UniformIsFolded(t: Tree, success: bool)
    requires NoEmptyDict(t) && Uniform(t, success)
    ensures Visit(t).Result? && Visit(t).result.success == success
  {
    if t.Dict? {
      UniformAllFolded(t.items, success);
      assert Visit(t) == CompactDict(VisitAll(t.items));
    }
  }

  lemma {:induction false} UniformItemFolded(item: (Key, Tree), success: bool)
    requires NoEmptyItem(item) && UniformItem(item, success)
    ensures VisitItem(item).1.Result? && VisitItem(item).1.result.success == success
  {
    UniformIsFolded(item.1, success);
  }

  lemma {:induction false} UniformAllFolded(items: seq<(Key, Tree)>, success: bool)
    requires NoEmptyIn(items) && UniformIn(items, success)
    ensures |VisitAll(items)| == |items|
    ensures forall i :: 0 <= i < |items| ==>
      VisitAll(items)[i].1.Result? && VisitAll(items)[i].1.result.success == success
  {
    if items != [] {
      UniformItemFolded(items[0], success);
      UniformAllFolded(items[1..], success);
    }
  }

  /** On a clean tree nothing else does. */
  lemma {:induction false} FoldedIsUniform(t: Tree)
    requires Clean(t) && Visit(t).Result?
    ensures NoEmptyDict(t) && Uniform(t, Visit(t).result.success)
  {
    if t.Dict? {
      var d := VisitAll(t.items);
      VisitAllKeys(t.items);
      VisitAllKeysOk(t.items);
      VisitAllConserves(t.items, false);
      CompactDictIs(d, false);
      FoldedFlag(d);
      FoldedAllUniform(t.items, Visit(t).result.success);
    }
  }

  lemma FoldedFlag(d: Items)
    requires OneStatus(d)
    ensures CompactDict(d).Result? && CompactDict(d).result.success == d[0].1.result.success
  {
    assert Hoist(d) == d;
  }

  lemma {:induction false} FoldedItemUniform(item: (Key, Tree), success: bool)
    requires CleanItem(item) && VisitItem(item).1.Result? && VisitItem(item).1.result.success == success
    ensures NoEmptyItem(item) && UniformItem(item, success)
  {
    FoldedIsUniform(item.1);
  }

  lemma {:induction false} FoldedAllUniform(items: seq<(Key, Tree)>, success: bool)
    requires CleanAll(items) && |VisitAll(items)| == |items|
    requires forall i :: 0 <= i < |items| ==>
      VisitAll(items)[i].1.Result? && VisitAll(items)[i].1.result.success == success
    ensures NoEmptyIn(items) && UniformIn(items, success)
  {
    if items != [] {
      assert VisitAll(items)[0] == VisitItem(items[0]) && VisitAll(items)[1..] == VisitAll(items[1..]);
      assert forall i :: 0 <= i < |items| - 1 ==> VisitAll(items[1..])[i] == VisitAll(items)[i + 1];
      FoldedItemUniform(items[0], success);
      FoldedAllUniform(items[1..], success);
    }
  }

  /** Compaction decides uniformity: a clean tree becomes a single result with a given flag exactly
      when it has no empty dict and every one of its tests has that outcome. */
  lemma CompactionDecidesUniformity(t: Tree, success: bool)
    requires Clean(t)
    ensures Visit(t).Result? && Visit(t).result.success == success <==> NoEmptyDict(t) && Uniform(t, success)
  {
    if Visit(t).Result? {
      FoldedIsUniform(t);
    }
    if NoEmptyDict(t) && Uniform(t, success) {
      UniformIsFolded(t, success);
    }
  }

  // ---- Nothing is added --------------------------------------------------------

  lemma PutNeverAdds(m: Measure, d: Items, k: Key, v: Compact)
    ensures SumAll(m, Put(d, k, v)) <= SumAll(m, d) + Sum(m, v)
  {
    if HasKey(d, k) {
      var i := OverwriteSum(m, d, k, v);
    } else {
      PutFresh(d, k, v);
      AppendSum(m, d, (k, v));
    }
  }

  lemma {:induction false} RenameNeverAdds(m: Measure, acc: Items, key: Key, d: Items)
    ensures SumAll(m, RenameOnto(acc, key, d)) <= SumAll(m, acc) + SumAll(m, d)
    decreases |d|
  {
    hide Put, Prefixed, Sum;
    if d != [] {
      var k, v := Prefixed(key, d[0].0), d[0].1;
      PutNeverAdds(m, acc, k, v);
      RenameNeverAdds(m, Put(acc, k, v), key, d[1..]);
    }
  }

  lemma {:induction false} HoistNeverAdds(m: Measure, d: Items)
    ensures SumAll(m, Hoist(d)) <= SumAll(m, d)
    decreases SizeAll(d)
  {
    if IsChain(d) {
      var none: Items := [];
      SingleSum(d);
      RenameNeverAdds(m, none, d[0].0, d[0].1.items);
      HoistShrinks(d);
      HoistNeverAdds(m, Rename(d[0].0, d[0].1.items));
    }
  }

  lemma PartialNeverAdds(m: Measure, d: Items)
    ensures SumAll(m, PartialCompaction(d)) <= SumAll(m, d)
  {
    var kept, successes := Select(d, false), Select(d, true);
    SelectSum(m, d);
    if |successes| > 0 {
      var x := Merged(successes);
      PartialPuts(d);
      MergedItemSum(m, d);
      PutNeverAdds(m, kept, x.0, x.1);
    }
  }

  lemma CompactDictNeverAdds(m: Measure, d: Items)
    ensures Sum(m, CompactDict(d)) <= SumAll(m, d)
  {
    var h := Hoist(d);
    hide Hoist, PartialCompaction, Folded;
    if |d| == 1 && d[0].0 == None {
      OneItem(d);
    } else {
      HoistNeverAdds(m, d);
      if OneStatus(h) {
        FoldedIs(h);
      } else {
        PartialNeverAdds(m, h);
      }
    }
  }

  /** On every tree, whatever its keys: compaction never makes up a test, a failure, a skipped test or
      a skipped failure. */
  lemma {:induction false} VisitNeverAdds(m: Measure, t: Tree)
    ensures Sum(m, Visit(t)) <= SumTree(m, t)
  {
    if t.Dict? {
      VisitAllNeverAdds(m, t.items);
      CompactDictNeverAdds(m, VisitAll(t.items));
    }
  }

  lemma {:induction false} VisitItemNeverAdds(m: Measure, item: (Key, Tree))
    ensures SumItem(m, VisitItem(item)) <= SumTreeItem(m, item)
  {
    VisitNeverAdds(m, item.1);
  }

  lemma {:induction false} VisitAllNeverAdds(m: Measure, items: seq<(Key, Tree)>)
    ensures SumAll(m, VisitAll(items)) <= SumTrees(m, items)
  {
    if items != [] {
      VisitItemNeverAdds(m, items[0]);
      VisitAllNeverAdds(m, items[1..]);
    }
  }

  // ---- The assertion of format_results --------------------------------------

  /** Whether formatting every result of a value passes the assertion on failed results. */
  predicate FormatsWithoutError(v: Compact) {
    match v
    case Result(c) => c.success || c.skipped == 0
    case Node(items) => FormatsAll(items)
  }

  predicate FormatsItem(item: (Key, Compact)) { FormatsWithoutError(item.1) }

  predicate FormatsAll(d: Items) { d == [] || (FormatsItem(d[0]) && FormatsAll(d[1..])) }

  lemma {:induction false} FormatsIs(v: Compact)
    ensures FormatsWithoutError(v) <==> Sum(SkippedFailures, v) == 0
  {
    if v.Node? {
      FormatsAllIs(v.items);
    }
  }

  lemma {:induction false} FormatsItemIs(item: (Key, Compact))
    ensures FormatsItem(item) <==> SumItem(SkippedFailures, item) == 0
  {
    FormatsIs(item.1);
  }

  lemma {:induction false} FormatsAllIs(d: Items)
    ensures FormatsAll(d) <==> SumAll(SkippedFailures, d) == 0
  {
    if d != [] {
      FormatsItemIs(d[0]);
      FormatsAllIs(d[1..]);
    }
  }

  /** On every tree in which no failed test is marked as skipped, the assertion never fires on what
      compaction produces; and on a clean tree it fires whenever there is such a test. */
  lemma FormatNeverFails(t: Tree)
    ensures SumTree(SkippedFailures, t) == 0 ==> FormatsWithoutError(Visit(t))
    ensures Clean(t) && FormatsWithoutError(Visit(t)) ==> SumTree(SkippedFailures, t) == 0
  {
    FormatsIs(Visit(t));
    VisitNeverAdds(SkippedFailures, t);
    if Clean(t) {
      VisitConserves(t, false);
    }
  }

  /** Readable results are such. */
  lemma {:induction false} ReadableSkips(t: Tree)
    requires Readable(t)
    ensures SumTree(SkippedFailures, t) == 0
  {
    if t.Dict? {
      ReadableSkipsIn(t.items);
    }
  }

  lemma {:induction false} ReadableSkipsItem(item: (Key, Tree))
    requires ReadableItem(item)
    ensures SumTreeItem(SkippedFailures, item) == 0
  {
    ReadableSkips(item.1);
  }

  lemma {:induction false} ReadableSkipsIn(items: seq<(Key, Tree)>)
    requires ReadableIn(items)
    ensures SumTrees(SkippedFailures, items) == 0
  {
    if items != [] {
      ReadableSkipsItem(items[0]);
      ReadableSkipsIn(items[1..]);
    }
  }
}
