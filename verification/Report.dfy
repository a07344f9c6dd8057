/** The report tree of test results, and the compaction that rewrites it bottom-up: `partial_compaction`,
    `compact_results` and `visit_bottomup`. */
module Report {
  import opened Wrappers

  // ---- Data ----------------------------------------------------------------

  datatype CaseResult = CaseResult(success: bool, skipped: bool, message: Option<string>)

  datatype CompactedResult = CompactedResult(success: bool, count: nat, skipped: nat, messages: set<string>) {
    predicate Perfect() { success && skipped == 0 }
  }

  type Key = Option<string>

  /** Test results as they are read: a dict is its items in insertion order. */
  datatype Tree = Case(result: CaseResult) | Dict(items: seq<(Key, Tree)>)

  /** What compaction produces. */
  datatype Compact = Result(result: CompactedResult) | Node(items: seq<(Key, Compact)>)

  type Items = seq<(Key, Compact)>

  const OTHERS: Key := Some("(others)")

  ghost predicate Distinct<V>(d: seq<(Key, V)>) {
    forall i, j :: 0 <= i < j < |d| ==> d[i].0 != d[j].0
  }

  ghost predicate HasKey<V>(d: seq<(Key, V)>, k: Key) {
    exists i :: 0 <= i < |d| && d[i].0 == k
  }

  /** `d[k] = v`: in place when the key is there, at the end otherwise. */
  function Put(d: Items, k: Key, v: Compact): Items {
    if d == [] then [(k, v)]
    else if d[0].0 == k then [(k, v)] + d[1..]
    else [d[0]] + Put(d[1..], k, v)
  }

  // ---- partial_compaction --------------------------------------------------

  predicate IsPerfect(v: Compact) { v.Result? && v.result.Perfect() }

  /** The items whose value is, or is not, a perfect success, in their order. */
  function Select(d: Items, perfect: bool): (r: Items)
    ensures forall i :: 0 <= i < |r| ==> r[i] in d && IsPerfect(r[i].1) == perfect
  {
    if d == [] then []
    else (if IsPerfect(d[0].1) == perfect then [d[0]] else []) + Select(d[1..], perfect)
  }

  function CountAll(d: Items): nat {
    if d == [] then 0 else (if d[0].1.Result? then d[0].1.result.count else 0) + CountAll(d[1..])
  }

  function PartialCompaction(d: Items): Items {
    var kept, successes := Select(d, false), Select(d, true);
    if |successes| == 0 then kept
    else if |successes| == 1 then Put(kept, successes[0].0, successes[0].1)
    else Put(kept, OTHERS, Result(CompactedResult(true, CountAll(successes), 0, {})))
  }

  // ---- compact_results -----------------------------------------------------

  /** `f"{k}"` */
  function KeyText(k: Key): string {
    match k
    case None => "None"
    case Some(s) => s
  }

  function Prefixed(key: Key, k: Key): Key { Some(KeyText(key) + "::" + KeyText(k)) }

  /** `{f"{key}::{k}": v for (k, v) in d.items()}`: of two equal new keys the later value stays. */
  function Rename(key: Key, d: Items): Items {
    RenameOnto([], key, d)
  }

  function RenameOnto(acc: Items, key: Key, d: Items): Items
    decreases |d|
  {
    if d == [] then acc else RenameOnto(Put(acc, Prefixed(key, d[0].0), d[0].1), key, d[1..])
  }

  function Size(v: Compact): nat {
    match v
    case Result(_) => 1
    case Node(items) => 1 + SizeAll(items)
  }

  function SizeItem(item: (Key, Compact)): nat { Size(item.1) }

  function SizeAll(d: Items): nat {
    if d == [] then 0 else SizeItem(d[0]) + SizeAll(d[1..])
  }

  lemma {:induction false} PutSize(d: Items, k: Key, v: Compact)
    ensures SizeAll(Put(d, k, v)) <= SizeAll(d) + Size(v)
  {
    if d != [] {
      if d[0].0 == k {
        assert ([(k, v)] + d[1..])[1..] == d[1..];
      } else {
        PutSize(d[1..], k, v);
        assert ([d[0]] + Put(d[1..], k, v))[1..] == Put(d[1..], k, v);
      }
    }
  }

  lemma {:induction false} RenameSize(acc: Items, key: Key, d: Items)
    ensures SizeAll(RenameOnto(acc, key, d)) <= SizeAll(acc) + SizeAll(d)
    decreases |d|
  {
    if d != [] {
      PutSize(acc, Prefixed(key, d[0].0), d[0].1);
      RenameSize(Put(acc, Prefixed(key, d[0].0), d[0].1), key, d[1..]);
    }
  }

  predicate IsChain(d: Items) { |d| == 1 && d[0].1.Node? }

  lemma HoistShrinks(d: Items)
    requires IsChain(d)
    ensures SizeAll(Rename(d[0].0, d[0].1.items)) < SizeAll(d)
  {
    RenameSize([], d[0].0, d[0].1.items);
    assert SizeAll([]) == 0;
    assert d[1..] == [] && SizeAll(d) == Size(d[0].1) + SizeAll(d[1..]);
  }

  /** The `while` loop: a dict whose only value is a dict takes over the items of that value. */
  function Hoist(d: Items): Items
    decreases SizeAll(d)
  {
    if IsChain(d) then
      HoistShrinks(d);
      Hoist(Rename(d[0].0, d[0].1.items))
    else d
  }

  predicate AllResults(d: Items) { forall i :: 0 <= i < |d| ==> d[i].1.Result? }

  predicate OneStatus(d: Items) {
    AllResults(d) && |d| > 0 && forall i :: 0 <= i < |d| ==> d[i].1.result.success == d[0].1.result.success
  }

  function SkippedAll(d: Items): nat {
    if d == [] then 0 else (if d[0].1.Result? then d[0].1.result.skipped else 0) + SkippedAll(d[1..])
  }

  function MessagesAll(d: Items): set<string> {
    if d == [] then {} else (if d[0].1.Result? then d[0].1.result.messages else {}) + MessagesAll(d[1..])
  }

  function Folded(d: Items): Compact
    requires OneStatus(d)
  {
    Result(CompactedResult(d[0].1.result.success, CountAll(d), SkippedAll(d), MessagesAll(d)))
  }

  function CompactDict(d: Items): Compact {
    if |d| == 1 && d[0].0 == None then d[0].1 else
      var h := Hoist(d);
      if OneStatus(h) then Folded(h) else Node(PartialCompaction(h))
  }

  function MessageSet(c: CaseResult): set<string> {
    if c.message.Some? && c.message.value != "" then {c.message.value} else {}
  }

  function CompactCase(c: CaseResult): Compact {
    Result(CompactedResult(c.success, 1, if c.skipped then 1 else 0, MessageSet(c)))
  }

  // ---- visit_bottomup(compact_results, t) ----------------------------------

  function Visit(t: Tree): Compact {
    match t
    case Case(c) => CompactCase(c)
    case Dict(items) => CompactDict(VisitAll(items))
  }

  function VisitItem(item: (Key, Tree)): (Key, Compact) { (item.0, Visit(item.1)) }

  function VisitAll(items: seq<(Key, Tree)>): Items {
    if items == [] then [] else [VisitItem(items[0])] + VisitAll(items[1..])
  }

  // ---- The loops of the source ---------------------------------------------

  lemma {:induction false} PutFresh(d: Items, k: Key, v: Compact)
    requires !HasKey(d, k)
    ensures Put(d, k, v) == d + [(k, v)]
  {
    if d != [] {
      assert d[0].0 != k;
      assert !HasKey(d[1..], k) by {
        assert forall i :: 0 <= i < |d| - 1 ==> d[1..][i].0 == d[i + 1].0;
      }
      PutFresh(d[1..], k, v);
    }
  }

  function Selected(x: (Key, Compact), perfect: bool): Items {
    if IsPerfect(x.1) == perfect then [x] else []
  }

  lemma SelectCons(x: (Key, Compact), rest: Items, perfect: bool)
    ensures Select([x] + rest, perfect) == Selected(x, perfect) + Select(rest, perfect)
  {
    assert ([x] + rest)[1..] == rest;
  }

  lemma {:induction false} SelectSnoc(d: Items, x: (Key, Compact), perfect: bool)
    ensures Select(d + [x], perfect) == Select(d, perfect) + Selected(x, perfect)
  {
    hide Select, Selected;
    if |d| == 0 {
      SelectNone(d);
      SelectCons(x, d, perfect);
      assert d + [x] == [x] + d;
    } else {
      var front, rest := d[0], d[1..];
      SelectSnoc(rest, x, perfect);
      SelectCons(front, rest, perfect);
      SelectCons(front, rest + [x], perfect);
      assert d == [front] + rest && d + [x] == [front] + (rest + [x]);
    }
  }

  lemma {:induction false} CountAllSnoc(d: Items, x: (Key, Compact))
    ensures CountAll(d + [x]) == CountAll(d) + (if x.1.Result? then x.1.result.count else 0)
  {
    if d == [] {
      assert d + [x] == [x] && [x][1..] == [];
    } else {
      CountAllSnoc(d[1..], x);
      assert (d + [x])[1..] == d[1..] + [x];
    }
  }

  lemma SelectNone(d: Items)
    requires |d| == 0
    ensures forall perfect :: Select(d, perfect) == []
  {
  }

  method ComputePartialCompaction(d: Items) returns (compacted: Items)
    requires Distinct(d)
    ensures compacted == PartialCompaction(d)
  {
    hide Select, Put;
    compacted := [];
    var successes: Items := [];
    SelectNone(d[..0]);
    for n := 0 to |d|
      invariant compacted == Select(d[..n], false) && successes == Select(d[..n], true)
    {
      var (k, v) := d[n];
      assert d[..n + 1] == d[..n] + [d[n]];
      SelectSnoc(d[..n], d[n], true);
      SelectSnoc(d[..n], d[n], false);
      if v.Result? && v.result.success && v.result.skipped == 0 {
        successes := successes + [(k, v)];
      } else {
        PutFresh(compacted, k, v);
        compacted := Put(compacted, k, v);
      }
    }
    assert d[..|d|] == d;
    if |successes| == 1 {
      var (k, v) := successes[0];
      compacted := Put(compacted, k, v);
    } else if |successes| > 1 {
      var total := 0;
      for n := 0 to |successes|
        invariant total == CountAll(successes[..n])
      {
        assert successes[..n + 1] == successes[..n] + [successes[n]];
        CountAllSnoc(successes[..n], successes[n]);
        total := total + successes[n].1.result.count;
      }
      assert successes[..|successes|] == successes;
      compacted := Put(compacted, OTHERS, Result(CompactedResult(true, total, 0, {})));
    }
  }

  method ComputeCompactDict(original: Items) returns (r: Compact)
    requires Keyed(original)
    ensures r == CompactDict(original)
  {
    if |original| == 1 && original[0].0 == None {
      return original[0].1;
    }
    var d := original;
    while |d| == 1 && d[0].1.Node?
      invariant Hoist(d) == Hoist(original) && Keyed(d)
      decreases SizeAll(d)
    {
      HoistShrinks(d);
      EveryAt(d, 0, NodeDistinct, AnyResult);
      RenameEvery([], d[0].0, d[0].1.items, NodeDistinct, AnyResult);
      d := Rename(d[0].0, d[0].1.items);
    }
    if OneStatus(d) {
      r := Folded(d);
    } else {
      var p := ComputePartialCompaction(d);
      r := Node(p);
    }
  }

  // ---- Keys ----------------------------------------------------------------

  /** The keys of one dict: all different, and no two of them with the same text. */
  ghost predicate KeysOk<V>(d: seq<(Key, V)>) {
    Distinct(d) && !(HasKey(d, None) && HasKey(d, Some("None")))
  }

  /** A property of every dict and of every result of a value, at any depth. */
  ghost predicate Every(v: Compact, node: Items -> bool, result: CompactedResult -> bool) {
    match v
    case Result(c) => result(c)
    case Node(items) => node(items) && EveryIn(items, node, result)
  }

  ghost predicate EveryItem(item: (Key, Compact), node: Items -> bool, result: CompactedResult -> bool) {
    Every(item.1, node, result)
  }

  ghost predicate EveryIn(d: Items, node: Items -> bool, result: CompactedResult -> bool) {
    d == [] || (EveryItem(d[0], node, result) && EveryIn(d[1..], node, result))
  }

  lemma {:induction false} EveryAt(d: Items, i: nat, node: Items -> bool, result: CompactedResult -> bool)
    requires EveryIn(d, node, result) && i < |d|
    ensures Every(d[i].1, node, result)
  {
    if i > 0 {
      EveryAt(d[1..], i - 1, node, result);
      assert d[1..][i - 1] == d[i];
    }
  }

  lemma {:induction false} EverySameValues(d: Items, r: Items, node: Items -> bool, result: CompactedResult -> bool)
    requires |r| == |d| && (forall i :: 0 <= i < |d| ==> r[i].1 == d[i].1) && EveryIn(d, node, result)
    ensures EveryIn(r, node, result)
  {
    if d != [] {
      EverySameValues(d[1..], r[1..], node, result);
    }
  }

  lemma {:induction false} EveryPut(d: Items, k: Key, v: Compact, node: Items -> bool, result: CompactedResult -> bool)
    requires EveryIn(d, node, result) && Every(v, node, result)
    ensures EveryIn(Put(d, k, v), node, result)
  {
    if d == [] {
      assert [(k, v)][1..] == [];
    } else if d[0].0 == k {
      assert ([(k, v)] + d[1..])[1..] == d[1..];
    } else {
      EveryPut(d[1..], k, v, node, result);
      assert ([d[0]] + Put(d[1..], k, v))[1..] == Put(d[1..], k, v);
    }
  }

  lemma {:induction false} EverySelect(d: Items, perfect: bool, node: Items -> bool, result: CompactedResult -> bool)
    requires EveryIn(d, node, result)
    ensures EveryIn(Select(d, perfect), node, result)
  {
    if d != [] {
      EverySelect(d[1..], perfect, node, result);
      var rest := Select(d[1..], perfect);
      assert ([d[0]] + rest)[1..] == rest && [] + rest == rest;
    }
  }

  ghost predicate NodeDistinct(d: Items) { Distinct(d) }

  ghost predicate AnyResult(c: CompactedResult) { true }

  /** Dicts as Python has them, at any depth. */
  ghost predicate Keyed(d: Items) { NodeDistinct(d) && EveryIn(d, NodeDistinct, AnyResult) }

  lemma ConsKeys<V>(x: (Key, V), rest: seq<(Key, V)>)
    ensures forall k :: HasKey([x] + rest, k) <==> x.0 == k || HasKey(rest, k)
    ensures Distinct([x] + rest) <==> Distinct(rest) && !HasKey(rest, x.0)
  {
    var d := [x] + rest;
    assert forall i :: 0 <= i < |rest| ==> d[i + 1] == rest[i];
    assert d[0] == x;
    forall k ensures HasKey(d, k) <==> x.0 == k || HasKey(rest, k) {
      if HasKey(rest, k) {
        var i :| 0 <= i < |rest| && rest[i].0 == k;
        assert d[i + 1].0 == k;
      }
      if HasKey(d, k) && x.0 != k {
        var i :| 0 <= i < |d| && d[i].0 == k;
        assert rest[i - 1].0 == k;
      }
    }
    if Distinct(d) {
      forall i, j | 0 <= i < j < |rest| ensures rest[i].0 != rest[j].0 {
        assert d[i + 1].0 != d[j + 1].0;
      }
    }
  }

  lemma {:induction false} PutDistinct(d: Items, k: Key, v: Compact)
    ensures forall key :: HasKey(Put(d, k, v), key) <==> HasKey(d, key) || key == k
    ensures Distinct(d) ==> Distinct(Put(d, k, v))
  {
    if |d| == 0 {
      ConsKeys((k, v), d);
      assert [(k, v)] + d == [(k, v)];
    } else {
      hide Distinct, HasKey;
      var rest := d[1..];
      assert d == [d[0]] + rest;
      ConsKeys(d[0], rest);
      if d[0].0 == k {
        ConsKeys((k, v), rest);
      } else {
        PutDistinct(rest, k, v);
        ConsKeys(d[0], Put(rest, k, v));
      }
    }
  }

  lemma {:induction false} RenameEvery(acc: Items, key: Key, d: Items, node: Items -> bool,
                                       result: CompactedResult -> bool)
    requires Distinct(acc) && EveryIn(acc, node, result) && EveryIn(d, node, result)
    ensures Distinct(RenameOnto(acc, key, d)) && EveryIn(RenameOnto(acc, key, d), node, result)
    decreases |d|
  {
    if d != [] {
      PutDistinct(acc, Prefixed(key, d[0].0), d[0].1);
      EveryPut(acc, Prefixed(key, d[0].0), d[0].1, node, result);
      RenameEvery(Put(acc, Prefixed(key, d[0].0), d[0].1), key, d[1..], node, result);
    }
  }

  /** Renamed items: the same values under keys that contain a colon, still all different. */
  ghost predicate Renamed(d: Items, key: Key, r: Items) {
    |r| == |d| && forall i :: 0 <= i < |d| ==> r[i].0 == Prefixed(key, d[i].0) && r[i].1 == d[i].1
  }

  lemma PrefixedDiffers(key: Key, k: Key, k': Key)
    requires k != k' && !(k == None && k' == Some("None")) && !(k' == None && k == Some("None"))
    ensures Prefixed(key, k) != Prefixed(key, k')
  {
    var p := KeyText(key) + "::";
    assert (p + KeyText(k))[|p|..] == KeyText(k) && (p + KeyText(k'))[|p|..] == KeyText(k');
  }

  lemma PrefixedIsNotOthers(key: Key, k: Key)
    ensures Prefixed(key, k) != OTHERS && Prefixed(key, k) != None && Prefixed(key, k) != Some("None")
  {
    var s := KeyText(key) + "::" + KeyText(k);
    assert s[|KeyText(key)|] == ':';
    assert ':' !in "(others)" && ':' !in "None";
  }

  lemma {:induction false} RenameOntoIs(acc: Items, key: Key, done: Items, d: Items)
    requires KeysOk(done + d) && Renamed(done, key, acc)
    ensures Renamed(done + d, key, RenameOnto(acc, key, d))
    decreases |d|
  {
    if d == [] {
      assert done + d == done;
    } else {
      var k := Prefixed(key, d[0].0);
      forall i | 0 <= i < |acc| ensures acc[i].0 != k {
        var all := done + d;
        assert all[i] == done[i] && all[|done|] == d[0];
        assert HasKey(all, all[i].0) && HasKey(all, all[|done|].0);
        PrefixedDiffers(key, done[i].0, d[0].0);
      }
      PutFresh(acc, k, d[0].1);
      assert done + d == (done + [d[0]]) + d[1..];
      RenameOntoIs(acc + [(k, d[0].1)], key, done + [d[0]], d[1..]);
    }
  }

  lemma RenameIs(key: Key, d: Items)
    requires KeysOk(d)
    ensures Renamed(d, key, Rename(key, d))
    ensures forall i :: 0 <= i < |d| ==>
              Rename(key, d)[i] == (Some((if key.Some? then key.value else "None") + "::"
                                         + (if d[i].0.Some? then d[i].0.value else "None")),
                                    d[i].1)
  {
    assert [] + d == d;
    RenameOntoIs([], key, [], d);
  }

  lemma RenamedKeysOk(d: Items, key: Key, r: Items)
    requires KeysOk(d) && Renamed(d, key, r)
    ensures KeysOk(r) && !HasKey(r, OTHERS)
  {
    forall i, j | 0 <= i < j < |r| ensures r[i].0 != r[j].0 {
      assert HasKey(d, d[i].0) && HasKey(d, d[j].0);
      PrefixedDiffers(key, d[i].0, d[j].0);
    }
    forall i | 0 <= i < |r| ensures r[i].0 != OTHERS && r[i].0 != None {
      PrefixedIsNotOthers(key, d[i].0);
    }
  }
}
