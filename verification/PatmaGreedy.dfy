/** When the greedy choice of `match_dict` is right for any keys: an exchange argument. */
module PatmaGreedy {
  import opened Wrappers
  import opened Patma
  import opened PatmaDict
  import opened PatmaLiteral

  function WildcardList(wildcard: Option<Pair>): seq<Pair> {
    if wildcard.None? then [] else [wildcard.value]
  }

  /** The explicit entries in their order, and the wildcard after them. */
  function Plan(expected: seq<Entry>): seq<Pair> {
    Explicit(expected) + WildcardList(LastWildcard(expected, None))
  }

  /** Of two items that fit an entry, a later entry takes both or neither. */
  ghost predicate Swappable(env: Env, got: seq<Item>, pair: Pair, later: Pair) {
    forall x, y ::
      (&& x in got && y in got
       && ItemMeans(env, x, pair) && ItemMeans(env, y, pair) && ItemMeans(env, x, later))
      ==> ItemMeans(env, y, later)
  }

  ghost predicate Exchangeable(env: Env, got: seq<Item>, plan: seq<Pair>) {
    forall i, j :: 0 <= i < j < |plan| ==> Swappable(env, got, plan[i], plan[j])
  }

  /** Different items can be assigned to all explicit entries, and the others fit the wildcard. */
  ghost predicate Assignable(env: Env, got: seq<Item>, expected: seq<Entry>) {
    exists chosen, left :: Assigns(env, got, Explicit(expected), chosen, left)
                           && LeftoversFit(env, left, LastWildcard(expected, None))
  }

  // ---- One exchange --------------------------------------------------------------

  lemma ChosenAreGot(env: Env, got: seq<Item>, explicit: seq<Pair>, chosen: seq<Item>, left: seq<Item>)
    requires Assigns(env, got, explicit, chosen, left)
    ensures forall x :: x in got <==> x in chosen || x in left
  {
    hide ItemMeans;
    forall x ensures x in got <==> x in chosen || x in left {
      assert x in multiset(got) <==> x in multiset(chosen) + multiset(left);
    }
  }

  /** Any item that fits the first entry can be the one it is given. */
  lemma Exchange(env: Env, got: seq<Item>, i: nat, pair: Pair, explicit: seq<Pair>, wildcard: Option<Pair>,
                 chosen: seq<Item>, left: seq<Item>)
    returns (chosen': seq<Item>, left': seq<Item>)
    requires i < |got| && ItemMeans(env, got[i], pair)
    requires Assigns(env, got, [pair] + explicit, chosen, left) && LeftoversFit(env, left, wildcard)
    requires forall k :: 0 <= k < |explicit| ==> Swappable(env, got, pair, explicit[k])
    requires wildcard.Some? ==> Swappable(env, got, pair, wildcard.value)
    ensures Assigns(env, Remove(got, i), explicit, chosen', left') && LeftoversFit(env, left', wildcard)
  {
    hide ItemMeans, Remove, Swappable, LeftoversFit, Assigns;
    FirstChosen(env, got, pair, explicit, chosen, left);
    var c, g, rest := chosen[0], got[i], chosen[1..];
    RemoveMultiset(got, i);
    chosen', left' := rest, left;
    if g in rest {
      var k :| 0 <= k < |rest| && rest[k] == g;
      SwapTo(env, got, pair, explicit[k], g, c);
      chosen' := rest[k := c];
      ReplaceOne(rest, k, c);
    } else if g != c {
      assert g in left;
      var k :| 0 <= k < |left| && left[k] == g;
      left' := left[k := c];
      ReplaceOne(left, k, c);
      SwapLeft(env, got, pair, wildcard, left, k, c);
    }
    TakeAway(multiset(chosen') + multiset(left'), multiset(Remove(got, i)), g);
    Reassigned(env, Remove(got, i), explicit, chosen', left');
  }

  lemma Reassigned(env: Env, got: seq<Item>, explicit: seq<Pair>, chosen: seq<Item>, left: seq<Item>)
    requires |chosen| == |explicit| && forall k :: 0 <= k < |chosen| ==> ItemMeans(env, chosen[k], explicit[k])
    requires multiset(chosen) + multiset(left) == multiset(got)
    ensures Assigns(env, got, explicit, chosen, left)
  {
    hide ItemMeans;
  }

  /** The item of the first entry fits it, and the rest is an assignment to the other entries. */
  lemma FirstChosen(env: Env, got: seq<Item>, pair: Pair, explicit: seq<Pair>, chosen: seq<Item>, left: seq<Item>)
    requires Assigns(env, got, [pair] + explicit, chosen, left)
    ensures chosen != [] && ItemMeans(env, chosen[0], pair)
    ensures |chosen[1..]| == |explicit|
    ensures forall k :: 0 <= k < |explicit| ==> ItemMeans(env, chosen[1..][k], explicit[k])
    ensures multiset(got) == multiset{chosen[0]} + (multiset(chosen[1..]) + multiset(left))
    ensures forall x :: x in got <==> x == chosen[0] || x in chosen[1..] || x in left
  {
    hide ItemMeans;
    ChosenAreGot(env, got, [pair] + explicit, chosen, left);
    assert chosen == [chosen[0]] + chosen[1..];
    forall k | 0 <= k < |explicit| ensures ItemMeans(env, chosen[1..][k], explicit[k]) {
      assert chosen[k + 1] == chosen[1..][k] && ([pair] + explicit)[k + 1] == explicit[k];
    }
    assert ([pair] + explicit)[0] == pair;
  }

  lemma SwapTo(env: Env, got: seq<Item>, pair: Pair, later: Pair, x: Item, y: Item)
    requires Swappable(env, got, pair, later) && x in got && y in got
    requires ItemMeans(env, x, pair) && ItemMeans(env, y, pair) && ItemMeans(env, x, later)
    ensures ItemMeans(env, y, later)
  {
    hide ItemMeans;
  }

  lemma SwapLeft(env: Env, got: seq<Item>, pair: Pair, wildcard: Option<Pair>, left: seq<Item>, k: nat, c: Item)
    requires LeftoversFit(env, left, wildcard) && k < |left| && left[k] in got && c in got
    requires ItemMeans(env, left[k], pair) && ItemMeans(env, c, pair)
    requires wildcard.Some? ==> Swappable(env, got, pair, wildcard.value)
    ensures LeftoversFit(env, left[k := c], wildcard)
  {
    hide ItemMeans, Swappable;
    if wildcard.Some? {
      SwapTo(env, got, pair, wildcard.value, left[k], c);
    }
  }

  lemma ReplaceOne(s: seq<Item>, k: nat, c: Item)
    requires k < |s|
    ensures multiset{s[k]} + multiset(s[k := c]) == multiset{c} + multiset(s)
  {
  }

  lemma TakeAway(a: multiset<Item>, b: multiset<Item>, c: Item)
    requires multiset{c} + a == multiset{c} + b
    ensures a == b
  {
    assert a == (multiset{c} + a) - multiset{c};
  }

  // ---- The whole loop --------------------------------------------------------------

  lemma PlanTail(env: Env, got: seq<Item>, less: seq<Item>, pair: Pair, explicit: seq<Pair>, wildcard: Option<Pair>)
    requires Exchangeable(env, got, [pair] + explicit + WildcardList(wildcard)) && forall x :: x in less ==> x in got
    ensures forall k :: 0 <= k < |explicit| ==> Swappable(env, got, pair, explicit[k])
    ensures wildcard.Some? ==> Swappable(env, got, pair, wildcard.value)
    ensures Exchangeable(env, less, explicit + WildcardList(wildcard))
  {
    hide ItemMeans;
    var tail := explicit + WildcardList(wildcard);
    var plan := [pair] + explicit + WildcardList(wildcard);
    assert plan == [pair] + tail;
    forall k | 0 <= k < |tail| ensures Swappable(env, got, pair, tail[k]) {
      assert plan[0] == pair && plan[k + 1] == tail[k];
    }
    assert forall k :: 0 <= k < |explicit| ==> tail[k] == explicit[k];
    assert wildcard.Some? ==> tail[|explicit|] == wildcard.value;
    forall i, j | 0 <= i < j < |tail| ensures Swappable(env, less, tail[i], tail[j]) {
      assert plan[i + 1] == tail[i] && plan[j + 1] == tail[j];
    }
  }

  lemma {:induction false} ConsumeComplete(env: Env, got: seq<Item>, expected: seq<Entry>, wildcard: Option<Pair>,
                                           chosen: seq<Item>, left: seq<Item>)
    requires Consume(env, got, expected, wildcard).Ok?
    requires Assigns(env, got, Explicit(expected), chosen, left)
    requires LeftoversFit(env, left, LastWildcard(expected, wildcard))
    requires Exchangeable(env, got, Explicit(expected) + WildcardList(LastWildcard(expected, wildcard)))
    ensures var r := Consume(env, got, expected, wildcard).value;
            r.Some? && r.value.1 == LastWildcard(expected, wildcard)
            && LeftoversFit(env, r.value.0, r.value.1)
    decreases |expected|
  {
    hide ItemMeans, FindItem, Remove, Exchangeable, WildcardList;
    ChosenAreGot(env, got, Explicit(expected), chosen, left);
    if |expected| == 0 {
      assert multiset(chosen) + multiset(left) == multiset(left);
      LeftIsAll(env, got, left, wildcard);
    } else if expected[0].0.RemainingKeys? {
      ConsumeComplete(env, got, expected[1..], Some((expected[0].0.p, expected[0].1)), chosen, left);
    } else {
      var pair, rest := (expected[0].0.p, expected[0].1), Explicit(expected[1..]);
      assert Explicit(expected) == [pair] + rest;
      FindItemMeans(env, got, pair);
      assert ItemMeans(env, chosen[0], pair) && chosen[0] in got;
      var i := FindItem(env, got, pair).value.value;
      RemoveKeeps(got, i);
      PlanTail(env, got, Remove(got, i), pair, rest, LastWildcard(expected, wildcard));
      var chosen', left' := Exchange(env, got, i, pair, rest, LastWildcard(expected, wildcard), chosen, left);
      ConsumeComplete(env, Remove(got, i), expected[1..], wildcard, chosen', left');
    }
  }

  lemma LeftIsAll(env: Env, got: seq<Item>, left: seq<Item>, wildcard: Option<Pair>)
    requires multiset(got) == multiset(left) && LeftoversFit(env, left, wildcard)
    ensures LeftoversFit(env, got, wildcard)
  {
    hide ItemMeans;
    assert |got| == |multiset(got)| == |left|;
    if wildcard.Some? {
      forall i | 0 <= i < |got| ensures ItemMeans(env, got[i], wildcard.value) {
        assert got[i] in multiset(left);
        var k :| 0 <= k < |left| && left[k] == got[i];
      }
    }
  }

  /** Whenever items that compete for an entry are alike to all later entries, the wildcard included,
      the greedy answer is exactly whether an assignment exists; the keys may be any patterns. */
  lemma MatchDictExact(env: Env, got: seq<Item>, expected: seq<Entry>)
    requires AllAnswer(env, got, expected) && Exchangeable(env, got, Plan(expected))
    ensures MatchDict(env, got, expected) == Ok(Assignable(env, got, expected))
  {
    hide Consume, MatchRemaining, ItemMeans, ItemAnswers, AllAnswer, Exchangeable, Assigns;
    MatchDictAnswers(env, got, expected);
    if MatchDict(env, got, expected).value {
      assert MatchDict(env, got, expected) == Ok(true);
      var chosen, left := MatchDictSound(env, got, expected);
      assert Assignable(env, got, expected);
    }
    if Assignable(env, got, expected) {
      var chosen, left :| Assigns(env, got, Explicit(expected), chosen, left)
                          && LeftoversFit(env, left, LastWildcard(expected, None));
      ConsumeComplete(env, got, expected, None, chosen, left);
      var r := Consume(env, got, expected, None).value.value;
      if r.1.Some? {
        MatchRemainingMeans(env, r.0, r.1.value);
        assert MatchRemaining(env, r.0, r.1.value) == Ok(true);
      }
      assert MatchDict(env, got, expected) == Ok(true);
    } else {
      assert !MatchDict(env, got, expected).value;
    }
  }

  // ---- No weaker condition for two entries -------------------------------------------

  function SecondKey(wildcard: bool, p: Pattern): KeyPattern { if wildcard then RemainingKeys(p) else Key(p) }

  function TwoEntries(p: Pair, q: Pair, wildcard: bool): seq<Entry> {
    [(Key(p.0), p.1), (SecondKey(wildcard, q.0), q.1)]
  }

  lemma TwoEntriesAre(p: Pair, q: Pair, wildcard: bool)
    ensures var e := TwoEntries(p, q, wildcard);
            && Explicit(e) == (if wildcard then [p] else [p, q])
            && LastWildcard(e, None) == (if wildcard then Some(q) else None)
            && Plan(e) == [p, q]
  {
    var e := TwoEntries(p, q, wildcard);
    var rest := e[1..];
    assert |rest| == 1 && rest[0] == e[1] && |rest[1..]| == 0;
    assert LastWildcard(e, None) == LastWildcard(rest, None);
    assert LastWildcard(rest, None) == LastWildcard(rest[1..], if wildcard then Some(q) else None);
    assert Explicit(e) == [p] + Explicit(rest);
    assert Explicit(rest) == (if wildcard then Explicit(rest[1..]) else [q] + Explicit(rest[1..]));
  }

  /** Two items that both fit the first entry, of which only the one that comes first fits the second:
      the greedy choice takes that one and fails, although an assignment exists. */
  lemma GreedyMissesAssignment(env: Env, p: Pair, q: Pair, wildcard: bool, x: Item, y: Item)
    requires ItemMeans(env, x, p) && ItemMeans(env, y, p) && ItemMeans(env, x, q) && !ItemMeans(env, y, q)
    requires AllAnswer(env, [x, y], TwoEntries(p, q, wildcard))
    ensures MatchDict(env, [x, y], TwoEntries(p, q, wildcard)) == Ok(false)
    ensures Assignable(env, [x, y], TwoEntries(p, q, wildcard))
  {
    var got, e := [x, y], TwoEntries(p, q, wildcard);
    TwoEntriesAre(p, q, wildcard);
    AssignmentExists(env, p, q, wildcard, x, y);
    hide ItemMeans, Assigns, ItemAnswers, Assignable;
    MatchDictAnswers(env, got, e);
    TakesFirst(env, x, y, p, e);
    hide MatchItem, FindItem;
    var rest := e[1..];
    assert Remove(got, 0) == [y] && |rest[1..]| == 0;
    assert e[0] in e && e[1] in e && x in got && y in got;
    MatchItemMeans(env, y, q);
    OnlyItem(env, y, q);
    assert Consume(env, got, e, None) == Consume(env, [y], rest, None);
    if wildcard {
      assert Consume(env, [y], rest, None) == Consume(env, [y], rest[1..], Some(q));
    } else {
      assert Consume(env, [y], rest, None) == Ok(None);
    }
  }

  lemma TakesFirst(env: Env, x: Item, y: Item, p: Pair, e: seq<Entry>)
    requires AllAnswer(env, [x, y], e) && |e| > 0 && e[0] == (Key(p.0), p.1) && ItemMeans(env, x, p)
    ensures FindItem(env, [x, y], p) == Ok(Some(0))
  {
    assert x in [x, y] && e[0] in e;
    MatchItemMeans(env, x, p);
  }

  lemma OnlyItem(env: Env, y: Item, q: Pair)
    requires MatchItem(env, y, q) == Ok(false)
    ensures FindItem(env, [y], q) == Ok(None) && MatchRemaining(env, [y], q) == Ok(false)
  {
    var one := [y];
    assert |one[1..]| == 0;
  }

  lemma AssignmentExists(env: Env, p: Pair, q: Pair, wildcard: bool, x: Item, y: Item)
    requires ItemMeans(env, y, p) && ItemMeans(env, x, q)
    ensures Assignable(env, [x, y], TwoEntries(p, q, wildcard))
  {
    hide ItemMeans, Assigns, TwoEntries;
    var e := TwoEntries(p, q, wildcard);
    TwoEntriesAre(p, q, wildcard);
    var none: seq<Item> := [];
    assert multiset([x, y]) == multiset{x, y} && multiset([y, x]) == multiset{x, y};
    if wildcard {
      Reassigned(env, [x, y], [p], [y], [x]);
      assert Assigns(env, [x, y], Explicit(e), [y], [x]) && LeftoversFit(env, [x], LastWildcard(e, None));
    } else {
      Reassigned(env, [x, y], [p, q], [y, x], none);
      assert Assigns(env, [x, y], Explicit(e), [y, x], none) && LeftoversFit(env, none, LastWildcard(e, None));
    }
  }

  /** Both entries give an answer for this item. */
  ghost predicate BothAnswer(env: Env, x: Item, p: Pair, q: Pair) { ItemAnswers(env, x, p) && ItemAnswers(env, x, q) }

  lemma TwoEntriesAnswer(env: Env, got: seq<Item>, p: Pair, q: Pair, wildcard: bool)
    ensures AllAnswer(env, got, TwoEntries(p, q, wildcard)) <==> forall x :: x in got ==> BothAnswer(env, x, p, q)
  {
    hide ItemAnswers;
    var e := TwoEntries(p, q, wildcard);
    assert e[0] in e && e[1] in e;
    if AllAnswer(env, got, e) {
      forall x | x in got ensures BothAnswer(env, x, p, q) {
        assert ItemAnswers(env, x, (e[0].0.p, e[0].1)) && ItemAnswers(env, x, (e[1].0.p, e[1].1));
      }
    }
  }

  /** Two items that the first entry takes alike are alike to the second. */
  ghost predicate Alike(env: Env, p: Pair, q: Pair) {
    forall x: Item, y: Item ::
      (&& x.0 != y.0 && BothAnswer(env, x, p, q) && BothAnswer(env, y, p, q)
       && ItemMeans(env, x, p) && ItemMeans(env, y, p) && ItemMeans(env, x, q))
      ==> ItemMeans(env, y, q)
  }

  /** For two entries the condition is exact: the greedy answer is right for every dict for which they
      give answers exactly when no two such items are alike to the first entry but not to the second. */
  lemma TwoEntriesExact(env: Env, p: Pair, q: Pair, wildcard: bool)
    ensures
      (forall got :: DistinctKeys(got) && AllAnswer(env, got, TwoEntries(p, q, wildcard)) ==>
         MatchDict(env, got, TwoEntries(p, q, wildcard)) == Ok(Assignable(env, got, TwoEntries(p, q, wildcard))))
      <==> Alike(env, p, q)
  {
    hide ItemMeans, BothAnswer, MatchDict, Assignable, AllAnswer;
    var e := TwoEntries(p, q, wildcard);
    TwoEntriesAre(p, q, wildcard);
    if Alike(env, p, q) {
      forall got | DistinctKeys(got) && AllAnswer(env, got, e)
        ensures MatchDict(env, got, e) == Ok(Assignable(env, got, e))
      {
        TwoEntriesAnswer(env, got, p, q, wildcard);
        assert Swappable(env, got, p, q);
        MatchDictExact(env, got, e);
      }
    } else {
      var x: Item, y: Item :| x.0 != y.0 && BothAnswer(env, x, p, q) && BothAnswer(env, y, p, q)
        && ItemMeans(env, x, p) && ItemMeans(env, y, p) && ItemMeans(env, x, q) && !ItemMeans(env, y, q);
      TwoEntriesAnswer(env, [x, y], p, q, wildcard);
      GreedyMissesAssignment(env, p, q, wildcard, x, y);
      assert DistinctKeys([x, y]);
    }
  }

  /** An instance: ANYSTR before a literal key. */
  lemma AnyKeyTakesLiteral(env: Env, a: string, b: string, v: string)
    requires a != b
    ensures var got: seq<Item> := [(a, Some(v)), (b, Some(v))];
            var expected := TwoEntries((AnyStr, AnyStr), (Str(a), AnyStr), false);
            MatchDict(env, got, expected) == Ok(false) && Assignable(env, got, expected)
  {
    GreedyMissesAssignment(env, (AnyStr, AnyStr), (Str(a), AnyStr), false, (a, Some(v)), (b, Some(v)));
  }

  /** With literal keys no two items compete, so the condition always holds. */
  lemma LiteralIsExchangeable(env: Env, got: seq<Item>, expected: seq<Entry>)
    requires LiteralCall(got, expected)
    ensures Exchangeable(env, got, Plan(expected))
  {
    var plan, explicit := Plan(expected), Explicit(expected);
    ExplicitAreLiteral(got, expected);
    forall i, j | 0 <= i < j < |plan| ensures Swappable(env, got, plan[i], plan[j]) {
      assert plan[i] == explicit[i];
      forall x, y | x in got && y in got && ItemMeans(env, x, plan[i]) && ItemMeans(env, y, plan[i]) ensures x == y {
        assert x.0 == y.0;
      }
    }
  }

  lemma {:induction false} ExplicitAreLiteral(got: seq<Item>, expected: seq<Entry>)
    requires LiteralCall(got, expected)
    ensures forall i :: 0 <= i < |Explicit(expected)| ==> Explicit(expected)[i].0.Str?
    decreases |expected|
  {
    if |expected| > 0 {
      EntriesTail(got, expected);
      ExplicitAreLiteral(got, expected[1..]);
    }
  }
}
