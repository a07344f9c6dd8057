/** `match_dict` with literal keys: the outcome of every call, its meaning, and exactly when the order
    of the two dicts decides it. */
module PatmaLiteral {
  import opened Wrappers
  import opened Patma
  import opened PatmaDict

  // ---- Literal keys ----------------------------------------------------------

  predicate IsLiteral(e: Entry) { e.0.Key? && e.0.p.Str? }

  /** Both dicts have each key once, and every explicit key is a plain string. */
  ghost predicate LiteralCall(got: seq<Item>, expected: seq<Entry>) {
    && DistinctKeys(got) && DistinctEntries(expected)
    && (forall i :: 0 <= i < |expected| ==> expected[i].0.RemainingKeys? || IsLiteral(expected[i]))
  }

  ghost predicate DistinctKeys(got: seq<Item>) {
    forall i, j :: 0 <= i < j < |got| ==> got[i].0 != got[j].0
  }

  ghost predicate DistinctEntries(expected: seq<Entry>) {
    forall i, j :: 0 <= i < j < |expected| ==> expected[i].0 != expected[j].0
  }

  ghost predicate Names(expected: seq<Entry>, key: string) {
    exists i :: 0 <= i < |expected| && expected[i].0 == Key(Str(key))
  }

  /** An item that this literal entry asks for. */
  ghost predicate Provides(env: Env, got: seq<Item>, e: Entry) {
    IsLiteral(e) ==> exists x :: x in got && x.0 == e.0.p.s && Means(env, x.1, e.1)
  }

  /** The item is there, but its value gets no answer. */
  ghost predicate Raises(env: Env, got: seq<Item>, e: Entry) {
    IsLiteral(e) && exists x :: x in got && x.0 == e.0.p.s && !Answers(env, x.1, e.1)
  }

  ghost predicate Misses(env: Env, got: seq<Item>, e: Entry) { !Raises(env, got, e) && !Provides(env, got, e) }

  // ---- The outcome of every call -----------------------------------------------

  /** The first entry that raises or misses decides. */
  ghost function ExplicitOutcome(env: Env, got: seq<Item>, expected: seq<Entry>): Verdict
    decreases |expected|
  {
    if |expected| == 0 then Ok(true)
    else if Raises(env, got, expected[0]) then Err(UnsupportedOperator)
    else if Misses(env, got, expected[0]) then Ok(false)
    else ExplicitOutcome(env, got, expected[1..])
  }

  /** The items that no entry names, in their order. */
  ghost function Unnamed(got: seq<Item>, expected: seq<Entry>): seq<Item> {
    if |got| == 0 then []
    else (if Names(expected, got[0].0) then [] else [got[0]]) + Unnamed(got[1..], expected)
  }

  ghost function LiteralOutcome(env: Env, got: seq<Item>, expected: seq<Entry>): Verdict {
    var first := ExplicitOutcome(env, got, expected);
    if first != Ok(true) then first
    else
      match LastWildcard(expected, None)
      case None => Ok(|Unnamed(got, expected)| == 0)
      case Some(pair) => MatchRemaining(env, Unnamed(got, expected), pair)
  }

  lemma NotNamed(got: seq<Item>, s: string, rest: seq<Item>)
    requires DistinctKeys(got) && |got| > 0 && got[0].0 == s && rest == got[1..]
    ensures forall x :: x in rest ==> x.0 != s
  {
  }

  lemma {:induction false} FindLiteral(env: Env, got: seq<Item>, e: Entry)
    requires DistinctKeys(got) && IsLiteral(e)
    ensures var r := FindItem(env, got, (e.0.p, e.1));
            if Raises(env, got, e) then r == Err(UnsupportedOperator)
            else r.Ok? && (r.value.Some? <==> Provides(env, got, e))
                 && (r.value.Some? ==> got[r.value.value].0 == e.0.p.s)
  {
    hide MatchItem;
    if |got| > 0 {
      var x, rest := got[0], got[1..];
      MatchItemMeans(env, x, (e.0.p, e.1));
      FindLiteral(env, rest, e);
      assert forall y :: y in got <==> y == x || y in rest;
      if x.0 == e.0.p.s {
        NotNamed(got, x.0, rest);
      }
    }
  }

  lemma RemoveKey(got: seq<Item>, i: nat)
    requires DistinctKeys(got) && i < |got|
    ensures DistinctKeys(Remove(got, i))
    ensures forall x :: x in Remove(got, i) <==> x in got && x.0 != got[i].0
  {
    var r := Remove(got, i);
    forall x | x in r ensures x in got && x.0 != got[i].0 {
      var j :| 0 <= j < |r| && r[j] == x;
      assert x == got[if j < i then j else j + 1];
    }
    forall x | x in got && x.0 != got[i].0 ensures x in r {
      var j :| 0 <= j < |got| && got[j] == x;
      assert x == r[if j < i then j else j - 1];
    }
  }

  /** Taking away an item that the entries do not ask for changes nothing for them. */
  lemma {:induction false} OutcomeRemove(env: Env, got: seq<Item>, less: seq<Item>, key: string, expected: seq<Entry>)
    requires forall x :: x in less <==> x in got && x.0 != key
    requires forall e :: e in expected ==> e.0 != Key(Str(key))
    ensures ExplicitOutcome(env, less, expected) == ExplicitOutcome(env, got, expected)
    decreases |expected|
  {
    if |expected| > 0 {
      var e := expected[0];
      assert e in expected;
      assert Raises(env, less, e) == Raises(env, got, e) && Provides(env, less, e) == Provides(env, got, e);
      OutcomeRemove(env, got, less, key, expected[1..]);
    }
  }

  lemma NamesFirst(expected: seq<Entry>, key: string)
    requires |expected| > 0
    ensures Names(expected, key) <==> expected[0].0 == Key(Str(key)) || Names(expected[1..], key)
  {
    var rest := expected[1..];
    if Names(expected, key) && expected[0].0 != Key(Str(key)) {
      var i :| 0 <= i < |expected| && expected[i].0 == Key(Str(key));
      assert rest[i - 1].0 == Key(Str(key));
    }
    if Names(rest, key) {
      var i :| 0 <= i < |rest| && rest[i].0 == Key(Str(key));
      assert expected[i + 1].0 == Key(Str(key));
    }
  }

  lemma {:induction false} UnnamedSame(got: seq<Item>, expected: seq<Entry>, expected': seq<Entry>)
    requires forall x :: x in got ==> (Names(expected, x.0) <==> Names(expected', x.0))
    ensures Unnamed(got, expected) == Unnamed(got, expected')
  {
    hide Names;
    if |got| > 0 {
      UnnamedSame(got[1..], expected, expected');
    }
  }

  lemma {:induction false} UnnamedRemove(got: seq<Item>, i: nat, expected: seq<Entry>)
    requires DistinctKeys(got) && i < |got| && |expected| > 0 && expected[0].0 == Key(Str(got[i].0))
    ensures Unnamed(Remove(got, i), expected[1..]) == Unnamed(got, expected)
  {
    var rest := got[1..];
    forall key ensures Names(expected, key) <==> expected[0].0 == Key(Str(key)) || Names(expected[1..], key) {
      NamesFirst(expected, key);
    }
    hide Names;
    if i == 0 {
      assert Remove(got, i) == rest;
      NotNamed(got, got[0].0, rest);
      UnnamedSame(rest, expected, expected[1..]);
    } else {
      assert rest[i - 1] == got[i];
      UnnamedRemove(rest, i - 1, expected);
      assert Remove(got, i) == [got[0]] + Remove(rest, i - 1);
    }
  }

  lemma {:induction false} UnnamedIs(got: seq<Item>, expected: seq<Entry>)
    ensures forall x :: x in Unnamed(got, expected) <==> x in got && !Names(expected, x.0)
  {
    hide Names;
    if |got| > 0 {
      UnnamedIs(got[1..], expected);
      assert forall x :: x in got <==> x == got[0] || x in got[1..];
    }
  }

  lemma EntriesTail(got: seq<Item>, expected: seq<Entry>)
    requires LiteralCall(got, expected) && |expected| > 0
    ensures LiteralCall(got, expected[1..])
    ensures forall e :: e in expected[1..] ==> e.0 != expected[0].0
  {
    assert forall i :: 0 <= i < |expected| - 1 ==> expected[1..][i] == expected[i + 1];
  }

  lemma {:induction false} ConsumeLiterals(env: Env, got: seq<Item>, expected: seq<Entry>, wildcard: Option<Pair>)
    requires LiteralCall(got, expected)
    ensures Consume(env, got, expected, wildcard) ==
            match ExplicitOutcome(env, got, expected)
            case Err(e) => Err(e)
            case Ok(all) => Ok(if all then Some((Unnamed(got, expected), LastWildcard(expected, wildcard))) else None)
    decreases |expected|
  {
    hide FindItem, Provides, Raises, Remove;
    if |expected| == 0 {
      UnnamedAll(got, expected);
    } else {
      var e, rest := expected[0], expected[1..];
      EntriesTail(got, expected);
      if e.0.RemainingKeys? {
        ConsumeLiterals(env, got, rest, Some((e.0.p, e.1)));
        forall key ensures Names(expected, key) <==> Names(rest, key) { NamesFirst(expected, key); }
        UnnamedSame(got, expected, rest);
        WildcardIsFine(env, got, e);
      } else {
        FindLiteral(env, got, e);
        var found := FindItem(env, got, (e.0.p, e.1));
        if found.Ok? && found.value.Some? {
          var i := found.value.value;
          RemoveKey(got, i);
          OutcomeRemove(env, got, Remove(got, i), got[i].0, rest);
          UnnamedRemove(got, i, expected);
          ConsumeLiterals(env, Remove(got, i), rest, wildcard);
        }
      }
    }
  }

  lemma WildcardIsFine(env: Env, got: seq<Item>, e: Entry)
    requires e.0.RemainingKeys?
    ensures !Raises(env, got, e) && !Misses(env, got, e)
  {
  }

  lemma {:induction false} UnnamedAll(got: seq<Item>, expected: seq<Entry>)
    requires |expected| == 0
    ensures Unnamed(got, expected) == got
  {
    if |got| > 0 {
      UnnamedAll(got[1..], expected);
      assert !Names(expected, got[0].0);
      assert [got[0]] + got[1..] == got;
    }
  }

  /** The outcome of every call with literal keys, raising included. */
  lemma MatchDictIs(env: Env, got: seq<Item>, expected: seq<Entry>)
    requires LiteralCall(got, expected)
    ensures MatchDict(env, got, expected) == LiteralOutcome(env, got, expected)
  {
    hide Consume, ExplicitOutcome, Unnamed, MatchRemaining;
    ConsumeLiterals(env, got, expected, None);
    OutcomeWhy(env, got, expected);
  }

  // ---- What decides, without regard to order -------------------------------------

  lemma {:induction false} OutcomeWhy(env: Env, got: seq<Item>, expected: seq<Entry>)
    ensures match ExplicitOutcome(env, got, expected)
            case Err(error) => error == UnsupportedOperator && SomeRaises(env, got, expected)
            case Ok(false) => SomeMisses(env, got, expected)
            case Ok(true) => !SomeRaises(env, got, expected) && !SomeMisses(env, got, expected)
    decreases |expected|
  {
    hide Raises, Misses;
    if |expected| > 0 {
      OutcomeWhy(env, got, expected[1..]);
      assert expected[0] in expected && forall e :: e in expected[1..] ==> e in expected;
      assert forall e :: e in expected ==> e == expected[0] || e in expected[1..];
    }
  }

  lemma {:induction false} RemainingWhy(env: Env, left: seq<Item>, pair: Pair)
    ensures match MatchRemaining(env, left, pair)
            case Err(error) => error == UnsupportedOperator && exists x :: x in left && !ItemAnswers(env, x, pair)
            case Ok(false) => exists x :: x in left && ItemAnswers(env, x, pair) && !ItemMeans(env, x, pair)
            case Ok(true) => forall x :: x in left ==> ItemAnswers(env, x, pair) && ItemMeans(env, x, pair)
  {
    hide MatchItem, ItemAnswers, ItemMeans;
    if |left| > 0 {
      MatchItemMeans(env, left[0], pair);
      RemainingWhy(env, left[1..], pair);
      assert left[0] in left && forall x :: x in left[1..] ==> x in left;
      assert forall x :: x in left ==> x == left[0] || x in left[1..];
    }
  }

  ghost predicate SomeRaises(env: Env, got: seq<Item>, expected: seq<Entry>) {
    exists e :: e in expected && Raises(env, got, e)
  }

  ghost predicate SomeMisses(env: Env, got: seq<Item>, expected: seq<Entry>) {
    exists e :: e in expected && Misses(env, got, e)
  }

  ghost predicate LeftRaises(env: Env, got: seq<Item>, expected: seq<Entry>, pair: Pair) {
    exists x :: x in got && !Names(expected, x.0) && !ItemAnswers(env, x, pair)
  }

  ghost predicate LeftMisses(env: Env, got: seq<Item>, expected: seq<Entry>, pair: Pair) {
    exists x :: x in got && !Names(expected, x.0) && ItemAnswers(env, x, pair) && !ItemMeans(env, x, pair)
  }

  /** Entries that raise and entries that miss do not come together; nor, once all entries are served,
      do such items among those that are left for the wildcard. */
  ghost predicate OrderFree(env: Env, got: seq<Item>, expected: seq<Entry>) {
    var raises, misses := SomeRaises(env, got, expected), SomeMisses(env, got, expected);
    var wildcard := LastWildcard(expected, None);
    && !(raises && misses)
    && (!raises && !misses && wildcard.Some? ==>
          !(LeftRaises(env, got, expected, wildcard.value) && LeftMisses(env, got, expected, wildcard.value)))
  }

  /** The same dicts in any order, with the same wildcard in force. */
  ghost predicate Reordered(got: seq<Item>, got': seq<Item>, expected: seq<Entry>, expected': seq<Entry>) {
    && (forall x :: x in got <==> x in got') && (forall e :: e in expected <==> e in expected')
    && LastWildcard(expected, None) == LastWildcard(expected', None)
  }

  lemma SameNames(expected: seq<Entry>, expected': seq<Entry>, key: string)
    requires forall e :: e in expected ==> e in expected'
    ensures Names(expected, key) ==> Names(expected', key)
  {
    if Names(expected, key) {
      var i :| 0 <= i < |expected| && expected[i].0 == Key(Str(key));
      assert expected[i] in expected';
      var j :| 0 <= j < |expected'| && expected'[j] == expected[i];
    }
  }

  lemma SameDecisions(env: Env, got: seq<Item>, got': seq<Item>, expected: seq<Entry>, expected': seq<Entry>)
    requires Reordered(got, got', expected, expected')
    ensures SomeRaises(env, got, expected) <==> SomeRaises(env, got', expected')
    ensures SomeMisses(env, got, expected) <==> SomeMisses(env, got', expected')
    ensures forall key :: Names(expected, key) <==> Names(expected', key)
  {
    forall e ensures Raises(env, got, e) == Raises(env, got', e) && Misses(env, got, e) == Misses(env, got', e) {
      assert Raises(env, got, e) == Raises(env, got', e);
      assert Provides(env, got, e) == Provides(env, got', e);
    }
    hide Raises, Misses;
    forall key ensures Names(expected, key) <==> Names(expected', key) {
      SameNames(expected, expected', key);
      SameNames(expected', expected, key);
    }
  }

  /** The outcome in terms of what is in the two dicts. */
  ghost function SetOutcome(env: Env, got: seq<Item>, expected: seq<Entry>): Verdict {
    if SomeRaises(env, got, expected) then Err(UnsupportedOperator)
    else if SomeMisses(env, got, expected) then Ok(false)
    else
      match LastWildcard(expected, None)
      case None => Ok(forall x :: x in got ==> Names(expected, x.0))
      case Some(pair) =>
        if LeftRaises(env, got, expected, pair) then Err(UnsupportedOperator)
        else Ok(!LeftMisses(env, got, expected, pair))
  }

  lemma OrderFreeOutcome(env: Env, got: seq<Item>, expected: seq<Entry>)
    requires LiteralCall(got, expected) && OrderFree(env, got, expected)
    ensures MatchDict(env, got, expected) == SetOutcome(env, got, expected)
  {
    hide ExplicitOutcome, Raises, Misses, Names, ItemAnswers, ItemMeans;
    MatchDictIs(env, got, expected);
    OutcomeWhy(env, got, expected);
    UnnamedIs(got, expected);
    var left, wildcard := Unnamed(got, expected), LastWildcard(expected, None);
    hide Unnamed, MatchRemaining, LiteralCall, MatchDict;
    if wildcard.Some? {
      RemainingWhy(env, left, wildcard.value);
    } else if |left| > 0 {
      assert left[0] in left;
    }
  }

  /** Order plays no part when raising and missing do not come together. */
  lemma LiteralOrderIrrelevant(env: Env, got: seq<Item>, got': seq<Item>, expected: seq<Entry>, expected': seq<Entry>)
    requires LiteralCall(got, expected) && LiteralCall(got', expected') && Reordered(got, got', expected, expected')
    requires OrderFree(env, got, expected)
    ensures MatchDict(env, got, expected) == MatchDict(env, got', expected')
  {
    hide MatchDict, ItemAnswers, ItemMeans, Names, LiteralCall, SomeRaises, SomeMisses;
    SameDecisions(env, got, got', expected, expected');
    OrderFreeOutcome(env, got, expected);
    OrderFreeOutcome(env, got', expected');
  }

  // ---- When order does play a part -------------------------------------------------

  function ToFront<T>(s: seq<T>, i: nat): seq<T>
    requires i < |s|
  {
    [s[i]] + (s[..i] + s[i + 1..])
  }

  lemma ToFrontIs<T>(s: seq<T>, i: nat)
    requires i < |s|
    ensures forall x :: x in s <==> x in ToFront(s, i)
    ensures |ToFront(s, i)| == |s| && forall j :: 0 <= j < |s| ==> ToFront(s, i)[j] == s[From(i, j)]
  {
    var r := ToFront(s, i);
    forall j | 0 <= j < |s| ensures r[j] == s[From(i, j)] {
    }
    forall x | x in s ensures x in r {
      var j :| 0 <= j < |s| && s[j] == x;
      assert r[if j == i then 0 else if j < i then j + 1 else j] == x;
    }
  }

  /** Where the element at a place came from. */
  function From(i: nat, j: nat): nat { if j == 0 then i else if j <= i then j - 1 else j }

  lemma LiteralToFront(got: seq<Item>, expected: seq<Entry>, i: nat)
    requires LiteralCall(got, expected) && i < |expected| && IsLiteral(expected[i])
    ensures LiteralCall(got, ToFront(expected, i)) && Reordered(got, got, expected, ToFront(expected, i))
  {
    var r := ToFront(expected, i);
    ToFrontIs(expected, i);
    WildcardToFront(expected, i, None);
  }

  lemma {:induction false} WildcardSplit(a: seq<Entry>, b: seq<Entry>, before: Option<Pair>)
    ensures LastWildcard(a + b, before) == LastWildcard(b, LastWildcard(a, before))
    decreases |a|
  {
    if |a| == 0 {
      assert a + b == b;
    } else {
      assert (a + b)[0] == a[0] && (a + b)[1..] == a[1..] + b;
      WildcardSplit(a[1..], b, if a[0].0.RemainingKeys? then Some((a[0].0.p, a[0].1)) else before);
    }
  }

  lemma WildcardToFront(expected: seq<Entry>, i: nat, before: Option<Pair>)
    requires i < |expected| && expected[i].0.Key?
    ensures LastWildcard(ToFront(expected, i), before) == LastWildcard(expected, before)
  {
    var front, one, back := expected[..i], [expected[i]], expected[i + 1..];
    assert expected == front + (one + back) && ToFront(expected, i) == one + (front + back);
    WildcardSplit(front, one + back, before);
    WildcardSplit(one, back, LastWildcard(front, before));
    WildcardSplit(one, front + back, before);
    WildcardSplit(front, back, before);
    OneEntry(one, LastWildcard(front, before));
    OneEntry(one, before);
  }

  lemma OneEntry(one: seq<Entry>, before: Option<Pair>)
    requires |one| == 1 && one[0].0.Key?
    ensures LastWildcard(one, before) == before
  {
    assert |one[1..]| == 0;
  }

  lemma EntryFirst(env: Env, got: seq<Item>, expected: seq<Entry>, e: Entry) returns (expected': seq<Entry>)
    requires LiteralCall(got, expected) && e in expected && (Raises(env, got, e) || Misses(env, got, e))
    ensures LiteralCall(got, expected') && Reordered(got, got, expected, expected')
    ensures MatchDict(env, got, expected') == if Raises(env, got, e) then Err(UnsupportedOperator) else Ok(false)
  {
    var i :| 0 <= i < |expected| && expected[i] == e;
    expected' := ToFront(expected, i);
    LiteralToFront(got, expected, i);
    MatchDictIs(env, got, expected');
    assert expected'[0] == e;
  }

  lemma ItemFirst(env: Env, got: seq<Item>, expected: seq<Entry>, x: Item) returns (got': seq<Item>)
    requires LiteralCall(got, expected) && !SomeRaises(env, got, expected) && !SomeMisses(env, got, expected)
    requires x in got && !Names(expected, x.0) && LastWildcard(expected, None).Some?
    requires var pair := LastWildcard(expected, None).value; !(ItemAnswers(env, x, pair) && ItemMeans(env, x, pair))
    ensures LiteralCall(got', expected) && Reordered(got, got', expected, expected)
    ensures MatchDict(env, got', expected) ==
            if ItemAnswers(env, x, LastWildcard(expected, None).value) then Ok(false) else Err(UnsupportedOperator)
  {
    var i :| 0 <= i < |got| && got[i] == x;
    got' := ToFront(got, i);
    ToFrontIs(got, i);
    MatchDictIs(env, got', expected);
    SameDecisions(env, got, got', expected, expected);
    OutcomeWhy(env, got', expected);
    hide ItemAnswers, ItemMeans, MatchItem, ExplicitOutcome, SomeRaises, SomeMisses;
    MatchItemMeans(env, x, LastWildcard(expected, None).value);
    assert got'[0] == x;
    assert Unnamed(got', expected)[0] == x;
  }

  /** And exactly then: otherwise another order of the same dicts has another outcome, an error in one
      and False in the other. */
  lemma LiteralOrderDecides(env: Env, got: seq<Item>, expected: seq<Entry>)
    returns (got': seq<Item>, expected': seq<Entry>)
    requires LiteralCall(got, expected) && !OrderFree(env, got, expected)
    ensures LiteralCall(got', expected') && Reordered(got, got', expected, expected')
    ensures MatchDict(env, got', expected') != MatchDict(env, got, expected)
  {
    hide MatchDict, ItemAnswers, ItemMeans, Names, Raises, Provides, LiteralCall;
    got', expected' := got, expected;
    var r := MatchDict(env, got, expected);
    if SomeRaises(env, got, expected) && SomeMisses(env, got, expected) {
      var e :| e in expected && Raises(env, got, e);
      var f :| f in expected && Misses(env, got, f);
      var first := EntryFirst(env, got, expected, e);
      var second := EntryFirst(env, got, expected, f);
      expected' := if r == Ok(false) then first else second;
    } else {
      var pair := LastWildcard(expected, None).value;
      var x :| x in got && !Names(expected, x.0) && !ItemAnswers(env, x, pair);
      var y :| y in got && !Names(expected, y.0) && ItemAnswers(env, y, pair) && !ItemMeans(env, y, pair);
      var first := ItemFirst(env, got, expected, x);
      var second := ItemFirst(env, got, expected, y);
      got' := if r == Ok(false) then first else second;
    }
  }

  /** Such dicts: None against ANYSTR raises, unless the other entry has already failed. */
  lemma NoneAgainstAnyStr(env: Env, a: string, b: string, x: string, y: string)
    requires a != b && x != y
    ensures var got: seq<Item> := [(a, None), (b, Some(y))];
            var e: Entry := (Key(Str(a)), AnyStr);
            var f: Entry := (Key(Str(b)), Str(x));
            && MatchDict(env, got, [e, f]) == Err(UnsupportedOperator)
            && MatchDict(env, got, [f, e]) == Ok(false)
  {
    var got: seq<Item> := [(a, None), (b, Some(y))];
    var e: Entry := (Key(Str(a)), AnyStr);
    var f: Entry := (Key(Str(b)), Str(x));
    assert got[0] in got;
    assert Raises(env, got, e) && Misses(env, got, f);
    MatchDictIs(env, got, [e, f]);
    MatchDictIs(env, got, [f, e]);
  }

  // ---- The meaning -------------------------------------------------------------------

  /** Every literal key is there with a matching value, and every other item fits the wildcard. */
  ghost predicate LiteralMeaning(env: Env, got: seq<Item>, expected: seq<Entry>, wildcard: Option<Pair>) {
    && (forall e :: e in expected ==> Provides(env, got, e))
    && (forall x :: x in got && !Names(expected, x.0) ==> wildcard.Some? && ItemMeans(env, x, wildcard.value))
  }

  lemma NothingRaises(env: Env, got: seq<Item>, expected: seq<Entry>)
    requires AllAnswer(env, got, expected)
    ensures !SomeRaises(env, got, expected)
    ensures LastWildcard(expected, None).Some? ==> !LeftRaises(env, got, expected, LastWildcard(expected, None).value)
  {
    forall e | e in expected ensures !Raises(env, got, e) {
      if IsLiteral(e) {
        forall x | x in got && x.0 == e.0.p.s ensures Answers(env, x.1, e.1) {
          assert ItemAnswers(env, x, (e.0.p, e.1));
        }
      }
    }
    WildcardIsEntry(expected, None);
  }

  lemma {:induction false} WildcardIsEntry(expected: seq<Entry>, before: Option<Pair>)
    ensures var last := LastWildcard(expected, before);
            last == before || exists e :: e in expected && last == Some((e.0.p, e.1))
    decreases |expected|
  {
    if |expected| > 0 {
      var e := expected[0];
      assert e in expected && forall f :: f in expected[1..] ==> f in expected;
      WildcardIsEntry(expected[1..], if e.0.RemainingKeys? then Some((e.0.p, e.1)) else before);
    }
  }

  /** Where every entry gets an answer from every item, the call answers, exactly with the meaning. */
  lemma MatchDictLiteral(env: Env, got: seq<Item>, expected: seq<Entry>)
    requires LiteralCall(got, expected) && AllAnswer(env, got, expected)
    ensures MatchDict(env, got, expected) == Ok(LiteralMeaning(env, got, expected, LastWildcard(expected, None)))
  {
    hide MatchDict, ItemMeans, Names, Provides, LiteralCall, Raises, AllAnswer, ItemAnswers;
    NothingRaises(env, got, expected);
    OrderFreeOutcome(env, got, expected);
    assert (forall e :: e in expected ==> Provides(env, got, e)) <==> !SomeMisses(env, got, expected);
    if LastWildcard(expected, None).Some? {
      AllAnswerLeft(env, got, expected);
    }
  }

  lemma AllAnswerLeft(env: Env, got: seq<Item>, expected: seq<Entry>)
    requires AllAnswer(env, got, expected) && LastWildcard(expected, None).Some?
    ensures forall x :: x in got ==> ItemAnswers(env, x, LastWildcard(expected, None).value)
  {
    hide ItemAnswers;
    WildcardIsEntry(expected, None);
  }

  /** For instance `{key: None, **ANYDICT}`: it asks for that tag without a value, beside any others. */
  lemma ValuelessTag(env: Env, got: seq<Item>, key: string)
    requires DistinctKeys(got)
    ensures MatchDict(env, got, [(Key(Str(key)), NoneLiteral), (RemainingKeys(AnyStr), AnyOptStr)]) ==
            Ok((key, None) in got)
  {
    var expected: seq<Entry> := [(Key(Str(key)), NoneLiteral), (RemainingKeys(AnyStr), AnyOptStr)];
    AnswerableAnswers(env, got, expected);
    hide AllAnswer, MatchDict;
    MatchDictLiteral(env, got, expected);
    assert expected[0] in expected && expected[1] in expected;
    assert LastWildcard(expected, None) == Some((AnyStr, AnyOptStr)) by {
      var rest := expected[1..];
      assert |rest| == 1 && rest[0] == expected[1] && |rest[1..]| == 0;
      assert LastWildcard(expected, None) == LastWildcard(rest, None);
      assert LastWildcard(rest, None) == LastWildcard(rest[1..], Some((AnyStr, AnyOptStr)));
    }
  }
}
