/** `match_dict`: greedy matching that removes what it has matched, against the meaning of a dict
    pattern as an assignment of its entries to items. */
module PatmaDict {
  import opened Wrappers
  import opened Patma

  /** A key of the expected dict: a pattern, or the wildcard for all keys that are left. */
  datatype KeyPattern = Key(p: Pattern) | RemainingKeys(p: Pattern)

  type Entry = (KeyPattern, Pattern)
  type Pair = (Pattern, Pattern)
  type Item = (string, Option<string>)

  // ---- match_dict ----------------------------------------------------------

  function MatchItem(env: Env, item: Item, pair: Pair): Verdict {
    var key :- MatchString(env, Some(item.0), pair.0);
    if key then MatchString(env, item.1, pair.1) else Ok(false)
  }

  /** The first item that matches an entry, by its place. */
  function FindItem(env: Env, got: seq<Item>, pair: Pair): (r: Result<Option<nat>, MatchError>)
    ensures r.Ok? && r.value.Some? ==> r.value.value < |got|
  {
    if |got| == 0 then Ok(None)
    else
      var here :- MatchItem(env, got[0], pair);
      if here then Ok(Some(0))
      else
        var later :- FindItem(env, got[1..], pair);
        Ok(if later.Some? then Some(later.value + 1) else None)
  }

  function Remove(got: seq<Item>, i: nat): seq<Item>
    requires i < |got|
  {
    got[..i] + got[i + 1..]
  }

  /** The loop over the expected entries: the items left and the wildcard seen last, or None when an
      entry finds no item. */
  function Consume(env: Env, got: seq<Item>, expected: seq<Entry>, wildcard: Option<Pair>)
    : Result<Option<(seq<Item>, Option<Pair>)>, MatchError>
    decreases |expected|
  {
    if |expected| == 0 then Ok(Some((got, wildcard)))
    else
      match expected[0].0
      case RemainingKeys(p) => Consume(env, got, expected[1..], Some((p, expected[0].1)))
      case Key(p) =>
        var found :- FindItem(env, got, (p, expected[0].1));
        if found.None? then Ok(None)
        else Consume(env, Remove(got, found.value), expected[1..], wildcard)
  }

  function MatchRemaining(env: Env, got: seq<Item>, pair: Pair): Verdict {
    if |got| == 0 then Ok(true)
    else
      var first :- MatchItem(env, got[0], pair);
      if first then MatchRemaining(env, got[1..], pair) else Ok(false)
  }

  function MatchDict(env: Env, got: seq<Item>, expected: seq<Entry>): Verdict {
    var rest :- Consume(env, got, expected, None);
    match rest
    case None => Ok(false)
    case Some((left, None)) => Ok(|left| == 0)
    case Some((left, Some(pair))) => MatchRemaining(env, left, pair)
  }

  method ComputeMatchDict(env: Env, original: seq<Item>, expected: seq<Entry>) returns (r: Verdict)
    ensures r == MatchDict(env, original, expected)
  {
    hide MatchItem;
    var got := original;  // a shallow copy
    var wildcard: Option<Pair> := None;
    for i := 0 to |expected|
      invariant Consume(env, got, expected[i..], wildcard) == Consume(env, original, expected, None)
    {
      assert expected[i..][1..] == expected[i + 1..];
      var (key, value) := expected[i];
      if key.RemainingKeys? {
        wildcard := Some((key.p, value));
      } else {
        var found: Option<nat> := None;
        var j := 0;
        while j < |got| && found.None?
          invariant j <= |got| && (found.Some? ==> found.value < |got|)
          invariant FindItem(env, got, (key.p, value)) ==
                    if found.Some? then Ok(found) else Shifted(FindItem(env, got[j..], (key.p, value)), j)
          decreases |got| - j, found.None?
        {
          assert got[j..][1..] == got[j + 1..];
          var here := MatchItem(env, got[j], (key.p, value));
          if here.Err? {
            return Err(here.error);
          }
          if here.value {
            found := Some(j);
          } else {
            j := j + 1;
          }
        }
        if found.None? {
          return Ok(false);
        }
        got := Remove(got, found.value);
      }
    }
    if wildcard.None? {
      return Ok(|got| == 0);
    }
    for i := 0 to |got|
      invariant MatchRemaining(env, got[i..], wildcard.value) == MatchRemaining(env, got, wildcard.value)
    {
      assert got[i..][1..] == got[i + 1..];
      var one := MatchItem(env, got[i], wildcard.value);
      if one.Err? || !one.value {
        return one;
      }
    }
    r := Ok(true);
  }

  function Shifted(r: Result<Option<nat>, MatchError>, offset: nat): Result<Option<nat>, MatchError> {
    if r.Ok? && r.value.Some? then Ok(Some(r.value.value + offset)) else r
  }

  // ---- The meaning of a dict pattern -------------------------------------------

  ghost predicate ItemMeans(env: Env, item: Item, pair: Pair) {
    Means(env, Some(item.0), pair.0) && Means(env, item.1, pair.1)
  }

  /** The explicit entries, and the wildcard that counts. */
  function Explicit(expected: seq<Entry>): seq<Pair> {
    if |expected| == 0 then []
    else if expected[0].0.RemainingKeys? then Explicit(expected[1..])
    else [(expected[0].0.p, expected[0].1)] + Explicit(expected[1..])
  }

  function LastWildcard(expected: seq<Entry>, before: Option<Pair>): Option<Pair>
    decreases |expected|
  {
    if |expected| == 0 then before
    else LastWildcard(expected[1..],
                      if expected[0].0.RemainingKeys? then Some((expected[0].0.p, expected[0].1)) else before)
  }

  /** Each explicit entry has an item of its own that matches it, and these items and the others are
      all there is. */
  ghost predicate Assigns(env: Env, got: seq<Item>, explicit: seq<Pair>, chosen: seq<Item>, left: seq<Item>) {
    && |chosen| == |explicit| && (forall i :: 0 <= i < |chosen| ==> ItemMeans(env, chosen[i], explicit[i]))
    && multiset(chosen) + multiset(left) == multiset(got)
  }

  ghost predicate LeftoversFit(env: Env, left: seq<Item>, wildcard: Option<Pair>) {
    if wildcard.None? then |left| == 0
    else forall i :: 0 <= i < |left| ==> ItemMeans(env, left[i], wildcard.value)
  }

  /** Whether trying this entry on this item gives an answer: the value is looked at only when the key
      matches. */
  ghost predicate ItemAnswers(env: Env, item: Item, pair: Pair) {
    && Answers(env, Some(item.0), pair.0)
    && (Means(env, Some(item.0), pair.0) ==> Answers(env, item.1, pair.1))
  }

  lemma MatchItemMeans(env: Env, item: Item, pair: Pair)
    ensures MatchItem(env, item, pair) ==
            if ItemAnswers(env, item, pair) then Ok(ItemMeans(env, item, pair)) else Err(UnsupportedOperator)
  {
    MatchStringMeans(env, Some(item.0), pair.0);
    MatchStringMeans(env, item.1, pair.1);
  }

  lemma {:induction false} FindItemMeans(env: Env, got: seq<Item>, pair: Pair)
    requires FindItem(env, got, pair).Ok?
    ensures var r := FindItem(env, got, pair).value;
            && (r.Some? ==> ItemMeans(env, got[r.value], pair))
            && (r.None? ==> forall i :: 0 <= i < |got| ==> !ItemMeans(env, got[i], pair))
            && (r.Some? ==> forall i :: 0 <= i < r.value ==> !ItemMeans(env, got[i], pair))
  {
    hide MatchItem, ItemMeans;
    if |got| > 0 {
      MatchItemMeans(env, got[0], pair);
      if !MatchItem(env, got[0], pair).value {
        FindItemMeans(env, got[1..], pair);
        var later := FindItem(env, got[1..], pair).value;
        var bound := if later.Some? then later.value + 1 else |got|;
        forall i | 0 <= i < bound ensures !ItemMeans(env, got[i], pair) {
          if i > 0 {
            assert got[i] == got[1..][i - 1];
          }
        }
      }
    }
  }

  lemma {:induction false} MatchRemainingMeans(env: Env, got: seq<Item>, pair: Pair)
    requires MatchRemaining(env, got, pair).Ok?
    ensures MatchRemaining(env, got, pair).value <==> forall i :: 0 <= i < |got| ==> ItemMeans(env, got[i], pair)
  {
    hide MatchItem, ItemMeans;
    if |got| > 0 {
      MatchItemMeans(env, got[0], pair);
      if MatchItem(env, got[0], pair).value {
        MatchRemainingMeans(env, got[1..], pair);
        if MatchRemaining(env, got, pair).value {
          forall i | 0 <= i < |got| ensures ItemMeans(env, got[i], pair) {
            if i > 0 {
              assert got[i] == got[1..][i - 1];
            }
          }
        }
      }
    }
  }

  lemma RemoveMultiset(got: seq<Item>, i: nat)
    requires i < |got|
    ensures multiset(got) == multiset{got[i]} + multiset(Remove(got, i))
  {
    assert got == got[..i] + ([got[i]] + got[i + 1..]);
  }

  lemma AssignsMore(env: Env, got: seq<Item>, i: nat, pair: Pair, explicit: seq<Pair>,
                    chosen: seq<Item>, left: seq<Item>)
    requires i < |got| && ItemMeans(env, got[i], pair) && Assigns(env, Remove(got, i), explicit, chosen, left)
    ensures Assigns(env, got, [pair] + explicit, [got[i]] + chosen, left)
  {
    hide ItemMeans, Remove;
    RemoveMultiset(got, i);
    assert multiset([got[i]] + chosen) == multiset{got[i]} + multiset(chosen);
  }

  lemma {:induction false} ConsumeAssigns(env: Env, got: seq<Item>, expected: seq<Entry>, wildcard: Option<Pair>)
    returns (chosen: seq<Item>)
    requires Consume(env, got, expected, wildcard).Ok? && Consume(env, got, expected, wildcard).value.Some?
    ensures var (left, last) := Consume(env, got, expected, wildcard).value.value;
            Assigns(env, got, Explicit(expected), chosen, left) && last == LastWildcard(expected, wildcard)
    decreases |expected|
  {
    hide ItemMeans, FindItem, Remove;
    if |expected| == 0 {
      chosen := [];
    } else {
      match expected[0].0 {
        case RemainingKeys(p) =>
          chosen := ConsumeAssigns(env, got, expected[1..], Some((p, expected[0].1)));
        case Key(p) =>
          var i := FindItem(env, got, (p, expected[0].1)).value.value;
          FindItemMeans(env, got, (p, expected[0].1));
          var more := ConsumeAssigns(env, Remove(got, i), expected[1..], wildcard);
          chosen := [got[i]] + more;
          AssignsMore(env, got, i, (p, expected[0].1), Explicit(expected[1..]), more,
                      Consume(env, got, expected, wildcard).value.value.0);
      }
    }
  }

  /** A positive answer is always justified: there is an assignment of the explicit entries to
      different items they match, and what is left fits the wildcard, or nothing is left. */
  lemma MatchDictSound(env: Env, got: seq<Item>, expected: seq<Entry>) returns (chosen: seq<Item>, left: seq<Item>)
    requires MatchDict(env, got, expected) == Ok(true)
    ensures Assigns(env, got, Explicit(expected), chosen, left)
    ensures LeftoversFit(env, left, LastWildcard(expected, None))
  {
    chosen := ConsumeAssigns(env, got, expected, None);
    var (rest, wildcard) := Consume(env, got, expected, None).value.value;
    left := rest;
    if wildcard.Some? {
      MatchRemainingMeans(env, left, wildcard.value);
    }
  }

  // ---- When there is an answer -------------------------------------------------

  /** Every entry gives an answer for every item, so the order of neither matters for that. */
  ghost predicate AllAnswer(env: Env, got: seq<Item>, expected: seq<Entry>) {
    forall x, e :: x in got && e in expected ==> ItemAnswers(env, x, (e.0.p, e.1))
  }

  /** What a caller can check: no unknown operator anywhere, and no ANYSTR in the pattern for a value
      when an item whose key it may be asked for has the value None. */
  ghost predicate Answerable(env: Env, got: seq<Item>, expected: seq<Entry>) {
    forall e :: e in expected ==>
      && Supported(e.0.p) && Supported(e.1)
      && (TakesNone(e.1) || forall x :: x in got && Means(env, Some(x.0), e.0.p) ==> x.1.Some?)
  }

  lemma AnswerableAnswers(env: Env, got: seq<Item>, expected: seq<Entry>)
    requires Answerable(env, got, expected)
    ensures AllAnswer(env, got, expected)
  {
    hide Means, Supported, TakesNone, Answers;
    forall x, e | x in got && e in expected ensures ItemAnswers(env, x, (e.0.p, e.1)) {
      SupportedAnswers(env, Some(x.0), e.0.p);
      SupportedAnswers(env, x.1, e.1);
    }
  }

  lemma {:induction false} FindAnswers(env: Env, got: seq<Item>, pair: Pair)
    requires forall x :: x in got ==> ItemAnswers(env, x, pair)
    ensures FindItem(env, got, pair).Ok? && MatchRemaining(env, got, pair).Ok?
  {
    hide MatchItem, ItemAnswers;
    if |got| > 0 {
      MatchItemMeans(env, got[0], pair);
      FindAnswers(env, got[1..], pair);
    }
  }

  lemma RemoveKeeps(got: seq<Item>, i: nat)
    requires i < |got|
    ensures forall x :: x in Remove(got, i) ==> x in got
  {
  }

  lemma {:induction false} ConsumeAnswers(env: Env, got: seq<Item>, expected: seq<Entry>, wildcard: Option<Pair>)
    requires AllAnswer(env, got, expected)
    requires wildcard.Some? ==> forall x :: x in got ==> ItemAnswers(env, x, wildcard.value)
    ensures var r := Consume(env, got, expected, wildcard);
            && r.Ok?
            && (r.value.Some? && r.value.value.1.Some? ==>
                  forall x :: x in r.value.value.0 ==> ItemAnswers(env, x, r.value.value.1.value))
    decreases |expected|
  {
    hide FindItem, ItemAnswers, Remove;
    if |expected| > 0 {
      var pair := (expected[0].0.p, expected[0].1);
      assert expected[0] in expected && forall e :: e in expected[1..] ==> e in expected;
      FindAnswers(env, got, pair);
      if expected[0].0.RemainingKeys? {
        ConsumeAnswers(env, got, expected[1..], Some(pair));
      } else if FindItem(env, got, pair).value.Some? {
        var i := FindItem(env, got, pair).value.value;
        RemoveKeeps(got, i);
        ConsumeAnswers(env, Remove(got, i), expected[1..], wildcard);
      }
    }
  }

  /** Then the whole call gives one, whatever the keys and values. */
  lemma MatchDictAnswers(env: Env, got: seq<Item>, expected: seq<Entry>)
    requires AllAnswer(env, got, expected)
    ensures MatchDict(env, got, expected).Ok?
  {
    hide Consume, MatchRemaining, ItemAnswers;
    ConsumeAnswers(env, got, expected, None);
    var r := Consume(env, got, expected, None).value;
    if r.Some? && r.value.1.Some? {
      FindAnswers(env, r.value.0, r.value.1.value);
    }
  }
}
