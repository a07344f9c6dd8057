/** Pattern matching over strings, lists and dicts: `match_string`, `match_list` and `match_dict`. */
module Patma {
  import opened Wrappers

  datatype Pattern =
    | Str(s: string)                                    // a plain string
    | NoneLiteral                                       // None on the expected side
    | AnyStr
    | AnyOptStr
    | StrRe(regexp: string)
    | OptStrRe(regexp: string)
    | NotStrRe(regexp: string)
    | Either(options: seq<Pattern>)
    | InsensitiveStr(s: string)
    | OtherOperator                                     // an operator match_string does not know
    | ListRemainder(item: Pattern, minLength: int)      // not an operator: equal to no string

  /** `re.match(regexp + "$", got)` and `str.lower`, as arbitrary functions. */
  datatype Env = Env(matches: (string, string) -> bool, lower: string -> string)

  datatype MatchError = UnsupportedOperator | OptionalNotLast

  type Verdict = Result<bool, MatchError>

  // ---- match_string --------------------------------------------------------

  function MatchString(env: Env, got: Option<string>, p: Pattern): Verdict {
    match p
    case AnyOptStr => Ok(true)
    case AnyStr => if got.Some? then Ok(true) else Err(UnsupportedOperator)
    case StrRe(re) => Ok(got.Some? && env.matches(re, got.value))
    case OptStrRe(re) => Ok(got.None? || env.matches(re, got.value))
    case NotStrRe(re) => Ok(got.Some? && !env.matches(re, got.value))
    case Either(options) => MatchAny(env, got, options)
    case InsensitiveStr(s) => Ok(got.Some? && env.lower(got.value) == env.lower(s))
    case OtherOperator => Err(UnsupportedOperator)
    case Str(s) => Ok(got == Some(s))
    case NoneLiteral => Ok(got == None)
    case ListRemainder(_, _) => Ok(false)
  }

  /** `all(not match_string(got, option) ...)`, negated: stops at the first option that matches. */
  function MatchAny(env: Env, got: Option<string>, options: seq<Pattern>): Verdict {
    if |options| == 0 then Ok(false)
    else
      var first :- MatchString(env, got, options[0]);
      if first then Ok(true) else MatchAny(env, got, options[1..])
  }

  /** What a pattern means, whatever the order of its alternatives. */
  ghost predicate Means(env: Env, got: Option<string>, p: Pattern) {
    match p
    case AnyOptStr => true
    case AnyStr => got.Some?
    case StrRe(re) => got.Some? && env.matches(re, got.value)
    case OptStrRe(re) => got.Some? ==> env.matches(re, got.value)
    case NotStrRe(re) => got.Some? && !env.matches(re, got.value)
    case Either(options) => exists i :: 0 <= i < |options| && Means(env, got, options[i])
    case InsensitiveStr(s) => got.Some? && env.lower(got.value) == env.lower(s)
    case Str(s) => got == Some(s)
    case NoneLiteral => got == None
    case OtherOperator => false
    case ListRemainder(_, _) => false
  }

  /** No operator `match_string` does not know, at any depth. */
  ghost predicate Supported(p: Pattern) {
    match p
    case OtherOperator => false
    case Either(options) => forall i :: 0 <= i < |options| ==> Supported(options[i])
    case _ => true
  }

  /** Whether the pattern answers instead of raising: no operator that fails on this value is reached
      before an alternative matches. */
  ghost predicate Answers(env: Env, got: Option<string>, p: Pattern) {
    match p
    case AnyStr => got.Some?
    case OtherOperator => false
    case Either(options) =>
      forall i :: 0 <= i < |options| && NoneBefore(env, got, options, i) ==> Answers(env, got, options[i])
    case _ => true
  }

  /** No alternative before this one matches. */
  ghost predicate NoneBefore(env: Env, got: Option<string>, options: seq<Pattern>, i: nat)
    requires i <= |options|
  {
    forall j :: 0 <= j < i ==> !Means(env, got, options[j])
  }

  ghost predicate AnyAnswers(env: Env, got: Option<string>, options: seq<Pattern>) {
    forall i :: 0 <= i < |options| && NoneBefore(env, got, options, i) ==> Answers(env, got, options[i])
  }

  ghost predicate AnyMeans(env: Env, got: Option<string>, options: seq<Pattern>) {
    exists i :: 0 <= i < |options| && Means(env, got, options[i])
  }

  lemma AnyFirst(env: Env, got: Option<string>, options: seq<Pattern>)
    requires |options| > 0
    ensures AnyMeans(env, got, options) <==> Means(env, got, options[0]) || AnyMeans(env, got, options[1..])
    ensures AnyAnswers(env, got, options) <==>
            Answers(env, got, options[0]) && (Means(env, got, options[0]) || AnyAnswers(env, got, options[1..]))
  {
    hide Means, Answers;
    var rest := options[1..];
    assert forall i :: 0 < i < |options| ==> options[i] == rest[i - 1];
    assert NoneBefore(env, got, options, 0);
    forall i | 0 < i < |options|
      ensures NoneBefore(env, got, options, i) <==> !Means(env, got, options[0]) && NoneBefore(env, got, rest, i - 1)
    {
      assert forall j :: 0 < j < i ==> options[j] == rest[j - 1];
      assert forall j :: 0 <= j < i - 1 ==> rest[j] == options[j + 1];
    }
    if AnyAnswers(env, got, options) && !Means(env, got, options[0]) {
      forall i | 0 <= i < |rest| && NoneBefore(env, got, rest, i) ensures Answers(env, got, rest[i]) {
        assert NoneBefore(env, got, options, i + 1);
      }
    }
    if AnyMeans(env, got, rest) {
      var i :| 0 <= i < |rest| && Means(env, got, rest[i]);
      assert Means(env, got, options[i + 1]);
    }
  }

  /** For every value and pattern: when there is an answer, and what it then says. */
  lemma {:induction false} MatchStringMeans(env: Env, got: Option<string>, p: Pattern)
    ensures MatchString(env, got, p) ==
            if Answers(env, got, p) then Ok(Means(env, got, p)) else Err(UnsupportedOperator)
  {
    if p.Either? {
      MatchAnyMeans(env, got, p.options);
    }
  }

  lemma {:induction false} MatchAnyMeans(env: Env, got: Option<string>, options: seq<Pattern>)
    ensures MatchAny(env, got, options) ==
            if AnyAnswers(env, got, options) then Ok(AnyMeans(env, got, options)) else Err(UnsupportedOperator)
  {
    if |options| > 0 {
      MatchStringMeans(env, got, options[0]);
      MatchAnyMeans(env, got, options[1..]);
      AnyFirst(env, got, options);
    }
  }

  /** A pattern that can be tried on None: neither ANYSTR nor an unknown operator, at any depth. */
  ghost predicate TakesNone(p: Pattern) {
    match p
    case AnyStr => false
    case OtherOperator => false
    case Either(options) => forall i :: 0 <= i < |options| ==> TakesNone(options[i])
    case _ => true
  }

  /** What a caller can check: a supported pattern answers for every string, and one without ANYSTR
      for None too. */
  lemma {:induction false} SupportedAnswers(env: Env, got: Option<string>, p: Pattern)
    ensures got.Some? && Supported(p) ==> Answers(env, got, p)
    ensures TakesNone(p) ==> Answers(env, got, p)
  {
    if p.Either? {
      forall i | 0 <= i < |p.options|
        ensures got.Some? && Supported(p.options[i]) ==> Answers(env, got, p.options[i])
        ensures TakesNone(p.options[i]) ==> Answers(env, got, p.options[i])
      {
        SupportedAnswers(env, got, p.options[i]);
      }
    }
  }

  // ---- match_list ----------------------------------------------------------

  function Max(a: int, b: int): int { if a > b then a else b }

  function Repeat(p: Pattern, n: int): (r: seq<Pattern>)
    ensures |r| == Max(n, 0) && forall i :: 0 <= i < |r| ==> r[i] == p
    decreases if n < 0 then 0 else n
  {
    if n <= 0 then [] else [p] + Repeat(p, n - 1)
  }

  /** A final `ListRemainder` spelled out for a list of `size` items. */
  function Expand(size: nat, expected: seq<Pattern>): seq<Pattern> {
    if |expected| > 0 && expected[|expected| - 1].ListRemainder? then
      var fixed, r := expected[..|expected| - 1], expected[|expected| - 1];
      fixed + Repeat(r.item, Max(size - |fixed|, r.minLength))
    else expected
  }

  predicate IsOptional(p: Pattern) { p.AnyOptStr? || p.OptStrRe? }

  /** The loop that counts the optional patterns and refuses one before a required one. */
  function CountOptionals(expected: seq<Pattern>, count: nat): Result<nat, MatchError>
    decreases |expected|
  {
    if |expected| == 0 then Ok(count)
    else if IsOptional(expected[0]) then CountOptionals(expected[1..], count + 1)
    else if count > 0 then Err(OptionalNotLast)
    else CountOptionals(expected[1..], count)
  }

  /** `all(match_string(...) ...)` over `zip_longest`: missing items are None. */
  function MatchAll(env: Env, got: seq<Option<string>>, expected: seq<Pattern>): Verdict
    decreases |expected|
  {
    if |expected| == 0 then Ok(true)
    else
      var first :- MatchString(env, if |got| > 0 then got[0] else None, expected[0]);
      if !first then Ok(false)
      else MatchAll(env, if |got| > 0 then got[1..] else [], expected[1..])
  }

  function MatchList(env: Env, got: seq<Option<string>>, expected: seq<Pattern>): Verdict {
    var all := Expand(|got|, expected);
    var optionals :- CountOptionals(all, 0);
    if !(|all| - optionals <= |got| <= |all|) then Ok(false) else MatchAll(env, got, all)
  }

  method ComputeMatchList(env: Env, got: seq<Option<string>>, expectedList: seq<Pattern>) returns (r: Verdict)
    ensures r == MatchList(env, got, expectedList)
  {
    hide MatchString;
    var expected := expectedList;
    if |expected| > 0 && expected[|expected| - 1].ListRemainder? {
      var remainder := expected[|expected| - 1];
      expected := expected[..|expected| - 1];
      var nbRemainingItems := |got| - |expected|;
      expected := expected + Repeat(remainder.item, Max(nbRemainingItems, remainder.minLength));
    }
    assert expected == Expand(|got|, expectedList);
    hide Expand, Repeat;
    var nbOptionals := 0;
    for i := 0 to |expected|
      invariant CountOptionals(expected[i..], nbOptionals) == CountOptionals(expected, 0)
      invariant nbOptionals <= i
    {
      assert expected[i..][1..] == expected[i + 1..];
      if expected[i].AnyOptStr? || expected[i].OptStrRe? {
        nbOptionals := nbOptionals + 1;
      } else if nbOptionals > 0 {
        return Err(OptionalNotLast);
      }
    }
    if !(|expected| - nbOptionals <= |got| <= |expected|) {
      return Ok(false);
    }
    for i := 0 to |expected|
      invariant MatchAll(env, if i <= |got| then got[i..] else [], expected[i..]) == MatchAll(env, got, expected)
    {
      assert expected[i..][1..] == expected[i + 1..];
      assert i < |got| ==> got[i..][1..] == got[i + 1..];
      var one := MatchString(env, if i < |got| then got[i] else None, expected[i]);
      if one.Err? {
        return one;
      }
      if !one.value {
        return Ok(false);
      }
    }
    r := Ok(true);
  }

  // ---- What match_list decides -----------------------------------------------

  predicate OptionalsLast(expected: seq<Pattern>) {
    forall i, j :: 0 <= i < j < |expected| && IsOptional(expected[i]) ==> IsOptional(expected[j])
  }

  /** Number of leading required patterns. */
  function Required(expected: seq<Pattern>): (n: nat)
    ensures n <= |expected| && forall i :: 0 <= i < n ==> !IsOptional(expected[i])
    ensures n < |expected| ==> IsOptional(expected[n])
  {
    if |expected| == 0 || IsOptional(expected[0]) then 0 else 1 + Required(expected[1..])
  }

  lemma {:induction false} CountOptionalsIs(expected: seq<Pattern>, count: nat)
    ensures CountOptionals(expected, count).Ok? <==>
            OptionalsLast(expected) && (count > 0 ==> forall i :: 0 <= i < |expected| ==> IsOptional(expected[i]))
    ensures CountOptionals(expected, count).Ok? ==>
            CountOptionals(expected, count).value == count + |expected| - Required(expected)
    ensures CountOptionals(expected, count).Err? ==> CountOptionals(expected, count).error == OptionalNotLast
    decreases |expected|
  {
    if |expected| > 0 {
      var rest := expected[1..];
      assert forall i :: 0 <= i < |rest| ==> rest[i] == expected[i + 1];
      CountOptionalsIs(rest, if IsOptional(expected[0]) then count + 1 else count);
      if OptionalsLast(expected) {
        assert OptionalsLast(rest);
        if IsOptional(expected[0]) {
          assert forall i :: 0 <= i < |rest| ==> IsOptional(rest[i]);
          assert Required(rest) == 0;
        }
      }
      if OptionalsLast(rest) && (IsOptional(expected[0]) ==> forall i :: 0 <= i < |rest| ==> IsOptional(rest[i])) {
        forall i, j | 0 <= i < j < |expected| && IsOptional(expected[i]) ensures IsOptional(expected[j]) {
          assert expected[j] == rest[j - 1];
          if i > 0 {
            assert expected[i] == rest[i - 1];
          }
        }
      }
    }
  }

  ghost predicate NoneFree(got: seq<Option<string>>) { forall i :: 0 <= i < |got| ==> got[i].Some? }

  ghost predicate AllSupported(ps: seq<Pattern>) { forall i :: 0 <= i < |ps| ==> Supported(ps[i]) }

  /** Each present item matches its pattern. */
  ghost predicate ItemsMatch(env: Env, got: seq<Option<string>>, expected: seq<Pattern>)
    requires |got| <= |expected|
  {
    forall i :: 0 <= i < |got| ==> Means(env, got[i], expected[i])
  }

  /** Every present item that is reached, all before it having matched, gets an answer. */
  ghost predicate ItemsAnswer(env: Env, got: seq<Option<string>>, expected: seq<Pattern>)
    requires |got| <= |expected|
  {
    forall i :: 0 <= i < |got| && MatchesBefore(env, got, expected, i) ==> Answers(env, got[i], expected[i])
  }

  ghost predicate MatchesBefore(env: Env, got: seq<Option<string>>, expected: seq<Pattern>, i: nat)
    requires i <= |got| <= |expected|
  {
    forall j :: 0 <= j < i ==> Means(env, got[j], expected[j])
  }

  /** Strings and supported patterns always give answers. */
  lemma StringsAnswer(env: Env, got: seq<Option<string>>, expected: seq<Pattern>)
    requires |got| <= |expected| && NoneFree(got) && AllSupported(expected)
    ensures ItemsAnswer(env, got, expected)
  {
    forall i | 0 <= i < |got| ensures Answers(env, got[i], expected[i]) {
      SupportedAnswers(env, got[i], expected[i]);
    }
  }

  lemma ItemsFirst(env: Env, got: seq<Option<string>>, expected: seq<Pattern>)
    requires 0 < |got| <= |expected|
    ensures var first := Means(env, got[0], expected[0]);
            && (ItemsMatch(env, got, expected) <==> first && ItemsMatch(env, got[1..], expected[1..]))
            && (ItemsAnswer(env, got, expected) <==>
                  Answers(env, got[0], expected[0]) && (first ==> ItemsAnswer(env, got[1..], expected[1..])))
  {
    hide Means, Answers;
    var got', expected' := got[1..], expected[1..];
    assert forall i :: 0 < i < |got| ==> got[i] == got'[i - 1] && expected[i] == expected'[i - 1];
    assert forall i :: 0 <= i < |got'| ==> got'[i] == got[i + 1] && expected'[i] == expected[i + 1];
    assert MatchesBefore(env, got, expected, 0);
    forall i | 0 < i < |got|
      ensures MatchesBefore(env, got, expected, i) <==>
              Means(env, got[0], expected[0]) && MatchesBefore(env, got', expected', i - 1)
    {
      if MatchesBefore(env, got', expected', i - 1) && Means(env, got[0], expected[0]) {
        forall j | 0 < j < i ensures Means(env, got[j], expected[j]) {
          assert Means(env, got'[j - 1], expected'[j - 1]);
        }
      }
    }
    if ItemsAnswer(env, got, expected) && Means(env, got[0], expected[0]) {
      forall i | 0 <= i < |got'| && MatchesBefore(env, got', expected', i) ensures Answers(env, got'[i], expected'[i]) {
        assert MatchesBefore(env, got, expected, i + 1);
      }
    }
    if ItemsMatch(env, got', expected') && Means(env, got[0], expected[0]) {
      forall i | 0 < i < |got| ensures Means(env, got[i], expected[i]) {
        assert Means(env, got'[i - 1], expected'[i - 1]);
      }
    }
  }

  /** Padding only meets optional patterns, which accept it, so only present items can fail. */
  lemma {:induction false} MatchAllIs(env: Env, got: seq<Option<string>>, expected: seq<Pattern>)
    requires |got| <= |expected| && forall i :: |got| <= i < |expected| ==> IsOptional(expected[i])
    ensures MatchAll(env, got, expected) ==
            if ItemsAnswer(env, got, expected) then Ok(ItemsMatch(env, got, expected)) else Err(UnsupportedOperator)
    decreases |expected|
  {
    if |expected| > 0 {
      if |got| > 0 {
        MatchStringMeans(env, got[0], expected[0]);
        MatchAllIs(env, got[1..], expected[1..]);
        ItemsFirst(env, got, expected);
      } else {
        MatchAllIs(env, got, expected[1..]);
      }
    }
  }

  /** For every list and every pattern list: an error if an optional pattern stands before a required
      one; false if the length is not between the required and the full count; an error if an item is
      reached that gets no answer; and otherwise whether every item matches its pattern. */
  lemma MatchListIs(env: Env, got: seq<Option<string>>, expected: seq<Pattern>)
    ensures var all := Expand(|got|, expected);
            MatchList(env, got, expected) ==
            if !OptionalsLast(all) then Err(OptionalNotLast)
            else if !(Required(all) <= |got| <= |all|) then Ok(false)
            else if !ItemsAnswer(env, got, all) then Err(UnsupportedOperator)
            else Ok(ItemsMatch(env, got, all))
  {
    hide MatchString;
    var all := Expand(|got|, expected);
    CountOptionalsIs(all, 0);
    if OptionalsLast(all) && Required(all) <= |got| <= |all| {
      forall i | |got| <= i < |all| ensures IsOptional(all[i]) {
        assert IsOptional(all[Required(all)]);
      }
      MatchAllIs(env, got, all);
    }
  }

  /** Patterns without a remainder, optional ones only at the end. */
  lemma MatchListWithOptionals(env: Env, got: seq<Option<string>>, required: seq<Pattern>, optional: seq<Pattern>)
    requires forall i :: 0 <= i < |required| ==>
               !required[i].AnyOptStr? && !required[i].OptStrRe? && !required[i].ListRemainder?
    requires forall i :: 0 <= i < |optional| ==> optional[i].AnyOptStr? || optional[i].OptStrRe?
    ensures var all := required + optional;
            MatchList(env, got, all) ==
            if !(|required| <= |got| <= |all|) then Ok(false)
            else if !ItemsAnswer(env, got, all) then Err(UnsupportedOperator)
            else Ok(ItemsMatch(env, got, all))
  {
    var all := required + optional;
    assert Expand(|got|, all) == all;
    MatchListIs(env, got, all);
    RequiredIs(all, |required|);
  }

  /** An ANYOPTSTR or OptStrRe before any other pattern, the remainder spelled out, is an error; and that
      error has no other cause. */
  lemma OptionalMustBeLast(env: Env, got: seq<Option<string>>, expected: seq<Pattern>)
    ensures var all := Expand(|got|, expected);
            MatchList(env, got, expected) == Err(OptionalNotLast) <==>
            exists i, j :: 0 <= i < j < |all| && (all[i].AnyOptStr? || all[i].OptStrRe?)
                           && !(all[j].AnyOptStr? || all[j].OptStrRe?)
  {
    hide MatchList, Expand, ItemsAnswer, ItemsMatch;
    MatchListIs(env, got, expected);
    var all := Expand(|got|, expected);
    assert forall i :: 0 <= i < |all| ==> (IsOptional(all[i]) <==> all[i].AnyOptStr? || all[i].OptStrRe?);
  }

  lemma {:induction false} RequiredIs(ps: seq<Pattern>, n: nat)
    requires n <= |ps| && (forall i :: 0 <= i < n ==> !IsOptional(ps[i])) && (n < |ps| ==> IsOptional(ps[n]))
    ensures Required(ps) == n
  {
    if n > 0 {
      RequiredIs(ps[1..], n - 1);
    }
  }

  /** Required patterns and a remainder: there are enough items, the fixed ones match, and all the
      others match the item. The minimum length counts only when the item is not optional. */
  lemma MatchListWithRemainder(env: Env, got: seq<Option<string>>, fixed: seq<Pattern>, item: Pattern, min: int)
    requires forall i :: 0 <= i < |fixed| ==> !fixed[i].AnyOptStr? && !fixed[i].OptStrRe?
    ensures var all := Expand(|got|, fixed + [ListRemainder(item, min)]);
            MatchList(env, got, fixed + [ListRemainder(item, min)]) ==
            if |got| < |fixed| + (if item.AnyOptStr? || item.OptStrRe? || min < 0 then 0 else min) then Ok(false)
            else if !ItemsAnswer(env, got, all) then Err(UnsupportedOperator)
            else Ok(&& (forall i :: 0 <= i < |fixed| ==> Means(env, got[i], fixed[i]))
                    && (forall i :: |fixed| <= i < |got| ==> Means(env, got[i], item)))
  {
    var expected := fixed + [ListRemainder(item, min)];
    var all := Expand(|got|, expected);
    ExpandIs(|got|, fixed, item, min);
    assert IsOptional(item) <==> item.AnyOptStr? || item.OptStrRe?;
    assert forall i :: 0 <= i < |fixed| ==> !IsOptional(fixed[i]);
    hide MatchList, Expand, Means, ItemsAnswer, ItemsMatch, OptionalsLast, IsOptional, Required;
    MatchListIs(env, got, expected);
    RemainderShape(fixed, item, all);
    if |fixed| <= |got| <= |all| {
      RemainderItems(env, got, fixed, item, all);
    }
  }

  lemma RemainderShape(fixed: seq<Pattern>, item: Pattern, all: seq<Pattern>)
    requires |all| >= |fixed| && all[..|fixed|] == fixed && forall i :: |fixed| <= i < |all| ==> all[i] == item
    requires forall i :: 0 <= i < |fixed| ==> !IsOptional(fixed[i])
    ensures OptionalsLast(all) && Required(all) == if IsOptional(item) then |fixed| else |all|
  {
    assert forall i :: 0 <= i < |fixed| ==> all[i] == fixed[i];
    hide IsOptional;
    RequiredIs(all, if IsOptional(item) then |fixed| else |all|);
  }

  lemma ExpandIs(size: nat, fixed: seq<Pattern>, item: Pattern, min: int)
    ensures var all := Expand(size, fixed + [ListRemainder(item, min)]);
            && |all| == |fixed| + Max(Max(size - |fixed|, min), 0) && all[..|fixed|] == fixed
            && |all| >= size
            && forall i :: |fixed| <= i < |all| ==> all[i] == item
  {
    var expected := fixed + [ListRemainder(item, min)];
    assert expected[..|expected| - 1] == fixed;
  }

  lemma RemainderItems(env: Env, got: seq<Option<string>>, fixed: seq<Pattern>, item: Pattern, all: seq<Pattern>)
    requires |fixed| <= |got| <= |all| && all[..|fixed|] == fixed
    requires forall i :: |fixed| <= i < |all| ==> all[i] == item
    ensures ItemsMatch(env, got, all) <==>
            && (forall i :: 0 <= i < |fixed| ==> Means(env, got[i], fixed[i]))
            && (forall i :: |fixed| <= i < |got| ==> Means(env, got[i], item))
  {
    assert forall i :: 0 <= i < |fixed| ==> all[i] == fixed[i];
    if ItemsMatch(env, got, all) {
      forall i | 0 <= i < |fixed| ensures Means(env, got[i], fixed[i]) {
        assert Means(env, got[i], all[i]);
      }
    }
  }
}
