/** The splitting and joining of Python strings. */
module Text {
  import opened Wrappers

  /** `s.split(sep)` for a one-character separator. */
  function Split(s: string, sep: char): (r: seq<string>)
    ensures |r| > 0
  {
    if s == "" then [""]
    else
      var rest := Split(s[1..], sep);
      if s[0] == sep then [""] + rest else [[s[0]] + rest[0]] + rest[1..]
  }

  /** `sep.join(parts)` */
  function Join(parts: seq<string>, sep: char): string {
    if |parts| == 0 then "" else if |parts| == 1 then parts[0]
    else parts[0] + [sep] + Join(parts[1..], sep)
  }

  lemma {:induction false} SplitPiece(x: string, rest: string, sep: char)
    requires sep !in x
    ensures Split(x + [sep] + rest, sep) == [x] + Split(rest, sep)
    decreases |x|
  {
    var s := x + [sep] + rest;
    if x == "" {
      assert s[1..] == rest;
    } else {
      assert s[1..] == x[1..] + [sep] + rest;
      SplitPiece(x[1..], rest, sep);
      assert [x[0]] + x[1..] == x;
    }
  }

  lemma {:induction false} SplitWhole(x: string, sep: char)
    requires sep !in x
    ensures Split(x, sep) == [x]
  {
    if x != "" {
      SplitWhole(x[1..], sep);
      assert [x[0]] + x[1..] == x;
    }
  }

  lemma {:induction false} SplitJoin(parts: seq<string>, sep: char)
    requires |parts| > 0 && forall i :: 0 <= i < |parts| ==> sep !in parts[i]
    ensures Split(Join(parts, sep), sep) == parts
  {
    if |parts| == 1 {
      SplitWhole(parts[0], sep);
    } else {
      SplitJoin(parts[1..], sep);
      SplitPiece(parts[0], Join(parts[1..], sep), sep);
      assert [parts[0]] + parts[1..] == parts;
    }
  }

  /** Every piece lacks the separator, and the pieces put the string together again. */
  lemma {:induction false} SplitParts(s: string, sep: char)
    ensures forall i :: 0 <= i < |Split(s, sep)| ==> sep !in Split(s, sep)[i]
    ensures forall i, c :: 0 <= i < |Split(s, sep)| && c in Split(s, sep)[i] ==> c in s
    ensures Join(Split(s, sep), sep) == s
  {
    if s != "" {
      SplitParts(s[1..], sep);
      var rest := Split(s[1..], sep);
      var r := Split(s, sep);
      assert s == [s[0]] + s[1..];
      if s[0] == sep {
        assert r[1..] == rest;
        assert Join(r, sep) == "" + [sep] + Join(rest, sep);
      } else {
        assert r[0] == [s[0]] + rest[0] && r[1..] == rest[1..];
        forall i | 0 <= i < |r| ensures sep !in r[i] && forall c :: c in r[i] ==> c in s {
          if i > 0 {
            assert r[i] == rest[i];
          }
        }
        assert Join(r, sep) == [s[0]] + Join(rest, sep);
      }
    }
  }

  /** `s.split(sep, 1)`: the two sides of the first separator, if there is one. */
  function Cut(s: string, sep: char): (r: Option<(string, string)>)
    ensures r.None? ==> sep !in s
    ensures r.Some? ==> s == r.value.0 + [sep] + r.value.1 && sep !in r.value.0
  {
    if s == "" then None
    else if s[0] == sep then assert s == "" + [sep] + s[1..]; Some(("", s[1..]))
    else
      var r := Cut(s[1..], sep);
      if r.None? then None
      else
        assert s == [s[0]] + s[1..];
        assert [s[0]] + (r.value.0 + [sep] + r.value.1) == ([s[0]] + r.value.0) + [sep] + r.value.1;
        Some(([s[0]] + r.value.0, r.value.1))
  }

  lemma {:induction false} CutFirst(x: string, rest: string, sep: char)
    requires sep !in x
    ensures Cut(x + [sep] + rest, sep) == Some((x, rest))
  {
    var s := x + [sep] + rest;
    if x == "" {
      assert s[0] == sep && s[1..] == rest;
    } else {
      assert s[1..] == x[1..] + [sep] + rest;
      CutFirst(x[1..], rest, sep);
      assert [x[0]] + x[1..] == x;
    }
  }
}
