/** The four message regular expressions of the SCRAM code, as recognisers. Each message is a
    record of its groups with the text it stands for; each recogniser is proved to accept exactly
    the texts of well-formed records, so every split is the only one. */
module ScramMessages {
  import opened Wrappers
  import opened Octets

  // ---- Character classes ---------------------------------------------------

  predicate IsValueChar(c: Octet) { '!' <= c <= '~' && c != ',' }

  predicate IsBase64Char(c: Octet) {
    'a' <= c <= 'z' || 'A' <= c <= 'Z' || '0' <= c <= '9' || c == '/' || c == '+' || c == '='
  }

  /** `[a-zA-z0-9.-]`: the range `A-z` is the source's own. */
  predicate IsCbNameChar(c: Octet) {
    'A' <= c <= 'z' || '0' <= c <= '9' || c == '.' || c == '-'
  }

  predicate IsExtensionChar(c: Octet) { c != '\0' && c != '=' }

  predicate IsField(s: Bytes, p: Octet -> bool) { s != [] && Span(s, p) == |s| }

  /** `VALUE_CHARS_RE.match`: `$` also matches before a final newline. */
  predicate MatchesValueChars(s: Bytes) { IsField(ChopNewline(s), IsValueChar) }

  /** `(?:,.*)?`, where `.` matches no newline. */
  predicate IsTail(s: Bytes) { s == [] || (s[0] == ',' && '\n' !in s) }

  /** What precedes the place where `$` matches, for a pattern that cannot end in a newline. */
  function ChopNewline(s: Bytes): Bytes {
    if s != [] && s[|s| - 1] == '\n' then s[..|s| - 1] else s
  }

  lemma FieldIsAll(s: Bytes, p: Octet -> bool)
    ensures IsField(s, p) <==> s != [] && All(s, p)
  {
  }

  lemma ChopNewlineIs(s: Bytes, text: Bytes)
    requires text != [] && text[|text| - 1] != '\n'
    ensures ChopNewline(s) == text <==> s == text || s == text + "\n"
  {
    if ChopNewline(s) == text && s != text {
      assert s == s[..|s| - 1] + [s[|s| - 1]];
    }
  }

  // ---- Attribute lists -------------------------------------------------------

  /** An attribute of a message: a literal followed by a non-empty run of a character class. */
  datatype Attr = Attr(lit: Bytes, chars: Octet -> bool)

  /** The text of an attribute list and of what follows it. */
  function Render(spec: seq<Attr>, values: seq<Bytes>, rest: Bytes): Bytes
    requires |values| == |spec|
  {
    if spec == [] then rest
    else spec[0].lit + (values[0] + Render(spec[1..], values[1..], rest))
  }

  function Scan(s: Bytes, spec: seq<Attr>): (r: Option<(seq<Bytes>, Bytes)>)
    ensures r.Some? ==> |r.value.0| == |spec|
  {
    if spec == [] then Some(([], s)) else
      var after :- Literal(s, spec[0].lit);
      var (value, after) :- Run(after, spec[0].chars);
      var (values, rest) :- Scan(after, spec[1..]);
      Some(([value] + values, rest))
  }

  /** Every value is in its class, and what follows it is not. */
  predicate Fits(spec: seq<Attr>, values: seq<Bytes>, rest: Bytes)
    requires |values| == |spec|
  {
    spec == [] ||
    (&& IsField(values[0], spec[0].chars)
     && (var next := Render(spec[1..], values[1..], rest); next == [] || !spec[0].chars(next[0]))
     && Fits(spec[1..], values[1..], rest))
  }

  /** Scanning inverts rendering, and nothing else scans. */
  lemma {:induction false} ScanExact(s: Bytes, spec: seq<Attr>, values: seq<Bytes>, rest: Bytes)
    requires |values| == |spec|
    ensures Scan(s, spec) == Some((values, rest)) <==>
            Fits(spec, values, rest) && s == Render(spec, values, rest)
  {
    if spec != [] {
      ScanSound(s, spec, values, rest);
      ScanComplete(s, spec, values, rest);
    }
  }

  lemma {:induction false} ScanSound(s: Bytes, spec: seq<Attr>, values: seq<Bytes>, rest: Bytes)
    requires |values| == |spec| > 0
    ensures Scan(s, spec) == Some((values, rest)) ==>
            Fits(spec, values, rest) && s == Render(spec, values, rest)
    decreases |spec|, 0
  {
    if Scan(s, spec) == Some((values, rest)) {
      var q := Literal(s, spec[0].lit).value;
      LiteralSplits(s, spec[0].lit, q);
      var (v, after) := Run(q, spec[0].chars).value;
      RunSplits(q, spec[0].chars, v, after);
      FieldIsAll(v, spec[0].chars);
      assert values[0] == v && values[1..] == Scan(after, spec[1..]).value.0;
      if |spec| > 1 {
        ScanSound(after, spec[1..], values[1..], rest);
      }
    }
  }

  lemma {:induction false} ScanComplete(s: Bytes, spec: seq<Attr>, values: seq<Bytes>, rest: Bytes)
    requires |values| == |spec|
    ensures Fits(spec, values, rest) && s == Render(spec, values, rest) ==>
            Scan(s, spec) == Some((values, rest))
    decreases |spec|
  {
    hide Span, Literal, Run, Scan, IsField;
    if spec == [] {
      ScanNothing(s, spec, values);
    } else if Fits(spec, values, rest) && s == Render(spec, values, rest) {
      var next := Render(spec[1..], values[1..], rest);
      LiteralSplits(s, spec[0].lit, values[0] + next);
      FieldIsAll(values[0], spec[0].chars);
      RunSplits(values[0] + next, spec[0].chars, values[0], next);
      ScanComplete(next, spec[1..], values[1..], rest);
      ScanFirst(s, spec, values[0], next, values[1..], rest);
      assert values == [values[0]] + values[1..];
    }
  }

  lemma ScanNothing(s: Bytes, spec: seq<Attr>, values: seq<Bytes>)
    requires |spec| == |values| == 0
    ensures Scan(s, spec) == Some((values, s))
  {
  }

  lemma ScanFirst(s: Bytes, spec: seq<Attr>, value: Bytes, next: Bytes, values: seq<Bytes>, rest: Bytes)
    requires |spec| > 0 && Literal(s, spec[0].lit) == Some(value + next)
    requires Run(value + next, spec[0].chars) == Some((value, next)) && Scan(next, spec[1..]) == Some((values, rest))
    ensures Scan(s, spec) == Some(([value] + values, rest))
  {
    hide Literal, Run;
  }

  lemma RenderOne(attr: Attr, value: Bytes, rest: Bytes)
    ensures Render([attr], [value], rest) == attr.lit + (value + rest)
    ensures Fits([attr], [value], rest) <==> IsField(value, attr.chars) && Stops(rest, attr.chars)
  {
    assert Render([attr][1..], [value][1..], rest) == rest;
  }

  lemma RenderMore(attr: Attr, spec: seq<Attr>, value: Bytes, values: seq<Bytes>, rest: Bytes)
    requires |values| == |spec|
    ensures Render([attr] + spec, [value] + values, rest) == attr.lit + (value + Render(spec, values, rest))
    ensures Fits([attr] + spec, [value] + values, rest) <==>
            IsField(value, attr.chars) && Stops(Render(spec, values, rest), attr.chars) && Fits(spec, values, rest)
  {
    assert ([attr] + spec)[1..] == spec && ([value] + values)[1..] == values;
  }

  lemma ScanOne(s: Bytes, attr: Attr, value: Bytes, rest: Bytes)
    ensures Scan(s, [attr]) == Some(([value], rest)) <==>
            IsField(value, attr.chars) && Stops(rest, attr.chars) && s == attr.lit + (value + rest)
  {
    hide Scan, Fits, Render, IsField;
    ScanExact(s, [attr], [value], rest);
    RenderOne(attr, value, rest);
  }

  lemma ScanTwo(s: Bytes, attr: Attr, attr': Attr, value: Bytes, value': Bytes, rest: Bytes)
    requires attr'.lit != [] && !attr.chars(attr'.lit[0])
    ensures Scan(s, [attr, attr']) == Some(([value, value'], rest)) <==>
            IsField(value, attr.chars) && IsField(value', attr'.chars) && Stops(rest, attr'.chars)
            && s == attr.lit + value + attr'.lit + value' + rest
  {
    hide Scan, Fits, Render, IsField;
    ScanExact(s, [attr, attr'], [value, value'], rest);
    assert [attr, attr'] == [attr] + [attr'] && [value, value'] == [value] + [value'];
    RenderMore(attr, [attr'], value, [value'], rest);
    RenderOne(attr', value', rest);
    assert attr.lit + (value + (attr'.lit + (value' + rest))) == attr.lit + value + attr'.lit + value' + rest;
  }

  lemma ScanThree(s: Bytes, a: Attr, a': Attr, a'': Attr, v: Bytes, v': Bytes, v'': Bytes, rest: Bytes)
    requires a'.lit != [] && !a.chars(a'.lit[0]) && a''.lit != [] && !a'.chars(a''.lit[0])
    ensures Scan(s, [a, a', a'']) == Some(([v, v', v''], rest)) <==>
            IsField(v, a.chars) && IsField(v', a'.chars) && IsField(v'', a''.chars) && Stops(rest, a''.chars)
            && s == a.lit + v + a'.lit + v' + a''.lit + v'' + rest
  {
    hide Scan, Fits, Render, IsField;
    ScanExact(s, [a, a', a''], [v, v', v''], rest);
    assert [a, a', a''] == [a] + [a', a''] && [v, v', v''] == [v] + [v', v''];
    assert [a', a''] == [a'] + [a''] && [v', v''] == [v'] + [v''];
    RenderMore(a, [a', a''], v, [v', v''], rest);
    RenderMore(a', [a''], v', [v''], rest);
    RenderOne(a'', v'', rest);
    assert a.lit + (v + (a'.lit + (v' + (a''.lit + (v'' + rest))))) == a.lit + v + a'.lit + v' + a''.lit + v'' + rest;
  }

  // ---- Optional extension, common to two messages ---------------------------

  function ExtensionText(ext: Option<Bytes>): Bytes {
    match ext
    case None => []
    case Some(x) => "m=" + x + ","
  }

  predicate IsExtension(ext: Option<Bytes>) { ext.Some? ==> IsField(ext.value, IsExtensionChar) }

  /** `(?P<mext>m=[^\000=]+,)?` before an attribute: the extension ends two characters before the
      next equals sign. */
  function ParseExtension(s: Bytes): Option<(Option<Bytes>, Bytes)> {
    if !("m=" <= s) then Some((None, s)) else
      var n := Span(s[2..], IsExtensionChar);
      if n >= 3 && n < |s| - 2 && s[n + 2] == '=' && s[n] == ','
      then Some((Some(s[2..n]), s[n + 1..])) else None
  }

  lemma ExtensionSound(s: Bytes, ext: Option<Bytes>, rest: Bytes)
    ensures ParseExtension(s) == Some((ext, rest)) ==> IsExtension(ext) && s == ExtensionText(ext) + rest
  {
    if ParseExtension(s) == Some((ext, rest)) && ext.Some? {
      var n := Span(s[2..], IsExtensionChar);
      assert s == "m=" + s[2..n] + "," + s[n + 1..];
      assert All(s[2..n], IsExtensionChar) by {
        assert forall i :: 0 <= i < n - 2 ==> s[2..n][i] == s[2..][i];
      }
      FieldIsAll(s[2..n], IsExtensionChar);
    }
  }

  lemma ExtensionComplete(s: Bytes, ext: Option<Bytes>, attr: Bytes, rest: Bytes)
    requires |attr| == 2 && attr[1] == '=' && attr[0] != 'm' && IsExtensionChar(attr[0])
    ensures IsExtension(ext) && s == ExtensionText(ext) + (attr + rest) ==>
            ParseExtension(s) == Some((ext, attr + rest))
  {
    if IsExtension(ext) && s == ExtensionText(ext) + (attr + rest) {
      if ext.None? {
        assert s == attr + rest && s[0] == attr[0];
      } else {
        ExtensionPresent(s, ext.value, attr, rest);
      }
    }
  }

  lemma ExtensionPresent(s: Bytes, x: Bytes, attr: Bytes, rest: Bytes)
    requires |attr| == 2 && attr[1] == '=' && IsExtensionChar(attr[0])
    requires IsField(x, IsExtensionChar) && s == "m=" + x + "," + (attr + rest)
    ensures ParseExtension(s) == Some((Some(x), attr + rest))
  {
    assert s[2..] == x + [',', attr[0]] + ("=" + rest);
    ExtensionRun(x, attr[0], s[2..], rest);
    hide IsField, Span;
    var n := |x| + 2;
    assert s[2..n] == x && s[n] == ',' && s[n + 1..] == attr + rest && s[n + 2] == '=';
    assert x != [] by { FieldIsAll(x, IsExtensionChar); }
  }

  lemma ExtensionRun(x: Bytes, c: Octet, s: Bytes, rest: Bytes)
    requires IsField(x, IsExtensionChar) && IsExtensionChar(c) && s == x + [',', c] + ("=" + rest)
    ensures Span(s, IsExtensionChar) == |x| + 2
  {
    FieldIsAll(x, IsExtensionChar);
    RunSplits(s, IsExtensionChar, x + [',', c], "=" + rest);
  }

  lemma ExtensionSplits(s: Bytes, ext: Option<Bytes>, attr: Bytes, rest: Bytes)
    requires |attr| == 2 && attr[1] == '=' && attr[0] != 'm' && IsExtensionChar(attr[0])
    ensures ParseExtension(s) == Some((ext, attr + rest)) <==>
            IsExtension(ext) && s == ExtensionText(ext) + (attr + rest)
  {
    ExtensionSound(s, ext, attr + rest);
    ExtensionComplete(s, ext, attr, rest);
  }

  // ---- CLIENT_FIRST_MESSAGE_RE ----------------------------------------------

  datatype CbFlag = Unsupported | NotUsed | Used(name: Bytes) {
    predicate Wf() { Used? ==> IsField(name, IsCbNameChar) }

    function Text(): Bytes {
      match this
      case Unsupported => "n"
      case NotUsed => "y"
      case Used(name) => "p=" + name
    }
  }

  function AuthzidText(authzid: Option<Bytes>): Bytes {
    match authzid
    case None => []
    case Some(z) => "a=" + z
  }

  datatype ClientFirst = ClientFirst(
    flag: CbFlag, authzid: Option<Bytes>,
    ext: Option<Bytes>, username: Bytes, nonce: Bytes, tail: Bytes)
  {
    predicate Wf() {
      && flag.Wf() && (authzid.Some? ==> IsField(authzid.value, IsValueChar))
      && IsExtension(ext) && IsField(username, IsValueChar) && IsField(nonce, IsValueChar)
      && IsTail(tail)
    }

    /** Group `gs2_header`. */
    function Gs2Header(): Bytes { flag.Text() + "," + AuthzidText(authzid) + "," }

    /** Group `client_first_bare`. */
    function Bare(): Bytes { ExtensionText(ext) + "n=" + username + ",r=" + nonce + tail }

    function Text(): Bytes { Gs2Header() + Bare() }
  }

  const BARE: seq<Attr> := [Attr("n=", IsValueChar), Attr(",r=", IsValueChar)]

  function ParseFlag(s: Bytes): Option<(CbFlag, Bytes)> {
    if "y" <= s then Some((NotUsed, s[1..]))
    else if "n" <= s then Some((Unsupported, s[1..]))
    else
      var (names, rest) :- Scan(s, [Attr("p=", IsCbNameChar)]);
      Some((Used(names[0]), rest))
  }

  function ParseAuthzid(s: Bytes): Option<(Option<Bytes>, Bytes)> {
    if "a=" <= s then
      var (zs, rest) :- Scan(s, [Attr("a=", IsValueChar)]);
      Some((Some(zs[0]), rest))
    else Some((None, s))
  }

  function ParseGs2Header(s: Bytes): Option<(CbFlag, Option<Bytes>, Bytes)> {
    var (flag, r) :- ParseFlag(s);
    var r :- Literal(r, ",");
    var (authzid, r) :- ParseAuthzid(r);
    var r :- Literal(r, ",");
    Some((flag, authzid, r))
  }

  function ParseClientFirst(s: Bytes): Option<ClientFirst> {
    var (flag, authzid, r) :- ParseGs2Header(ChopNewline(s));
    var (ext, r) :- ParseExtension(r);
    var (vs, tail) :- Scan(r, BARE);
    if IsTail(tail) then Some(ClientFirst(flag, authzid, ext, vs[0], vs[1], tail)) else None
  }

  lemma FlagSplits(s: Bytes, flag: CbFlag, rest: Bytes)
    ensures ParseFlag(s) == Some((flag, "," + rest)) <==> flag.Wf() && s == flag.Text() + ("," + rest)
  {
    hide Scan, IsField;
    match flag
    case Used(name) =>
      ScanOne(s, Attr("p=", IsCbNameChar), name, "," + rest);
      assert flag.Text() + ("," + rest) == "p=" + (name + ("," + rest));
      assert ("p=" + (name + ("," + rest)))[0] == 'p';
      if ParseFlag(s) == Some((flag, "," + rest)) {
        assert Scan(s, [Attr("p=", IsCbNameChar)]).value.0 == [name];
      }
    case NotUsed =>
      LiteralSplits(s, "y", "," + rest);
    case Unsupported =>
      LiteralSplits(s, "n", "," + rest);
      assert ("n" + ("," + rest))[0] == 'n';
  }

  lemma AuthzidSplits(s: Bytes, authzid: Option<Bytes>, rest: Bytes)
    ensures ParseAuthzid(s) == Some((authzid, "," + rest)) <==>
            (authzid.Some? ==> IsField(authzid.value, IsValueChar)) && s == AuthzidText(authzid) + ("," + rest)
  {
    hide Scan, IsField;
    match authzid
    case None =>
      assert AuthzidText(authzid) + ("," + rest) == "," + rest;
      assert ("," + rest)[0] == ',';
    case Some(z) =>
      ScanOne(s, Attr("a=", IsValueChar), z, "," + rest);
      assert AuthzidText(authzid) + ("," + rest) == "a=" + (z + ("," + rest));
      if ParseAuthzid(s) == Some((authzid, "," + rest)) {
        assert Scan(s, [Attr("a=", IsValueChar)]).value.0 == [z];
      }
  }

  lemma Gs2HeaderSplits(s: Bytes, g: ClientFirst, rest: Bytes)
    ensures ParseGs2Header(s) == Some((g.flag, g.authzid, rest)) <==>
            g.flag.Wf() && (g.authzid.Some? ==> IsField(g.authzid.value, IsValueChar)) && s == g.Gs2Header() + rest
  {
    hide ParseFlag, ParseAuthzid, IsField;
    var r := AuthzidText(g.authzid) + ("," + rest);
    assert g.Gs2Header() + rest == g.flag.Text() + ("," + r);
    FlagSplits(s, g.flag, r);
    AuthzidSplits(r, g.authzid, rest);
    LiteralSplits("," + r, ",", r);
    LiteralSplits("," + rest, ",", rest);
    if ParseGs2Header(s) == Some((g.flag, g.authzid, rest)) {
      var q := ParseFlag(s).value.1;
      var q1 := Literal(q, ",").value;
      LiteralSplits(q, ",", q1);
      var q2 := ParseAuthzid(q1).value.1;
      LiteralSplits(q2, ",", rest);
      AuthzidSplits(q1, g.authzid, rest);
    }
  }

  lemma BareSplits(s: Bytes, u: Bytes, n: Bytes, tail: Bytes)
    requires IsTail(tail)
    ensures Scan(s, BARE) == Some(([u, n], tail)) <==>
            IsField(u, IsValueChar) && IsField(n, IsValueChar) && s == "n=" + u + ",r=" + n + tail
  {
    hide Scan;
    ScanTwo(s, BARE[0], BARE[1], u, n, tail);
  }

  /** The regular expression accepts exactly the texts of well-formed first messages, with or
      without a final newline, and yields their groups. */
  lemma ClientFirstExact(s: Bytes, g: ClientFirst)
    ensures ParseClientFirst(s) == Some(g) <==> g.Wf() && (s == g.Text() || s == g.Text() + "\n")
  {
    hide Scan, ParseExtension, ParseGs2Header, ChopNewline, IsField, Span;
    var b := ChopNewline(s);
    if g.Wf() {
      ClientFirstEnd(g);
      ChopNewlineIs(s, g.Text());
      if b == g.Text() {
        ClientFirstComplete(g);
      }
    }
    if ParseClientFirst(s) == Some(g) {
      var q := ParseGs2Header(b).value.2;
      var q1 := ParseExtension(q).value.1;
      Gs2HeaderSplits(b, g, q);
      ExtensionSound(q, g.ext, q1);
      assert Scan(q1, BARE).value.0 == [g.username, g.nonce];
      ClientFirstSound(q, q1, g);
    }
  }

  lemma ClientFirstSound(q: Bytes, q1: Bytes, g: ClientFirst)
    requires IsTail(g.tail) && q == ExtensionText(g.ext) + q1
    requires Scan(q1, BARE) == Some(([g.username, g.nonce], g.tail))
    ensures IsField(g.username, IsValueChar) && IsField(g.nonce, IsValueChar) && q == g.Bare()
  {
    hide Scan, ParseExtension, IsField;
    BareSplits(q1, g.username, g.nonce, g.tail);
  }

  lemma ClientFirstComplete(g: ClientFirst)
    requires g.Wf()
    ensures ParseGs2Header(g.Text()) == Some((g.flag, g.authzid, g.Bare()))
    ensures var attrs := "n=" + g.username + ",r=" + g.nonce + g.tail;
            && ParseExtension(g.Bare()) == Some((g.ext, attrs))
            && Scan(attrs, BARE) == Some(([g.username, g.nonce], g.tail))
  {
    hide Scan, ParseExtension, IsField;
    var attrs := "n=" + g.username + ",r=" + g.nonce + g.tail;
    var more := g.username + ",r=" + g.nonce + g.tail;
    assert g.Bare() == ExtensionText(g.ext) + attrs && attrs == "n=" + more;
    Gs2HeaderSplits(g.Text(), g, g.Bare());
    ExtensionSplits(g.Bare(), g.ext, "n=", more);
    BareSplits(attrs, g.username, g.nonce, g.tail);
  }

  lemma ClientFirstEnd(g: ClientFirst)
    requires g.Wf()
    ensures g.Text() != [] && g.Text()[|g.Text()| - 1] != '\n'
  {
    var t := g.nonce + g.tail;
    FieldIsAll(g.nonce, IsValueChar);
    assert t != [] && t[|t| - 1] != '\n';
    assert g.Text() == (g.Gs2Header() + ExtensionText(g.ext) + "n=" + g.username + ",r=") + t;
  }

  // ---- SERVER_FIRST_MESSAGE_RE ----------------------------------------------

  datatype ServerFirst = ServerFirst(ext: Option<Bytes>, nonce: Bytes, salt: Bytes, count: Bytes, tail: Bytes) {
    predicate Wf() {
      && IsExtension(ext) && IsField(nonce, IsValueChar) && IsField(salt, IsBase64Char)
      && IsField(count, IsDigit) && IsTail(tail)
    }

    function Attributes(): Bytes { "r=" + nonce + ",s=" + salt + ",i=" + count + tail }

    function Text(): Bytes { ExtensionText(ext) + Attributes() }
  }

  const SERVER_FIRST: seq<Attr> := [Attr("r=", IsValueChar), Attr(",s=", IsBase64Char), Attr(",i=", IsDigit)]

  function ParseServerFirst(s: Bytes): Option<ServerFirst> {
    var (ext, r) :- ParseExtension(ChopNewline(s));
    var (vs, tail) :- Scan(r, SERVER_FIRST);
    if IsTail(tail) then Some(ServerFirst(ext, vs[0], vs[1], vs[2], tail)) else None
  }

  lemma ServerFirstSplits(s: Bytes, g: ServerFirst)
    requires IsTail(g.tail)
    ensures Scan(s, SERVER_FIRST) == Some(([g.nonce, g.salt, g.count], g.tail)) <==>
       IsField(g.nonce, IsValueChar) && IsField(g.salt, IsBase64Char) && IsField(g.count, IsDigit)
       && s == g.Attributes()
  {
    hide Scan;
    ScanThree(s, SERVER_FIRST[0], SERVER_FIRST[1], SERVER_FIRST[2], g.nonce, g.salt, g.count, g.tail);
  }

  lemma ServerFirstExact(s: Bytes, g: ServerFirst)
    ensures ParseServerFirst(s) == Some(g) <==> g.Wf() && (s == g.Text() || s == g.Text() + "\n")
  {
    hide Scan, ParseExtension, ChopNewline, IsField;
    var b := ChopNewline(s);
    if g.Wf() {
      ServerFirstEnd(g);
      ChopNewlineIs(s, g.Text());
      if b == g.Text() {
        ServerFirstComplete(b, g);
      }
    }
    if ParseServerFirst(s) == Some(g) {
      ServerFirstSound(b, g);
    }
  }

  lemma AttributesStart(g: ServerFirst) returns (more: Bytes)
    ensures g.Attributes() == "r=" + more
  {
    more := g.Attributes()[2..];
  }

  lemma ServerFirstComplete(b: Bytes, g: ServerFirst)
    requires g.Wf() && b == g.Text()
    ensures ParseExtension(b) == Some((g.ext, g.Attributes()))
    ensures Scan(g.Attributes(), SERVER_FIRST) == Some(([g.nonce, g.salt, g.count], g.tail))
  {
    hide Scan, ParseExtension, IsField, ServerFirst.Attributes, ExtensionText;
    var more := AttributesStart(g);
    ExtensionSplits(b, g.ext, "r=", more);
    ServerFirstSplits(g.Attributes(), g);
  }

  lemma ServerFirstSound(b: Bytes, g: ServerFirst)
    requires ParseExtension(b).Some? && IsTail(g.tail) && ParseExtension(b).value.0 == g.ext
    requires Scan(ParseExtension(b).value.1, SERVER_FIRST).Some?
    requires var vs := Scan(ParseExtension(b).value.1, SERVER_FIRST).value.0;
             vs[0] == g.nonce && vs[1] == g.salt && vs[2] == g.count
    requires Scan(ParseExtension(b).value.1, SERVER_FIRST).value.1 == g.tail
    ensures g.Wf() && b == g.Text()
  {
    hide Scan, ParseExtension, IsField;
    var q := ParseExtension(b).value.1;
    assert Scan(q, SERVER_FIRST).value.0 == [g.nonce, g.salt, g.count];
    ServerFirstSplits(q, g);
    ExtensionSound(b, g.ext, q);
  }

  lemma ServerFirstEnd(g: ServerFirst)
    requires g.Wf()
    ensures g.Text() != [] && g.Text()[|g.Text()| - 1] != '\n'
  {
    var t := g.count + g.tail;
    FieldIsAll(g.count, IsDigit);
    assert t != [] && t[|t| - 1] != '\n';
    assert g.Text() == (ExtensionText(g.ext) + "r=" + g.nonce + ",s=" + g.salt + ",i=") + t;
  }

  // ---- CLIENT_FINAL_MESSAGE_RE ----------------------------------------------

  datatype ClientFinal = ClientFinal(cb: Bytes, nonce: Bytes, tail: Bytes, proof: Bytes) {
    predicate Wf() {
      && IsField(cb, IsBase64Char) && IsField(nonce, IsValueChar) && IsTail(tail)
      && IsField(proof, IsBase64Char)
    }

    /** Group `without_proof`. */
    function WithoutProof(): Bytes { "c=" + cb + ",r=" + nonce + tail }

    function ProofText(): Bytes { ",p=" + proof }

    function Text(): Bytes { WithoutProof() + ProofText() }
  }

  const WITHOUT_PROOF: seq<Attr> := [Attr("c=", IsBase64Char), Attr(",r=", IsValueChar)]
  const PROOF: seq<Attr> := [Attr(",p=", IsBase64Char)]

  /** Index of the last comma of `s`, or `|s|` when there is none. */
  function LastComma(s: Bytes): (n: nat)
    ensures n <= |s| && (n < |s| ==> s[n] == ',')
    ensures forall i :: n < i < |s| ==> s[i] != ','
    ensures n == |s| ==> forall i :: 0 <= i < |s| ==> s[i] != ','
  {
    if s == [] then 0
    else if s[|s| - 1] == ',' then |s| - 1
    else
      var n := LastComma(s[..|s| - 1]);
      if n < |s| - 1 then n else |s|
  }

  /** The greedy `.*` hands everything up to the last comma to `without_proof`. */
  function ParseClientFinal(s: Bytes): Option<ClientFinal> {
    var b := ChopNewline(s);
    var n := LastComma(b);
    var (ps, end) :- Scan(b[n..], PROOF);
    var (vs, tail) :- Scan(b[..n], WITHOUT_PROOF);
    if end == [] && IsTail(tail) then Some(ClientFinal(vs[0], vs[1], tail, ps[0])) else None
  }

  lemma WithoutProofSplits(s: Bytes, g: ClientFinal)
    requires IsTail(g.tail)
    ensures Scan(s, WITHOUT_PROOF) == Some(([g.cb, g.nonce], g.tail)) <==>
            IsField(g.cb, IsBase64Char) && IsField(g.nonce, IsValueChar) && s == g.WithoutProof()
  {
    hide Scan;
    ScanTwo(s, WITHOUT_PROOF[0], WITHOUT_PROOF[1], g.cb, g.nonce, g.tail);
  }

  lemma ProofSplits(s: Bytes, proof: Bytes)
    ensures Scan(s, PROOF) == Some(([proof], [])) <==> IsField(proof, IsBase64Char) && s == ",p=" + proof
  {
    hide Scan;
    ScanOne(s, PROOF[0], proof, []);
    assert proof + [] == proof;
  }

  lemma LastCommaSplits(before: Bytes, after: Bytes)
    requires after != [] && after[0] == ',' && ',' !in after[1..]
    ensures LastComma(before + after) == |before|
  {
    var s := before + after;
    assert s[|before|] == ',';
    forall i | |before| < i < |s| ensures s[i] != ',' {
      assert s[i] == after[1..][i - |before| - 1];
    }
  }

  lemma ClientFinalExact(s: Bytes, g: ClientFinal)
    ensures ParseClientFinal(s) == Some(g) <==> g.Wf() && (s == g.Text() || s == g.Text() + "\n")
  {
    hide Scan, LastComma, ChopNewline, IsField;
    if g.Wf() {
      FieldIsAll(g.proof, IsBase64Char);
      assert g.Text()[|g.Text()| - 1] == g.proof[|g.proof| - 1] != '\n';
      ChopNewlineIs(s, g.Text());
      ClientFinalComplete(g);
    }
    if ParseClientFinal(s) == Some(g) {
      ClientFinalSound(ChopNewline(s), g);
    }
  }

  lemma ClientFinalComplete(g: ClientFinal)
    requires g.Wf()
    ensures LastComma(g.Text()) == |g.WithoutProof()|
    ensures Scan(g.Text()[|g.WithoutProof()|..], PROOF) == Some(([g.proof], []))
    ensures Scan(g.Text()[..|g.WithoutProof()|], WITHOUT_PROOF) == Some(([g.cb, g.nonce], g.tail))
  {
    hide Scan, IsField;
    FieldIsAll(g.proof, IsBase64Char);
    assert g.ProofText()[1..] == "p=" + g.proof;
    LastCommaSplits(g.WithoutProof(), g.ProofText());
    assert g.Text()[|g.WithoutProof()|..] == g.ProofText();
    assert g.Text()[..|g.WithoutProof()|] == g.WithoutProof();
    ProofSplits(g.ProofText(), g.proof);
    WithoutProofSplits(g.WithoutProof(), g);
  }

  lemma ClientFinalSound(b: Bytes, g: ClientFinal)
    requires Scan(b[LastComma(b)..], PROOF).Some? && Scan(b[..LastComma(b)], WITHOUT_PROOF).Some?
    requires Scan(b[LastComma(b)..], PROOF).value.0[0] == g.proof
    requires Scan(b[LastComma(b)..], PROOF).value.1 == []
    requires var (vs, tail) := Scan(b[..LastComma(b)], WITHOUT_PROOF).value;
             vs[0] == g.cb && vs[1] == g.nonce && tail == g.tail
    requires IsTail(g.tail)
    ensures g.Wf() && b == g.Text()
  {
    hide Scan, IsField;
    var n := LastComma(b);
    assert Scan(b[n..], PROOF).value.0 == [g.proof];
    assert Scan(b[..n], WITHOUT_PROOF).value.0 == [g.cb, g.nonce];
    ProofSplits(b[n..], g.proof);
    WithoutProofSplits(b[..n], g);
    assert b == b[..n] + b[n..];
  }

  // ---- SERVER_FINAL_MESSAGE_RE ----------------------------------------------

  datatype ServerFinal = ServerError(error: Bytes) | Verifier(verifier: Bytes, tail: Bytes) {
    predicate Wf() {
      match this
      case ServerError(e) => e != [] && ',' !in e
      case Verifier(v, t) => IsField(v, IsBase64Char) && IsTail(t)
    }

    function Text(): Bytes {
      match this
      case ServerError(e) => "e=" + e
      case Verifier(v, t) => "v=" + v + t
    }
  }

  /** `[^,]+` takes a final newline with it; the other alternative leaves it to `$`. */
  function ParseServerFinal(s: Bytes): Option<ServerFinal> {
    if "e=" <= s then
      if s[2..] != [] && ',' !in s[2..] then Some(ServerError(s[2..])) else None
    else
      var (vs, tail) :- Scan(ChopNewline(s), [Attr("v=", IsBase64Char)]);
      if IsTail(tail) then Some(Verifier(vs[0], tail)) else None
  }

  lemma ServerFinalExact(s: Bytes, g: ServerFinal)
    ensures ParseServerFinal(s) == Some(g) <==>
            g.Wf() && (s == g.Text() || (g.Verifier? && s == g.Text() + "\n"))
  {
    if g.ServerError? {
      LiteralSplits(s, "e=", g.error);
    } else {
      VerifierExact(s, g);
    }
  }

  lemma VerifierExact(s: Bytes, g: ServerFinal)
    requires g.Verifier?
    ensures ParseServerFinal(s) == Some(g) <==> g.Wf() && (s == g.Text() || s == g.Text() + "\n")
  {
    hide Scan, IsField;
    var b := ChopNewline(s);
    ScanOne(b, Attr("v=", IsBase64Char), g.verifier, g.tail);
    var t := g.verifier + g.tail;
    assert g.Text() == "v=" + t && g.Text()[0] == 'v';
    if g.Wf() {
      FieldIsAll(g.verifier, IsBase64Char);
      assert t[|t| - 1] != '\n';
      assert g.Text()[|g.Text()| - 1] == t[|t| - 1];
      ChopNewlineIs(s, g.Text());
    }
    if ParseServerFinal(s) == Some(g) {
      assert Scan(b, [Attr("v=", IsBase64Char)]).value.0 == [g.verifier];
    }
  }
}
