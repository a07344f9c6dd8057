/** Message tags: the escape table, `unescape_tag_value`, the key validator and `parse_tags`. */
module Tags {
  import opened Wrappers
  import opened Text

  // ---- Escaping (the "Escaping values" section of the message-tags specification) ----

  /** `TAG_ESCAPE`, read from left to right. */
  function EscapeChar(c: char): string {
    if c == '\\' then "\\\\"
    else if c == ' ' then "\\s"
    else if c == ';' then "\\:"
    else if c == '\r' then "\\r"
    else if c == '\n' then "\\n"
    else [c]
  }

  function EscapeValue(v: string): string {
    if v == "" then "" else EscapeChar(v[0]) + EscapeValue(v[1..])
  }

  /** The character that an escape sequence stands for, given what follows the backslash. */
  function Decoded(c: char): Option<char> {
    if c == '\\' then Some('\\')
    else if c == 's' then Some(' ')
    else if c == ':' then Some(';')
    else if c == 'r' then Some('\r')
    else if c == 'n' then Some('\n')
    else None
  }

  predicate StartsEscape(w: string) { |w| >= 2 && w[0] == '\\' && Decoded(w[1]).Some? }

  /** `unescape_tag_value`: every escape sequence replaced, in one pass; any other backslash stays. */
  function UnescapeValue(w: string): string {
    if w == "" then ""
    else if StartsEscape(w) then [Decoded(w[1]).value] + UnescapeValue(w[2..])
    else [w[0]] + UnescapeValue(w[1..])
  }

  lemma {:induction false} EscapeRoundTrip(v: string)
    ensures UnescapeValue(EscapeValue(v)) == v
  {
    if v != "" {
      EscapeRoundTrip(v[1..]);
      var e, rest := EscapeChar(v[0]), EscapeValue(v[1..]);
      assert v == [v[0]] + v[1..];
      if |e| == 2 {
        assert (e + rest)[2..] == rest && (e + rest)[0] == '\\' && (e + rest)[1] == e[1];
      } else {
        assert (e + rest)[1..] == rest && (e + rest)[0] == v[0] != '\\';
      }
    }
  }

  /** An escaped value holds none of the characters that end a tag, the tags or the line. */
  lemma {:induction false} EscapedIsSafe(v: string)
    ensures forall c :: c in EscapeValue(v) ==> c != ' ' && c != ';' && c != '\r' && c != '\n'
    ensures '\0' in EscapeValue(v) <==> '\0' in v
  {
    if v != "" {
      EscapedIsSafe(v[1..]);
      assert v == [v[0]] + v[1..];
    }
  }

  /** The table, both ways. */
  lemma TableIs(rest: string)
    ensures UnescapeValue("\\\\" + rest) == "\\" + UnescapeValue(rest)
    ensures UnescapeValue("\\s" + rest) == " " + UnescapeValue(rest)
    ensures UnescapeValue("\\:" + rest) == ";" + UnescapeValue(rest)
    ensures UnescapeValue("\\r" + rest) == "\r" + UnescapeValue(rest)
    ensures UnescapeValue("\\n" + rest) == "\n" + UnescapeValue(rest)
  {
    assert ("\\\\" + rest)[2..] == rest && ("\\s" + rest)[2..] == rest && ("\\:" + rest)[2..] == rest;
    assert ("\\r" + rest)[2..] == rest && ("\\n" + rest)[2..] == rest;
  }

  /** A value as the table writes it: no character that needs escaping, and every backslash
      starts an escape sequence. */
  predicate IsEscaped(w: string) {
    w == "" ||
    (if w[0] == '\\' then StartsEscape(w) && IsEscaped(w[2..])
     else EscapeChar(w[0]) == [w[0]] && IsEscaped(w[1..]))
  }

  lemma {:induction false} EscapeMakesEscaped(v: string)
    ensures IsEscaped(EscapeValue(v))
  {
    if v != "" {
      EscapeMakesEscaped(v[1..]);
      var e, rest := EscapeChar(v[0]), EscapeValue(v[1..]);
      if |e| == 2 {
        assert (e + rest)[2..] == rest && (e + rest)[0] == '\\' && (e + rest)[1] == e[1];
      } else {
        assert (e + rest)[1..] == rest && (e + rest)[0] == v[0];
      }
    }
  }

  /** Escaping undoes unescaping exactly on what escaping can write. */
  lemma {:induction false} UnescapeRoundTrip(w: string)
    ensures EscapeValue(UnescapeValue(w)) == w <==> IsEscaped(w)
  {
    EscapeMakesEscaped(UnescapeValue(w));
    if IsEscaped(w) {
      EscapedRoundTrip(w);
    }
  }

  lemma {:induction false} EscapedRoundTrip(w: string)
    requires IsEscaped(w)
    ensures EscapeValue(UnescapeValue(w)) == w
    decreases |w|
  {
    if w != "" {
      var u := UnescapeValue(w);
      if w[0] == '\\' {
        EscapedRoundTrip(w[2..]);
        assert u[1..] == UnescapeValue(w[2..]) && w == [w[0], w[1]] + w[2..];
        assert EscapeChar(u[0]) == [w[0], w[1]];
      } else {
        EscapedRoundTrip(w[1..]);
        assert u[1..] == UnescapeValue(w[1..]) && w == [w[0]] + w[1..];
      }
    }
  }

  // ---- The specification's unescaping ------------------------------------------

  /** What the message-tags specification asks for: a backslash that starts no valid escape, at the end
      or before another character, is dropped. */
  function SpecUnescape(w: string): string {
    if w == "" then ""
    else if StartsEscape(w) then [Decoded(w[1]).value] + SpecUnescape(w[2..])
    else if w[0] == '\\' then SpecUnescape(w[1..])
    else [w[0]] + SpecUnescape(w[1..])
  }

  /** Read from left to right, every backslash starts an escape. */
  predicate BackslashesEscape(w: string) {
    w == "" ||
    (if StartsEscape(w) then BackslashesEscape(w[2..]) else w[0] != '\\' && BackslashesEscape(w[1..]))
  }

  lemma {:induction false} UnescapeLength(w: string)
    ensures if BackslashesEscape(w) then UnescapeValue(w) == SpecUnescape(w)
            else |UnescapeValue(w)| > |SpecUnescape(w)|
    decreases |w|
  {
    if w != "" {
      UnescapeLength(if StartsEscape(w) then w[2..] else w[1..]);
    }
  }

  /** The code agrees with the specification exactly when no backslash stands alone. */
  lemma UnescapeMeetsSpec(w: string)
    ensures UnescapeValue(w) == SpecUnescape(w) <==> BackslashesEscape(w)
  {
    UnescapeLength(w);
  }

  /** Values that were escaped are such. */
  lemma {:induction false} EscapedMeetsSpec(w: string)
    requires IsEscaped(w)
    ensures BackslashesEscape(w)
    decreases |w|
  {
    if w != "" {
      EscapedMeetsSpec(if w[0] == '\\' then w[2..] else w[1..]);
    }
  }

  /** So what was escaped is read alike by the code and by the specification, as the value it was. */
  lemma SpecReadsEscaped(v: string)
    ensures SpecUnescape(EscapeValue(v)) == v
  {
    EscapeMakesEscaped(v);
    EscapedMeetsSpec(EscapeValue(v));
    UnescapeMeetsSpec(EscapeValue(v));
    EscapeRoundTrip(v);
  }

  /** The specification's own examples: a backslash before `b`, and one at the end. */
  lemma LoneBackslashes()
    ensures UnescapeValue("\\b") == "\\b" && SpecUnescape("\\b") == "b"
    ensures UnescapeValue("test\\") == "test\\" && SpecUnescape("test\\") == "test"
  {
    assert "\\b"[1..] == "b" && "test\\"[1..] == "est\\" && "est\\"[1..] == "st\\" && "st\\"[1..] == "t\\";
    assert "t\\"[1..] == "\\";
    var b, end := "b"[1..], "\\"[1..];
    assert |b| == 0 && |end| == 0;
  }

  lemma {:induction false} UnescapeAddsNoNul(w: string)
    requires '\0' !in w
    ensures '\0' !in UnescapeValue(w)
    decreases |w|
  {
    if w != "" {
      if StartsEscape(w) {
        UnescapeAddsNoNul(w[2..]);
      } else {
        UnescapeAddsNoNul(w[1..]);
      }
    }
  }

  // ---- Keys ----------------------------------------------------------------

  predicate IsNameChar(c: char) {
    'a' <= c <= 'z' || 'A' <= c <= 'Z' || '0' <= c <= '9' || c == '-'
  }

  /** What `\s` matches in a string pattern. */
  predicate IsSpace(c: char) {
    '\t' <= c <= '\r' || '\U{1C}' <= c <= ' ' || c == '\U{85}' || c == '\U{A0}' || c == '\U{1680}'
    || '\U{2000}' <= c <= '\U{200A}' || c == '\U{2028}' || c == '\U{2029}' || c == '\U{202F}'
    || c == '\U{205F}' || c == '\U{3000}'
  }

  predicate AllNames(s: string) { forall i :: 0 <= i < |s| ==> IsNameChar(s[i]) }

  predicate NoSpaces(s: string) { forall i :: 0 <= i < |s| ==> !IsSpace(s[i]) }

  /** Length of the longest run of name characters at the end. */
  function NameLength(s: string): (n: nat)
    ensures n <= |s| && AllNames(s[|s| - n..])
    ensures n < |s| ==> !IsNameChar(s[|s| - n - 1])
  {
    if s == "" || !IsNameChar(s[|s| - 1]) then 0
    else
      var init := s[..|s| - 1];
      var n := NameLength(init);
      assert s[|s| - n - 1..] == init[|init| - n..] + [s[|s| - 1]];
      n + 1
  }

  function ChopNewline(s: string): string {
    if s != "" && s[|s| - 1] == '\n' then s[..|s| - 1] else s
  }

  /** `tag_key_validator.match`, i.e. `^\+?(\S+/)?[a-zA-Z0-9-]+$`. */
  predicate ValidKey(key: string) {
    var b := ChopNewline(key);
    var n := NameLength(b);
    var front := b[..|b| - n];
    n > 0 && IsFront(front)
  }

  /** `\+?(\S+/)?`: the optional plus sign adds nothing before a vendor, whose `\S+` takes it in. */
  predicate IsFront(front: string) {
    front == "" || front == "+" || (|front| >= 2 && front[|front| - 1] == '/' && NoSpaces(front))
  }

  /** The regular expression, part by part; `$` also matches before a final newline. */
  ghost predicate KeyShape(key: string, front: string, name: string, end: string) {
    key == (front + name) + end && IsFront(front) && name != "" && AllNames(name) && (end == "" || end == "\n")
  }

  lemma ValidKeyExact(key: string)
    ensures ValidKey(key) <==> exists front, name, end :: KeyShape(key, front, name, end)
  {
    hide ValidKey, KeyShape;
    if ValidKey(key) {
      ValidHasShape(key);
    }
    if exists front, name, end :: KeyShape(key, front, name, end) {
      var front, name, end :| KeyShape(key, front, name, end);
      ShapeIsValid(key, front, name, end);
    }
  }

  /** The shape, written out: an optional plus sign, an optional vendor, a name, and perhaps a newline. */
  ghost predicate KeySpelled(key: string, sign: string, vendor: string, name: string, end: string) {
    && key == sign + vendor + name + end
    && (sign == "" || sign == "+")
    && (vendor == "" || (|vendor| >= 2 && vendor[|vendor| - 1] == '/' && forall c :: c in vendor ==> !IsSpace(c)))
    && name != "" && (forall c :: c in name ==> 'a' <= c <= 'z' || 'A' <= c <= 'Z' || '0' <= c <= '9' || c == '-')
    && (end == "" || end == "\n")
  }

  lemma ValidKeySpelled(key: string)
    ensures ValidKey(key) <==> exists sign, vendor, name, end :: KeySpelled(key, sign, vendor, name, end)
  {
    hide ValidKey, KeyShape, KeySpelled;
    ValidKeyExact(key);
    if ValidKey(key) {
      var front, name, end :| KeyShape(key, front, name, end);
      ShapeIsSpelled(key, front, name, end);
    }
    if exists sign, vendor, name, end :: KeySpelled(key, sign, vendor, name, end) {
      var sign, vendor, name, end :| KeySpelled(key, sign, vendor, name, end);
      SpelledIsShape(key, sign, vendor, name, end);
    }
  }

  lemma ShapeIsSpelled(key: string, front: string, name: string, end: string)
    requires KeyShape(key, front, name, end)
    ensures exists sign, vendor, name, end :: KeySpelled(key, sign, vendor, name, end)
  {
    var sign, vendor := if front == "+" then "+" else "", if front == "+" then "" else front;
    assert sign + vendor == front;
    assert KeySpelled(key, sign, vendor, name, end);
  }

  lemma SpelledIsShape(key: string, sign: string, vendor: string, name: string, end: string)
    requires KeySpelled(key, sign, vendor, name, end)
    ensures exists front, name, end :: KeyShape(key, front, name, end)
  {
    var front := sign + vendor;
    assert vendor != "" ==> front[|front| - 1] == '/';
    assert forall i :: 0 <= i < |front| ==> front[i] in sign || front[i] in vendor;
    assert forall i :: 0 <= i < |name| ==> name[i] in name;
    assert KeyShape(key, front, name, end);
  }

  /** White space, one by one. */
  lemma SpacesAre(c: char)
    ensures IsSpace(c) <==>
      c in "\t\n\U{0B}\U{0C}\r\U{1C}\U{1D}\U{1E}\U{1F} \U{85}\U{A0}\U{1680}"
      || c in "\U{2028}\U{2029}\U{202F}\U{205F}\U{3000}"
      || c in "\U{2000}\U{2001}\U{2002}\U{2003}\U{2004}\U{2005}\U{2006}\U{2007}\U{2008}\U{2009}\U{200A}"
  {
  }

  lemma ValidHasShape(key: string)
    requires ValidKey(key)
    ensures exists front, name, end :: KeyShape(key, front, name, end)
  {
    hide AllNames, NoSpaces, IsFront, NameLength;
    var b := ChopNewline(key);
    var n := NameLength(b);
    var front, name := b[..|b| - n], b[|b| - n..];
    var end := if key == b then "" else "\n";
    assert front + name == b && key == b + end;
    assert KeyShape(key, front, name, end);
  }

  lemma {:induction false} NameLengthIs(front: string, name: string)
    requires AllNames(name) && (front == "" || !IsNameChar(front[|front| - 1]))
    ensures NameLength(front + name) == |name|
    decreases |name|
  {
    if |name| > 0 {
      NameLengthIs(front, name[..|name| - 1]);
      assert (front + name)[..|front + name| - 1] == front + name[..|name| - 1];
    } else {
      assert front + name == front;
    }
  }

  lemma ChopNewlineOf(body: string, end: string)
    requires body != "" && body[|body| - 1] != '\n' && (end == "" || end == "\n")
    ensures ChopNewline(body + end) == body
  {
    if end == "" {
      assert body + end == body;
    } else {
      assert (body + end)[..|body|] == body;
    }
  }

  lemma ShapeIsValid(key: string, front: string, name: string, end: string)
    requires KeyShape(key, front, name, end)
    ensures ValidKey(key)
  {
    var body := front + name;
    assert body[|body| - 1] == name[|name| - 1];
    ChopNewlineOf(body, end);
    NameLengthIs(front, name);
    hide NameLength, ChopNewline, AllNames, IsFront;
    assert body[..|body| - |name|] == front;
  }

  // ---- parse_tags ----------------------------------------------------------

  type TagMap = map<string, Option<string>>

  datatype TagError = InvalidTagKey

  /** One `;`-separated piece added to the dict. */
  function AddTag(tags: TagMap, tag: string): Result<TagMap, TagError> {
    match Cut(tag, '=')
    case None => Ok(tags[tag := None])
    case Some((key, value)) => if ValidKey(key) then Ok(tags[key := Some(UnescapeValue(value))]) else Err(InvalidTagKey)
  }

  function AddTags(tags: TagMap, pieces: seq<string>): Result<TagMap, TagError>
    decreases |pieces|
  {
    if |pieces| == 0 then Ok(tags) else
      var more :- AddTag(tags, pieces[0]);
      AddTags(more, pieces[1..])
  }

  function ParseTags(s: string): Result<TagMap, TagError> { AddTags(map[], Split(s, ';')) }

  method ComputeTags(s: string) returns (r: Result<TagMap, TagError>)
    ensures r == ParseTags(s)
  {
    var tags: TagMap := map[];
    var pieces := Split(s, ';');
    for i := 0 to |pieces|
      invariant AddTags(tags, pieces[i..]) == ParseTags(s)
    {
      var tag := pieces[i];
      assert pieces[i..][1..] == pieces[i + 1..];
      var cut := Cut(tag, '=');
      if cut.None? {
        tags := tags[tag := None];
      } else {
        var (key, value) := cut.value;
        if !ValidKey(key) {
          return Err(InvalidTagKey);
        }
        tags := tags[key := Some(UnescapeValue(value))];
      }
    }
    r := Ok(tags);
  }

  /** Parsing fails exactly when a piece with an equals sign has an invalid key before the first one. */
  lemma {:induction false} AddTagsFails(tags: TagMap, pieces: seq<string>)
    ensures AddTags(tags, pieces).Err? <==> SomeBadPiece(pieces)
    decreases |pieces|
  {
    hide ValidKey, BadPiece;
    if |pieces| > 0 {
      var p, rest := pieces[0], pieces[1..];
      BadPieceIs(tags, p);
      assert forall i :: 0 < i < |pieces| ==> pieces[i] == rest[i - 1];
      if AddTag(tags, p).Ok? {
        AddTagsFails(AddTag(tags, p).value, rest);
        if SomeBadPiece(rest) {
          var i, key, value :| 0 <= i < |rest| && BadPiece(rest[i], key, value);
          assert BadPiece(pieces[i + 1], key, value);
        }
      }
    }
  }

  ghost predicate SomeBadPiece(pieces: seq<string>) {
    exists i, key, value :: 0 <= i < |pieces| && BadPiece(pieces[i], key, value)
  }

  ghost predicate BadPiece(piece: string, key: string, value: string) {
    piece == key + "=" + value && '=' !in key && !ValidKey(key)
  }

  lemma BadPieceIs(tags: TagMap, piece: string)
    ensures AddTag(tags, piece).Err? <==> exists key, value :: BadPiece(piece, key, value)
  {
    hide ValidKey;
    if Cut(piece, '=').Some? {
      var (key, value) := Cut(piece, '=').value;
      if !ValidKey(key) {
        assert BadPiece(piece, key, value);
      }
    }
    if exists key, value :: BadPiece(piece, key, value) {
      var key, value :| BadPiece(piece, key, value);
      assert piece == key + ['='] + value;
      CutFirst(key, value, '=');
    }
  }

  lemma ParseTagsFails(s: string)
    ensures ParseTags(s).Err? <==> SomeBadPiece(Split(s, ';'))
  {
    AddTagsFails(map[], Split(s, ';'));
  }

  // ---- The printer of the grammar --------------------------------------------

  type Tag = (string, Option<string>)

  function RenderTag(tag: Tag): string {
    if tag.1.None? then tag.0 else tag.0 + "=" + EscapeValue(tag.1.value)
  }

  function RenderEach(tags: seq<Tag>): (r: seq<string>)
    ensures |r| == |tags| && forall i :: 0 <= i < |r| ==> r[i] == RenderTag(tags[i])
  {
    if |tags| == 0 then [] else [RenderTag(tags[0])] + RenderEach(tags[1..])
  }

  function RenderTags(tags: seq<Tag>): string { Join(RenderEach(tags), ';') }

  /** The dict a list of tags stands for: of two tags with one key, the later counts. */
  function MapOnto(tags: TagMap, more: seq<Tag>): TagMap
    decreases |more|
  {
    if |more| == 0 then tags else MapOnto(tags[more[0].0 := more[0].1], more[1..])
  }

  function ToMap(tags: seq<Tag>): TagMap { MapOnto(map[], tags) }

  predicate PrintableTag(tag: Tag) {
    ';' !in tag.0 && '=' !in tag.0 && (tag.1.Some? ==> ValidKey(tag.0))
  }

  lemma TagRoundTrip(tags: TagMap, tag: Tag)
    requires PrintableTag(tag)
    ensures ';' !in RenderTag(tag)
    ensures AddTag(tags, RenderTag(tag)) == Ok(tags[tag.0 := tag.1])
  {
    if tag.1.Some? {
      EscapedIsSafe(tag.1.value);
      EscapeRoundTrip(tag.1.value);
      assert RenderTag(tag) == tag.0 + ['='] + EscapeValue(tag.1.value);
      CutFirst(tag.0, EscapeValue(tag.1.value), '=');
    }
  }

  lemma {:induction false} AddTagsRoundTrip(tags: TagMap, more: seq<Tag>)
    requires forall i :: 0 <= i < |more| ==> PrintableTag(more[i])
    ensures AddTags(tags, RenderEach(more)) == Ok(MapOnto(tags, more))
    decreases |more|
  {
    if |more| > 0 {
      TagRoundTrip(tags, more[0]);
      AddTagsRoundTrip(tags[more[0].0 := more[0].1], more[1..]);
      assert RenderEach(more)[1..] == RenderEach(more[1..]);
    }
  }

  /** Parsing inverts printing for every non-empty list of printable tags; a tag without a value
      and a tag with an empty one stay apart. */
  lemma TagsRoundTrip(tags: seq<Tag>)
    requires |tags| > 0 && forall i :: 0 <= i < |tags| ==> PrintableTag(tags[i])
    ensures ParseTags(RenderTags(tags)) == Ok(ToMap(tags))
  {
    forall i | 0 <= i < |tags| ensures ';' !in RenderEach(tags)[i] {
      TagRoundTrip(map[], tags[i]);
    }
    SplitJoin(RenderEach(tags), ';');
    AddTagsRoundTrip(map[], tags);
  }

  /** No tags at all cannot be printed: the parser reads one tag with an empty key. */
  lemma NoTagsIsNotNothing()
    ensures RenderTags([]) == "" && ParseTags("") == Ok(map["" := None])
  {
    var pieces := Split("", ';');
    assert pieces == [""];
    assert AddTag(map[], "") == Ok(map["" := None]);
    assert |pieces[1..]| == 0;
  }
}
