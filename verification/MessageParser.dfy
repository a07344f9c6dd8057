/** `parse_message`: section 2.3.1 of RFC 1459 with IRCv3 message tags. */
module MessageParser {
  import opened Wrappers
  import opened Text
  import opened Tags

  datatype Message = Message(tags: TagMap, prefix: Option<string>, command: string, params: seq<string>)

  datatype ParseError =
    | ForbiddenCodepoint  // ValueError
    | NoSpaceAfterTags    // ValueError from unpacking
    | BadTagKey           // AssertionError
    | NoCommand           // IndexError

  predicate IsForbidden(c: char) { c == '\0' || c == '\r' || c == '\n' }

  predicate HasForbidden(s: string) { exists i :: 0 <= i < |s| && IsForbidden(s[i]) }

  /** `filter(bool, parts)` */
  function NonEmpty(parts: seq<string>): (r: seq<string>)
    ensures forall i :: 0 <= i < |r| ==> r[i] != "" && r[i] in parts
  {
    if |parts| == 0 then []
    else if parts[0] == "" then NonEmpty(parts[1..])
    else [parts[0]] + NonEmpty(parts[1..])
  }

  /** `s.split(" :", 1)` */
  function CutTrailing(s: string): (r: Option<(string, string)>)
    ensures r.Some? ==> s == r.value.0 + " :" + r.value.1
  {
    if |s| < 2 then None
    else if s[0] == ' ' && s[1] == ':' then assert s == "" + " :" + s[2..]; Some(("", s[2..]))
    else
      var r := CutTrailing(s[1..]);
      if r.None? then None
      else
        assert s == [s[0]] + s[1..];
        assert [s[0]] + (r.value.0 + " :" + r.value.1) == ([s[0]] + r.value.0) + " :" + r.value.1;
        Some(([s[0]] + r.value.0, r.value.1))
  }

  function Words(s: string): seq<string> { NonEmpty(Split(s, ' ')) }

  function Tokens(s: string): seq<string> {
    match CutTrailing(s)
    case None => Words(s)
    case Some((other, trailing)) => Words(other) + [trailing]
  }

  /** The tokens after the tags, taken from the front. */
  function FromTokens(tags: TagMap, tokens: seq<string>): Result<Message, ParseError> {
    if |tokens| == 0 then Err(NoCommand)
    else if |tokens[0]| > 0 && tokens[0][0] == ':' then
      if |tokens| == 1 then Err(NoCommand)
      else Ok(Message(tags, Some(tokens[0][1..]), tokens[1], tokens[2..]))
    else Ok(Message(tags, None, tokens[0], tokens[1..]))
  }

  function ParseMessage(s: string): Result<Message, ParseError> {
    if HasForbidden(s) then Err(ForbiddenCodepoint)
    else if |s| > 0 && s[0] == '@' then
      match Cut(s, ' ')
      case None => Err(NoSpaceAfterTags)
      case Some((tagsText, rest)) =>
        match ParseTags(tagsText[1..])
        case Err(_) => Err(BadTagKey)
        case Ok(tags) => FromTokens(tags, Tokens(rest))
    else FromTokens(map[], Tokens(s))
  }

  /** The source's statements, in order. */
  method ComputeMessage(text: string) returns (r: Result<Message, ParseError>)
    ensures r == ParseMessage(text)
  {
    hide ValidKey, UnescapeValue, ParseTags;
    if HasForbidden(text) {
      return Err(ForbiddenCodepoint);
    }
    var s := text;
    var tags: TagMap := map[];
    if |s| > 0 && s[0] == '@' {
      var cut := Cut(s, ' ');
      if cut.None? {
        return Err(NoSpaceAfterTags);
      }
      var tagsText := cut.value.0;
      s := cut.value.1;
      var parsed := ComputeTags(tagsText[1..]);
      if parsed.Err? {
        return Err(BadTagKey);
      }
      tags := parsed.value;
    }
    var tokens: seq<string>;
    var cut := CutTrailing(s);
    if cut.Some? {
      tokens := Words(cut.value.0) + [cut.value.1];
    } else {
      tokens := Words(s);
    }
    if |tokens| == 0 {
      return Err(NoCommand);
    }
    var prefix: Option<string> := None;
    if |tokens[0]| > 0 && tokens[0][0] == ':' {
      prefix := Some(tokens[0][1..]);
      tokens := tokens[1..];
    }
    if |tokens| == 0 {
      return Err(NoCommand);
    }
    var command := tokens[0];
    tokens := tokens[1..];
    r := Ok(Message(tags, prefix, command, tokens));
  }

  /** No word but a prefix. */
  predicate LacksCommand(body: string) {
    var tokens := Tokens(body);
    |tokens| == 0 || (|tokens| == 1 && tokens[0] != "" && tokens[0][0] == ':')
  }

  /** What the parser refuses, and why: lines without tags, and lines with a forbidden character. */
  lemma ParseErrors(s: string)
    ensures
      var r := ParseMessage(s);
      if '\0' in s || '\r' in s || '\n' in s then r == Err(ForbiddenCodepoint)
      else if s == "" || s[0] != '@' then
        (r.Err? <==> LacksCommand(s)) && (r.Err? ==> r == Err(NoCommand)) && (r.Ok? ==> r.value.tags == map[])
      else ' ' !in s ==> r == Err(NoSpaceAfterTags)
  {
    hide Tokens, ParseTags;
    CleanIff(s);
  }

  /** And lines with tags. */
  lemma TaggedErrors(s: string, tags: string, body: string)
    requires s == "@" + tags + " " + body && ' ' !in tags && '\0' !in s && '\r' !in s && '\n' !in s
    ensures
      var r := ParseMessage(s);
      match ParseTags(tags)
      case Err(_) => r == Err(BadTagKey)
      case Ok(m) => if LacksCommand(body) then r == Err(NoCommand) else r.Ok? && r.value.tags == m
  {
    hide Tokens, ParseTags;
    CleanIff(s);
    CutFirst("@" + tags, body, ' ');
    assert ("@" + tags)[1..] == tags && s == ("@" + tags) + [' '] + body;
  }

  // ---- The printer of the grammar --------------------------------------------

  /** A message before it is sent: its tags are a list, in the order they are written. */
  datatype Wire = Wire(tags: seq<Tag>, prefix: Option<string>, command: string, params: seq<string>) {
    function ToMessage(): Message { Message(ToMap(tags), prefix, command, params) }
  }

  /** A parameter that can stand in the middle: a word that is not taken for a trailing one. */
  predicate IsMiddle(p: string) { p != "" && ' ' !in p && p[0] != ':' }

  /** The last parameter is written as trailing when it must be, or when asked. */
  predicate LastIsTrailing(params: seq<string>, trailing: bool) {
    |params| > 0 && (trailing || !IsMiddle(params[|params| - 1]))
  }

  function Middles(params: seq<string>, trailing: bool): seq<string> {
    if LastIsTrailing(params, trailing) then params[..|params| - 1] else params
  }

  function TrailingText(params: seq<string>, trailing: bool): string {
    if LastIsTrailing(params, trailing) then " :" + params[|params| - 1] else ""
  }

  function PrefixTokens(prefix: Option<string>): seq<string> {
    if prefix.Some? then [":" + prefix.value] else []
  }

  /** `[":" prefix SPACE] command *( SPACE middle ) [ SPACE ":" trailing ]` */
  function RenderBody(w: Wire, trailing: bool): string {
    Join(PrefixTokens(w.prefix) + [w.command] + Middles(w.params, trailing), ' ') + TrailingText(w.params, trailing)
  }

  function RenderMessage(w: Wire, trailing: bool): string {
    (if |w.tags| == 0 then "" else "@" + RenderTags(w.tags) + " ") + RenderBody(w, trailing)
  }

  // ---- Well-formed messages ---------------------------------------------------

  predicate CleanText(s: string) { !HasForbidden(s) }

  /** Tags that fit between the at sign and the space. Their values may hold anything but NUL. */
  predicate WireTag(tag: Tag) {
    PrintableTag(tag) && ' ' !in tag.0 && CleanText(tag.0) && (tag.1.Some? ==> '\0' !in tag.1.value)
  }

  predicate AllWireTags(tags: seq<Tag>) { forall i :: 0 <= i < |tags| ==> WireTag(tags[i]) }

  predicate AllMiddles(ps: seq<string>) { forall i :: 0 <= i < |ps| ==> IsMiddle(ps[i]) }

  /** Everything but the command fits its place in the grammar. */
  predicate WellFormed(w: Wire) {
    && AllWireTags(w.tags)
    && (w.prefix.Some? ==> ' ' !in w.prefix.value && CleanText(w.prefix.value))
    && CleanText(w.command)
    && (forall i :: 0 <= i < |w.params| ==> CleanText(w.params[i]))
    && (|w.params| > 0 ==> AllMiddles(w.params[..|w.params| - 1]))
  }

  /** The command is a word that is not taken for a prefix or, at the start of the line, for tags. */
  predicate CommandFits(w: Wire) {
    IsMiddle(w.command) && (w.command[0] == '@' ==> |w.tags| > 0 || w.prefix.Some?)
  }

  // ---- Words and trailing text ------------------------------------------------

  lemma {:induction false} NonEmptyKeepsAll(parts: seq<string>)
    requires forall i :: 0 <= i < |parts| ==> parts[i] != ""
    ensures NonEmpty(parts) == parts
  {
    if |parts| > 0 {
      NonEmptyKeepsAll(parts[1..]);
      assert [parts[0]] + parts[1..] == parts;
    }
  }

  lemma WordsOfJoin(tokens: seq<string>)
    requires |tokens| > 0 && forall i :: 0 <= i < |tokens| ==> tokens[i] != "" && ' ' !in tokens[i]
    ensures Words(Join(tokens, ' ')) == tokens
  {
    SplitJoin(tokens, ' ');
    NonEmptyKeepsAll(tokens);
  }

  /** Whether the two-character separator stands at a place. */
  predicate SeparatorAt(s: string, i: nat) { i + 1 < |s| && s[i] == ' ' && s[i + 1] == ':' }

  lemma {:induction false} CutTrailingIs(s: string, other: string, trailing: string)
    requires s == other + " :" + trailing && forall i: nat :: i < |other| ==> !SeparatorAt(s, i)
    ensures CutTrailing(s) == Some((other, trailing))
    decreases |other|
  {
    if other == "" {
      assert s[2..] == trailing;
    } else {
      assert !SeparatorAt(s, 0);
      var t := s[1..];
      assert t == other[1..] + " :" + trailing;
      forall i: nat | i < |other| - 1 ensures !SeparatorAt(t, i) {
        assert !SeparatorAt(s, i + 1);
      }
      CutTrailingIs(t, other[1..], trailing);
      assert [other[0]] + other[1..] == other;
    }
  }

  lemma {:induction false} CutTrailingNone(s: string)
    ensures CutTrailing(s).None? <==> forall i: nat :: i < |s| ==> !SeparatorAt(s, i)
    ensures CutTrailing(s).Some? ==> forall i: nat :: i < |CutTrailing(s).value.0| ==> !SeparatorAt(s, i)
  {
    if |s| >= 2 {
      if SeparatorAt(s, 0) {
      } else {
        var t := s[1..];
        CutTrailingNone(t);
        assert forall i: nat :: i + 1 < |s| ==> SeparatorAt(t, i) == SeparatorAt(s, i + 1);
        forall i: nat | 0 < i < |s| ensures SeparatorAt(s, i) == SeparatorAt(t, i - 1) {
        }
        if CutTrailing(t).None? {
          assert forall i: nat :: i < |s| ==> !SeparatorAt(s, i);
        } else {
          var j: nat :| j < |t| && SeparatorAt(t, j);
          assert SeparatorAt(s, j + 1);
        }
      }
    }
  }

  /** No separator inside joined words of which only the first may start with a colon. */
  lemma {:induction false} JoinHasNoSeparator(tokens: seq<string>, i: nat)
    requires |tokens| > 0 && forall k :: 0 <= k < |tokens| ==> ' ' !in tokens[k] && tokens[k] != ""
    requires forall k :: 1 <= k < |tokens| ==> tokens[k][0] != ':'
    ensures !SeparatorAt(Join(tokens, ' '), i)
  {
    if |tokens| > 1 {
      var rest := Join(tokens[1..], ' ');
      var s := tokens[0] + " " + rest;
      assert rest[0] == tokens[1][0] by { JoinStarts(tokens[1..]); }
      if i > |tokens[0]| {
        JoinHasNoSeparator(tokens[1..], i - |tokens[0]| - 1);
        if i + 1 < |s| {
          assert s[i] == rest[i - |tokens[0]| - 1] && s[i + 1] == rest[i - |tokens[0]|];
        }
      } else if i < |tokens[0]| {
        assert s[i] == tokens[0][i];
      } else {
        assert i + 1 < |s| ==> s[i + 1] == rest[0];
      }
    }
  }

  lemma JoinStarts(tokens: seq<string>)
    requires |tokens| > 0 && tokens[0] != ""
    ensures Join(tokens, ' ') != "" && Join(tokens, ' ')[0] == tokens[0][0]
  {
  }

  /** Joined words, with or without trailing text, are read back as they are. */
  lemma TokensRoundTrip(tokens: seq<string>, trailing: Option<string>)
    requires |tokens| > 0 && forall k :: 0 <= k < |tokens| ==> ' ' !in tokens[k] && tokens[k] != ""
    requires forall k :: 1 <= k < |tokens| ==> tokens[k][0] != ':'
    ensures Tokens(Join(tokens, ' ') + (if trailing.Some? then " :" + trailing.value else ""))
            == tokens + (if trailing.Some? then [trailing.value] else [])
  {
    var front := Join(tokens, ' ');
    WordsOfJoin(tokens);
    forall i: nat ensures !SeparatorAt(front, i) {
      JoinHasNoSeparator(tokens, i);
    }
    hide Words, Join, CutTrailing;
    if trailing.Some? {
      SeparatorAfter(front, trailing.value);
    } else {
      assert front + "" == front;
      CutTrailingNone(front);
    }
  }

  lemma SeparatorAfter(front: string, trailing: string)
    requires forall i: nat :: !SeparatorAt(front, i)
    ensures CutTrailing(front + " :" + trailing) == Some((front, trailing))
    ensures front + " :" + trailing == front + (" :" + trailing)
  {
    var s := front + " :" + trailing;
    forall i: nat | i < |front| ensures !SeparatorAt(s, i) {
      assert !SeparatorAt(front, i);
    }
    CutTrailingIs(s, front, trailing);
  }

  // ---- Printing then parsing ---------------------------------------------------

  /** The tokens of a body are the prefix, the command and the parameters. */
  lemma BodyTokens(w: Wire, trailing: bool)
    requires WellFormed(w) && IsMiddle(w.command)
    ensures Tokens(RenderBody(w, trailing)) == PrefixTokens(w.prefix) + [w.command] + w.params
  {
    var tokens := PrefixTokens(w.prefix) + [w.command] + Middles(w.params, trailing);
    var last := if LastIsTrailing(w.params, trailing) then Some(w.params[|w.params| - 1]) else None;
    TokensAreFit(w, trailing);
    TokensRoundTrip(tokens, last);
    hide Tokens, Join;
    assert last.Some? ==> Middles(w.params, trailing) + [last.value] == w.params;
  }

  lemma TokensAreFit(w: Wire, trailing: bool)
    requires WellFormed(w) && IsMiddle(w.command)
    ensures var tokens := PrefixTokens(w.prefix) + [w.command] + Middles(w.params, trailing);
            && (forall k :: 0 <= k < |tokens| ==> ' ' !in tokens[k] && tokens[k] != "")
            && (forall k :: 1 <= k < |tokens| ==> tokens[k][0] != ':')
  {
    var middles := Middles(w.params, trailing);
    forall i | 0 <= i < |middles| ensures IsMiddle(middles[i]) {
      if i < |w.params| - 1 {
        assert w.params[..|w.params| - 1][i] == middles[i];
      }
    }
  }

  lemma BodyRoundTrip(w: Wire, trailing: bool)
    requires WellFormed(w) && IsMiddle(w.command)
    ensures FromTokens(ToMap(w.tags), Tokens(RenderBody(w, trailing))) == Ok(w.ToMessage())
  {
    BodyTokens(w, trailing);
    hide Tokens, RenderBody;
    var all := Tokens(RenderBody(w, trailing));
    if w.prefix.Some? {
      assert all[0][1..] == w.prefix.value && all[2..] == w.params;
    } else {
      assert all[1..] == w.params;
    }
  }

  lemma CleanIff(s: string)
    ensures CleanText(s) <==> '\0' !in s && '\r' !in s && '\n' !in s
  {
    if HasForbidden(s) {
      var i :| 0 <= i < |s| && IsForbidden(s[i]);
      assert s[i] in s;
    }
    if exists c :: c in s && IsForbidden(c) {
      var c :| c in s && IsForbidden(c);
      var i :| 0 <= i < |s| && s[i] == c;
    }
    assert IsForbidden('\0') && IsForbidden('\r') && IsForbidden('\n');
  }

  lemma CleanConcat(a: string, b: string)
    ensures CleanText(a + b) <==> CleanText(a) && CleanText(b)
  {
    CleanIff(a);
    CleanIff(b);
    CleanIff(a + b);
  }

  /** A character that is in no part and is not the separator is not in the joined string. */
  lemma {:induction false} JoinLacks(parts: seq<string>, sep: char, c: char)
    requires c != sep && forall i :: 0 <= i < |parts| ==> c !in parts[i]
    ensures c !in Join(parts, sep)
  {
    if |parts| > 1 {
      JoinLacks(parts[1..], sep, c);
    }
  }

  lemma JoinClean(parts: seq<string>, sep: char)
    requires !IsForbidden(sep) && forall i :: 0 <= i < |parts| ==> CleanText(parts[i])
    ensures CleanText(Join(parts, sep))
  {
    forall i | 0 <= i < |parts| ensures '\0' !in parts[i] && '\r' !in parts[i] && '\n' !in parts[i] {
      CleanIff(parts[i]);
    }
    JoinLacks(parts, sep, '\0');
    JoinLacks(parts, sep, '\r');
    JoinLacks(parts, sep, '\n');
    CleanIff(Join(parts, sep));
  }

  lemma TagTextFits(tag: Tag)
    requires WireTag(tag)
    ensures ' ' !in RenderTag(tag) && CleanText(RenderTag(tag))
  {
    CleanIff(tag.0);
    CleanIff(RenderTag(tag));
    if tag.1.Some? {
      EscapedIsSafe(tag.1.value);
    }
  }

  lemma TagsTextFits(tags: seq<Tag>)
    requires AllWireTags(tags)
    ensures ' ' !in RenderTags(tags) && CleanText(RenderTags(tags))
  {
    var parts := RenderEach(tags);
    forall i | 0 <= i < |parts| ensures ' ' !in parts[i] && CleanText(parts[i]) {
      TagTextFits(tags[i]);
    }
    JoinLacks(parts, ';', ' ');
    JoinClean(parts, ';');
  }

  lemma BodyIsClean(w: Wire, trailing: bool)
    requires WellFormed(w)
    ensures CleanText(RenderBody(w, trailing))
  {
    var tokens := PrefixTokens(w.prefix) + [w.command] + Middles(w.params, trailing);
    if w.prefix.Some? {
      CleanIff(w.prefix.value);
      CleanIff(":" + w.prefix.value);
    }
    JoinClean(tokens, ' ');
    var t := TrailingText(w.params, trailing);
    if LastIsTrailing(w.params, trailing) {
      CleanIff(" :");
      CleanConcat(" :", w.params[|w.params| - 1]);
    } else {
      CleanIff("");
    }
    CleanConcat(Join(tokens, ' '), t);
  }

  /** The tags are read off the front, and the body is left. */
  lemma RenderedTagsAreRead(w: Wire, trailing: bool)
    requires WellFormed(w)
    requires |w.tags| == 0 ==> RenderBody(w, trailing) == "" || RenderBody(w, trailing)[0] != '@'
    ensures ParseMessage(RenderMessage(w, trailing)) == FromTokens(ToMap(w.tags), Tokens(RenderBody(w, trailing)))
  {
    hide Tokens, FromTokens, RenderBody, ParseTags, RenderTags, WellFormed;
    var body, s := RenderBody(w, trailing), RenderMessage(w, trailing);
    BodyIsClean(w, trailing);
    if |w.tags| == 0 {
      assert s == body;
    } else {
      var t := RenderTags(w.tags);
      assert AllWireTags(w.tags) by { TagsOfWellFormed(w); }
      TagsTextFits(w.tags);
      CleanIff("@");
      CleanIff(" ");
      CleanConcat("@", t);
      CleanConcat("@" + t, " ");
      CleanConcat("@" + t + " ", body);
      CutFirst("@" + t, body, ' ');
      assert ("@" + t)[1..] == t;
      TagsRoundTrip(w.tags);
    }
  }

  lemma TagsOfWellFormed(w: Wire)
    requires WellFormed(w)
    ensures AllWireTags(w.tags)
  {
  }

  // ---- No other command survives -----------------------------------------------

  lemma FromTokensInverse(tags: TagMap, tokens: seq<string>, m: Message)
    requires FromTokens(tags, tokens) == Ok(m)
    ensures tokens == PrefixTokens(m.prefix) + [m.command] + m.params && m.tags == tags
    ensures m.prefix.None? ==> m.command == "" || m.command[0] != ':'
    ensures m.prefix.Some? ==> |tokens| >= 2 && tokens[0] == ":" + m.prefix.value
  {
    if m.prefix.Some? {
      assert tokens[0] == ":" + m.prefix.value;
      assert tokens == [tokens[0]] + [tokens[1]] + tokens[2..];
    } else {
      assert tokens == [tokens[0]] + tokens[1..];
    }
  }

  predicate IsWord(x: string) { x != "" && ' ' !in x }

  lemma WordsAreWords(s: string)
    ensures forall i :: 0 <= i < |Words(s)| ==> IsWord(Words(s)[i])
    ensures forall i, c :: 0 <= i < |Words(s)| && c in Words(s)[i] ==> c in s
  {
    SplitParts(s, ' ');
    forall i | 0 <= i < |Words(s)| ensures IsWord(Words(s)[i]) && forall c :: c in Words(s)[i] ==> c in s {
      var x := Words(s)[i];
      assert x in Split(s, ' ');
      var j :| 0 <= j < |Split(s, ' ')| && Split(s, ' ')[j] == x;
    }
  }

  /** A token that is not a word is the text after the first separator. */
  lemma TokenIsWordOrTrailing(s: string, i: nat)
    requires i < |Tokens(s)|
    ensures || IsWord(Tokens(s)[i])
            || (CutTrailing(s).Some? && i == |Tokens(s)| - 1 && Tokens(s)[i] == CutTrailing(s).value.1)
  {
    match CutTrailing(s)
    case None => WordsAreWords(s);
    case Some((other, _)) => WordsAreWords(other);
  }

  lemma {:induction false} JoinFront(tokens: seq<string>)
    requires |tokens| >= 2
    ensures Join(tokens, ' ') == tokens[0] + " " + Join(tokens[1..], ' ')
  {
  }

  function PrefixText(w: Wire): string { if w.prefix.Some? then ":" + w.prefix.value + " " else "" }

  function ParamsText(w: Wire, trailing: bool): string {
    var middles := Middles(w.params, trailing);
    (if |middles| == 0 then "" else " " + Join(middles, ' ')) + TrailingText(w.params, trailing)
  }

  lemma BodyText(w: Wire, trailing: bool)
    ensures RenderBody(w, trailing) == PrefixText(w) + w.command + ParamsText(w, trailing)
    ensures |w.params| == 0 ==> ParamsText(w, trailing) == ""
    ensures ParamsText(w, trailing) != "" ==> ParamsText(w, trailing)[0] == ' '
  {
    var middles, t := Middles(w.params, trailing), TrailingText(w.params, trailing);
    var cs := [w.command] + middles;
    assert cs[1..] == middles;
    assert Join(cs, ' ') + t == w.command + ParamsText(w, trailing);
    if w.prefix.Some? {
      var tokens := [":" + w.prefix.value] + cs;
      assert PrefixTokens(w.prefix) + [w.command] + middles == tokens && tokens[1..] == cs;
      JoinFront(tokens);
    } else {
      assert PrefixTokens(w.prefix) + [w.command] + middles == cs;
    }
  }

  /** What follows a separator cannot follow a space or nothing. */
  lemma TrailingIsNotCommand(front: string, command: string, other: string, trailing: string)
    requires front + command == other + " :" + trailing && (front != "" ==> front[|front| - 1] == ' ')
    ensures trailing != command
  {
    var s := front + command;
    assert s[|other| + 1] == ':';
    assert front != "" ==> s[|front| - 1] == ' ';
  }

  lemma CommandIsWord(w: Wire, trailing: bool)
    requires Tokens(RenderBody(w, trailing)) == PrefixTokens(w.prefix) + [w.command] + w.params
    ensures IsWord(w.command)
  {
    var body := RenderBody(w, trailing);
    TokenIsWordOrTrailing(body, |PrefixTokens(w.prefix)|);
    BodyText(w, trailing);
    hide Tokens, RenderBody;
    if CutTrailing(body).Some? && |w.params| == 0 {
      assert body == PrefixText(w) + w.command;
      TrailingIsNotCommand(PrefixText(w), w.command, CutTrailing(body).value.0, CutTrailing(body).value.1);
    }
  }

  /** A command that starts with a colon after a prefix is taken for the trailing parameter. */
  lemma ColonCommandTokens(w: Wire, trailing: bool)
    requires w.prefix.Some? && ' ' !in w.prefix.value && w.command != "" && w.command[0] == ':'
    ensures Tokens(RenderBody(w, trailing)) == [":" + w.prefix.value, w.command[1..] + ParamsText(w, trailing)]
  {
    var body := RenderBody(w, trailing);
    var p, rest := ":" + w.prefix.value, w.command[1..] + ParamsText(w, trailing);
    BodyText(w, trailing);
    hide RenderBody;
    assert w.command == ":" + w.command[1..];
    assert body == p + " :" + rest;
    CutTrailingIs(body, p, rest);
    WordsOfJoin([p]);
  }

  lemma CommandHasNoColon(w: Wire, trailing: bool)
    requires w.prefix.Some? && ' ' !in w.prefix.value && IsWord(w.command)
    requires Tokens(RenderBody(w, trailing)) == PrefixTokens(w.prefix) + [w.command] + w.params
    ensures w.command[0] != ':'
  {
    BodyText(w, trailing);
    hide Tokens, RenderBody;
    var tokens := Tokens(RenderBody(w, trailing));
    assert tokens[1] == w.command && |tokens| == 2 + |w.params|;
    assert |w.command[1..] + ParamsText(w, trailing)| == |w.command| - 1 + |ParamsText(w, trailing)|;
    if w.command[0] == ':' {
      ColonCommandTokens(w, trailing);
    }
  }

  lemma {:induction false} AddTagsGrows(tags: TagMap, pieces: seq<string>)
    requires AddTags(tags, pieces).Ok? && (tags != map[] || |pieces| > 0)
    ensures AddTags(tags, pieces).value != map[]
    decreases |pieces|
  {
    if |pieces| > 0 {
      var more := AddTag(tags, pieces[0]).value;
      assert more != map[] by {
        match Cut(pieces[0], '=')
        case None => assert pieces[0] in more;
        case Some((key, _)) => assert key in more;
      }
      AddTagsGrows(more, pieces[1..]);
    }
  }

  /** A body that starts with an at sign is not read as a message without tags. */
  lemma AtSignMakesTags(s: string)
    requires s != "" && s[0] == '@' && ParseMessage(s).Ok?
    ensures ParseMessage(s).value.tags != map[]
  {
    var tagsText := Cut(s, ' ').value.0;
    AddTagsGrows(map[], Split(tagsText[1..], ';'));
  }

  /** Printing then parsing: a message whose other parts fit the grammar is read back exactly when
      its command fits too, whichever way its last parameter is written. */
  lemma PrintParse(w: Wire, trailing: bool)
    requires WellFormed(w)
    ensures ParseMessage(RenderMessage(w, trailing)) == Ok(w.ToMessage()) <==> CommandFits(w)
  {
    hide Tokens, ParseMessage, RenderBody;
    BodyText(w, trailing);
    if CommandFits(w) {
      RenderedTagsAreRead(w, trailing);
      BodyRoundTrip(w, trailing);
    } else if ParseMessage(RenderMessage(w, trailing)) == Ok(w.ToMessage()) {
      PrintParseOnlyIf(w, trailing);
    }
  }

  lemma PrintParseOnlyIf(w: Wire, trailing: bool)
    requires WellFormed(w) && ParseMessage(RenderMessage(w, trailing)) == Ok(w.ToMessage())
    ensures CommandFits(w)
  {
    hide Tokens, ParseMessage, RenderBody, FromTokens;
    var body := RenderBody(w, trailing);
    BodyText(w, trailing);
    if |w.tags| == 0 && body != "" && body[0] == '@' {
      assert RenderMessage(w, trailing) == body;
      AtSignMakesTags(body);
      assert false;
    }
    RenderedTagsAreRead(w, trailing);
    FromTokensInverse(ToMap(w.tags), Tokens(body), w.ToMessage());
    CommandIsWord(w, trailing);
    if w.prefix.Some? {
      CommandHasNoColon(w, trailing);
    }
  }

  // ---- Parsing, then printing and parsing again ---------------------------------

  /** A listing of a dict's items. */
  ghost predicate Lists(tags: seq<Tag>, m: TagMap) {
    ToMap(tags) == m && forall i :: 0 <= i < |tags| ==> tags[i].0 in m && m[tags[i].0] == tags[i].1
  }

  lemma {:induction false} MapOntoSnoc(acc: TagMap, tags: seq<Tag>, tag: Tag)
    ensures MapOnto(acc, tags + [tag]) == MapOnto(acc, tags)[tag.0 := tag.1]
    decreases |tags|
  {
    if |tags| == 0 {
      assert tags + [tag] == [tag] && |[tag][1..]| == 0;
    } else {
      MapOntoSnoc(acc[tags[0].0 := tags[0].1], tags[1..], tag);
      assert (tags + [tag])[1..] == tags[1..] + [tag];
    }
  }

  /** Every dict has a listing. */
  lemma {:induction false} ListingExists(m: TagMap) returns (tags: seq<Tag>)
    ensures Lists(tags, m)
    decreases |m|
  {
    if m == map[] {
      tags := [];
    } else {
      var k :| k in m;
      var rest := m - {k};
      tags := ListingExists(rest);
      MapOntoSnoc(map[], tags, (k, m[k]));
      tags := tags + [(k, m[k])];
      assert rest[k := m[k]] == m;
    }
  }

  lemma {:induction false} AddTagsAreWire(tags: TagMap, pieces: seq<string>)
    requires AddTags(tags, pieces).Ok?
    requires forall k :: k in tags ==> WireTag((k, tags[k]))
    requires forall i :: 0 <= i < |pieces| ==> ';' !in pieces[i] && ' ' !in pieces[i] && CleanText(pieces[i])
    ensures forall k :: k in AddTags(tags, pieces).value ==> WireTag((k, AddTags(tags, pieces).value[k]))
    decreases |pieces|
  {
    hide ValidKey, UnescapeValue, CleanText;
    if |pieces| > 0 {
      var tag := pieces[0];
      CleanIff(tag);
      match Cut(tag, '=') {
        case None =>
          assert WireTag((tag, None));
          AddTagsAreWire(tags[tag := None], pieces[1..]);
        case Some((key, value)) =>
          UnescapeAddsNoNul(value);
          CleanIff(key);
          assert WireTag((key, Some(UnescapeValue(value))));
          AddTagsAreWire(tags[key := Some(UnescapeValue(value))], pieces[1..]);
      }
    }
  }

  /** The tags of an accepted line can all be printed. */
  lemma ParsedTagsAreWire(text: string)
    requires ParseTags(text).Ok? && ' ' !in text && CleanText(text)
    ensures forall k :: k in ParseTags(text).value ==> WireTag((k, ParseTags(text).value[k]))
  {
    var pieces := Split(text, ';');
    SplitParts(text, ';');
    CleanIff(text);
    forall i | 0 <= i < |pieces| ensures ';' !in pieces[i] && ' ' !in pieces[i] && CleanText(pieces[i]) {
      CleanIff(pieces[i]);
    }
    AddTagsAreWire(map[], pieces);
  }

  lemma {:induction false} SplitPiecesHaveNoColon(s: string)
    requires forall i: nat :: !SeparatorAt(s, i)
    ensures forall j :: 1 <= j < |Split(s, ' ')| && Split(s, ' ')[j] != "" ==> Split(s, ' ')[j][0] != ':'
    ensures s != "" && Split(s, ' ')[0] != "" ==> Split(s, ' ')[0][0] == s[0]
  {
    if s != "" {
      forall i: nat ensures !SeparatorAt(s[1..], i) {
        assert !SeparatorAt(s, i + 1);
      }
      SplitPiecesHaveNoColon(s[1..]);
      assert !SeparatorAt(s, 0);
    }
  }

  lemma NonEmptyTail(parts: seq<string>)
    requires |parts| > 0
    ensures forall k :: 1 <= k < |NonEmpty(parts)| ==> NonEmpty(parts)[k] in parts[1..]
  {
    var rest := NonEmpty(parts[1..]);
    forall k | 1 <= k < |NonEmpty(parts)| ensures NonEmpty(parts)[k] in parts[1..] {
      assert NonEmpty(parts)[k] == if parts[0] == "" then rest[k] else rest[k - 1];
    }
  }

  lemma LaterWordsHaveNoColon(s: string)
    requires forall i: nat :: i < |s| ==> !SeparatorAt(s, i)
    ensures forall k :: 1 <= k < |Words(s)| ==> IsMiddle(Words(s)[k])
  {
    var parts := Split(s, ' ');
    WordsAreWords(s);
    SplitPiecesHaveNoColon(s);
    NonEmptyTail(parts);
    forall k | 1 <= k < |Words(s)| ensures IsMiddle(Words(s)[k]) {
      var x := Words(s)[k];
      assert x in parts[1..] && IsWord(x);
      var j :| 0 <= j < |parts| - 1 && parts[1..][j] == x;
      assert parts[j + 1] == x;
    }
  }

  /** Tokens: all but the last are words, those after the first are no trailing text, and the
      characters are those of the line. */
  lemma TokensShape(s: string)
    requires CleanText(s)
    ensures forall i :: 0 <= i < |Tokens(s)| ==> CleanText(Tokens(s)[i])
    ensures forall i :: 1 <= i < |Tokens(s)| - 1 ==> IsMiddle(Tokens(s)[i])
    ensures |Tokens(s)| >= 2 ==> IsWord(Tokens(s)[0])
  {
    CutTrailingNone(s);
    CleanIff(s);
    match CutTrailing(s) {
      case None =>
        WordsAreWords(s);
        LaterWordsHaveNoColon(s);
        forall i | 0 <= i < |Words(s)| ensures CleanText(Words(s)[i]) { CleanIff(Words(s)[i]); }
      case Some((other, trailing)) =>
        WordsAreWords(other);
        forall i: nat | i < |other| ensures !SeparatorAt(other, i) {
          assert !SeparatorAt(s, i);
        }
        LaterWordsHaveNoColon(other);
        forall i | 0 <= i < |Words(other)| ensures CleanText(Words(other)[i]) { CleanIff(Words(other)[i]); }
        CleanIff(trailing);
    }
  }

  lemma ParsedIsWellFormed(tags: seq<Tag>, tokens: seq<string>, m: Message)
    requires FromTokens(m.tags, tokens) == Ok(m) && AllWireTags(tags)
    requires forall i :: 0 <= i < |tokens| ==> CleanText(tokens[i])
    requires forall i :: 1 <= i < |tokens| - 1 ==> IsMiddle(tokens[i])
    requires |tokens| >= 2 ==> IsWord(tokens[0])
    ensures WellFormed(Wire(tags, m.prefix, m.command, m.params))
  {
    var n := if m.prefix.Some? then 2 else 1;
    assert forall i :: 0 <= i < |m.params| ==> m.params[i] == tokens[i + n];
    if m.prefix.Some? {
      CleanIff(tokens[0]);
      CleanIff(m.prefix.value);
    }
  }

  /** Parsing is stable: whatever line was accepted, its message printed again and parsed again is
      the same message, exactly when the command that was read fits the grammar. */
  lemma ReparseAccepted(s: string, tags: seq<Tag>, trailing: bool)
    requires ParseMessage(s).Ok? && Lists(tags, ParseMessage(s).value.tags)
    ensures var m := ParseMessage(s).value;
            var w := Wire(tags, m.prefix, m.command, m.params);
            w.ToMessage() == m && (ParseMessage(RenderMessage(w, trailing)) == Ok(m) <==> CommandFits(w))
  {
    hide Tokens, RenderMessage, ParseTags;
    var m := ParseMessage(s).value;
    var w := Wire(tags, m.prefix, m.command, m.params);
    CleanIff(s);
    var rest := s;
    if |s| > 0 && s[0] == '@' {
      var (tagsText, body) := Cut(s, ' ').value;
      CleanIff(tagsText[1..]);
      CleanIff(body);
      ParsedTagsAreWire(tagsText[1..]);
      rest := body;
    }
    TokensShape(rest);
    assert FromTokens(m.tags, Tokens(rest)) == Ok(m) by { FromTokensInverse(m.tags, Tokens(rest), m); }
    forall i | 0 <= i < |tags| ensures WireTag(tags[i]) {
      assert tags[i] == (tags[i].0, m.tags[tags[i].0]);
    }
    ParsedIsWellFormed(tags, Tokens(rest), m);
    PrintParse(w, trailing);
  }

  // ---- Commands that do not fit --------------------------------------------------

  /** The parser accepts a line whose command it then would not read back: what follows a prefix and
      the separator is taken for the command, whatever it is. */
  lemma TrailingTakenForCommand(p: string, rest: string)
    requires ' ' !in p && CleanText(p) && CleanText(rest)
    ensures ParseMessage(":" + p + " :" + rest) == Ok(Message(map[], Some(p), rest, []))
  {
    var s := ":" + p + " :" + rest;
    CleanIff(p);
    CleanIff(rest);
    CleanIff(s);
    assert forall i: nat :: i < |":" + p| ==> !SeparatorAt(s, i);
    CutTrailingIs(s, ":" + p, rest);
    WordsOfJoin([":" + p]);
    var tokens := [":" + p, rest];
    assert Tokens(s) == tokens;
    assert tokens[0][1..] == p && |tokens[2..]| == 0;
  }
}
