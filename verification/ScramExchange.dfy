/** The client and the server of the SCRAM code talking to each other over untouched messages:
    exactly when the exchange succeeds, and what both sides then hold. */
module ScramExchange {
  import opened Wrappers
  import opened Octets
  import opened ScramMessages
  import opened ScramOperations
  import opened ScramEscape
  import Client = ScramClient
  import Server = ScramServer

  // ---- Which values a message can carry -------------------------------------

  predicate IsPrintable(c: Octet) { '!' <= c <= '~' }

  /** A name the two regular expressions let through: commas and equals signs included. */
  predicate PrintableName(x: Bytes) { x != [] && forall i :: 0 <= i < |x| ==> IsPrintable(x[i]) }

  /** The one kind of nonce `VALUE_CHARS_RE` lets through although it holds no value: `$` also
      matches before a final newline. */
  predicate EndsInNewline(raw: Bytes) { MatchesValueChars(raw) && raw[|raw| - 1] == '\n' }

  lemma {:induction false} EscapedIsValue(x: Bytes)
    ensures IsField(Escape(x), IsValueChar) <==> PrintableName(x)
  {
    EscapeIsOnePass(x);
    FieldIsAll(Escape(x), IsValueChar);
    EscapedEachIsValue(x);
    EscapedIsOneField(x);
  }

  lemma {:induction false} EscapedEachIsValue(x: Bytes)
    ensures All(EscapeEach(x), IsValueChar) <==> forall i :: 0 <= i < |x| ==> IsPrintable(x[i])
  {
    if x != [] {
      EscapedEachIsValue(x[1..]);
      var h, t := EscapeOctet(x[0]), EscapeEach(x[1..]);
      assert All(h, IsValueChar) <==> IsPrintable(x[0]) by {
        assert h[0] == if x[0] == ',' then '=' else x[0];
      }
      assert All(h + t, IsValueChar) <==> All(h, IsValueChar) && All(t, IsValueChar) by {
        AllConcat(h, t, IsValueChar);
      }
      assert (forall i :: 0 <= i < |x| ==> IsPrintable(x[i])) <==>
             IsPrintable(x[0]) && forall i :: 0 <= i < |x| - 1 ==> IsPrintable(x[1..][i]) by {
        if forall i :: 0 <= i < |x| - 1 ==> IsPrintable(x[1..][i]) {
          forall i | 1 <= i < |x| ensures IsPrintable(x[i]) {
            assert x[i] == x[1..][i - 1];
          }
        }
      }
    }
  }

  lemma AllConcat(h: Bytes, t: Bytes, p: Octet -> bool)
    ensures All(h + t, p) <==> All(h, p) && All(t, p)
  {
    if All(h + t, p) {
      assert forall i :: 0 <= i < |h| ==> h[i] == (h + t)[i];
      assert forall i :: 0 <= i < |t| ==> t[i] == (h + t)[|h| + i];
    }
  }

  /** A nonce as it goes on the wire is empty, or a value, or a value and a newline. */
  lemma WireNonceShape(ops: Primitives, raw: Bytes)
    requires ops.Valid()
    ensures var wire := Client.WireNonce(ops, raw);
            && (wire == [] <==> raw == [])
            && (raw != [] ==> IsField(ChopNewline(wire), IsValueChar))
            && (EndsInNewline(raw) ==> wire == ChopNewline(wire) + "\n")
            && (!EndsInNewline(raw) ==> ChopNewline(wire) == wire)
  {
    var wire := Client.WireNonce(ops, raw);
    if !MatchesValueChars(raw) && raw != [] {
      FieldIsAll(wire, IsBase64Char);
      FieldIsAll(wire, IsValueChar);
      assert wire[|wire| - 1] != '\n';
    }
    if raw != [] && raw[|raw| - 1] == '\n' {
      assert raw == ChopNewline(raw) + "\n";
    }
  }

  lemma NoCommaInField(s: Bytes, p: Octet -> bool)
    requires IsField(s, p) && !p(',')
    ensures ',' !in s
  {
    FieldIsAll(s, p);
  }

  /** Text up to the first comma is determined. */
  lemma SplitAtComma(x: Bytes, rest: Bytes, x': Bytes, rest': Bytes)
    requires ',' !in x && ',' !in x' && x + ("," + rest) == x' + ("," + rest')
    ensures x == x' && rest == rest'
  {
    var s := x + ("," + rest);
    assert s[|x|] == ',' && s[|x'|] == ',';
    assert forall i :: 0 <= i < |x| ==> s[i] == x[i];
    assert forall i :: 0 <= i < |x'| ==> s[i] == x'[i];
    assert |x| == |x'|;
    assert s[..|x|] == x && s[..|x|] == x';
    assert s[|x| + 1..] == rest && s[|x| + 1..] == rest';
  }

  /** The value of a `k=value` attribute up to the next comma is determined. */
  lemma SplitAttribute(key: Bytes, x: Bytes, rest: Bytes, x': Bytes, rest': Bytes)
    requires ',' !in key && ',' !in x && ',' !in x' && key + x + ("," + rest) == key + x' + ("," + rest')
    ensures x == x' && rest == rest'
  {
    SplitAtComma(key + x, rest, key + x', rest');
    assert (key + x)[|key|..] == x && (key + x')[|key|..] == x';
  }

  lemma SplitHeader(flag: Bytes, authzid: Bytes, bare: Bytes, flag': Bytes, authzid': Bytes, bare': Bytes)
    requires ',' !in flag && ',' !in authzid && ',' !in flag' && ',' !in authzid'
    requires (flag + "," + authzid + ",") + bare == (flag' + "," + authzid' + ",") + bare'
    ensures authzid == authzid' && bare == bare'
  {
    var rest, rest' := authzid + ("," + bare), authzid' + ("," + bare');
    assert (flag + "," + authzid + ",") + bare == flag + ("," + rest);
    assert (flag' + "," + authzid' + ",") + bare' == flag' + ("," + rest');
    SplitAtComma(flag, rest, flag', rest');
    SplitAtComma(authzid, bare, authzid', bare');
  }

  lemma SplitServerFirst(nonce: Bytes, salt: Bytes, count: Bytes, nonce': Bytes, salt': Bytes, count': Bytes)
    requires ',' !in nonce && ',' !in salt && ',' !in nonce' && ',' !in salt'
    requires "r=" + nonce + ",s=" + salt + ",i=" + count == "r=" + nonce' + ",s=" + salt' + ",i=" + count'
    ensures nonce == nonce' && salt == salt' && count == count'
  {
    var more, more' := "i=" + count, "i=" + count';
    var rest, rest' := "s=" + salt + ("," + more), "s=" + salt' + ("," + more');
    assert "r=" + nonce + ",s=" + salt + ",i=" + count == "r=" + nonce + ("," + rest);
    assert "r=" + nonce' + ",s=" + salt' + ",i=" + count' == "r=" + nonce' + ("," + rest');
    SplitAttribute("r=", nonce, rest, nonce', rest');
    SplitAttribute("s=", salt, more, salt', more');
    assert more[2..] == count && more'[2..] == count';
  }

  // ---- The client's first message, read by the server -----------------------

  function FlagOf(c: Client.Config, props: Client.Properties): CbFlag {
    if c.channelBinding then
      var t := Client.BindingType(props.channelBindings);
      Used(if t.Some? then t.value else [])
    else if props.plusEnabled then NotUsed else Unsupported
  }

  /** What the server reads in the client's first message. */
  function FirstRead(c: Client.Config, props: Client.Properties): ClientFirst {
    ClientFirst(FlagOf(c, props), if props.authzid == [] then None else Some(Escape(props.authzid)), None,
                Escape(props.username), ChopNewline(Client.WireNonce(c.ops, props.rawNonce)), [])
  }

  predicate CanStart(c: Client.Config, props: Client.Properties) {
    c.channelBinding ==> Client.BindingType(props.channelBindings).Some?
  }

  lemma StartSends(c: Client.Config, props: Client.Properties)
    ensures var (st, outcome) := Client.StartStep(c, Client.INITIAL, props);
            && (outcome.Send? <==> CanStart(c, props))
            && (outcome.Send? ==>
                  var g := FirstRead(c, props);
                  var wire := Client.WireNonce(c.ops, props.rawNonce);
                  && st.bare == Some("n=" + g.username + "," + ("r=" + wire))
                  && st.gs2 == Some(g.Gs2Header())
                  && st.cNonce == Some(wire) && st.password == Some(props.password)
                  && st.serverFirst == None && !st.finished
                  && st.username == props.username && st.authzid == props.authzid
                  && (c.channelBinding ==>
                        st.cbData == Some(props.channelBindings[Client.BindingType(props.channelBindings).value]))
                  && outcome.message == st.gs2.value + st.bare.value)
  {
    hide Escape, MatchesValueChars;
  }

  lemma FlagIsWf(c: Client.Config, props: Client.Properties)
    requires CanStart(c, props)
    ensures FlagOf(c, props).Wf() && ',' !in FlagOf(c, props).Text()
  {
    hide Span, IsField, CbFlag.Text;
    if c.channelBinding {
      BindingTypeIsName(props.channelBindings);
    }
    FlagHasNoComma(FlagOf(c, props));
  }

  lemma BindingTypeIsName(bindings: map<Bytes, Bytes>)
    ensures var t := Client.BindingType(bindings); t.Some? ==> IsField(t.value, IsCbNameChar)
  {
    hide Span, IsField;
    FieldIsAll("tls-unique", IsCbNameChar);
    FieldIsAll("tls-server-end-point", IsCbNameChar);
  }

  lemma FlagHasNoComma(flag: CbFlag)
    requires flag.Wf()
    ensures ',' !in flag.Text()
  {
    if flag.Used? {
      FieldIsAll(flag.name, IsCbNameChar);
    }
  }

  predicate ReadableFirst(props: Client.Properties) {
    PrintableName(props.username) && (props.authzid == [] || PrintableName(props.authzid)) && props.rawNonce != []
  }

  /** The server's regular expression takes the client's first message exactly when both names are
      printable and there is a nonce, and reads back what the client put there, up to a newline at
      the end of the nonce. */
  lemma FirstIsRead(c: Client.Config, props: Client.Properties, message: Bytes)
    requires c.ops.Valid() && CanStart(c, props)
    requires message == Client.StartStep(c, Client.INITIAL, props).1.message
    ensures ParseClientFirst(message) == if ReadableFirst(props) then Some(FirstRead(c, props)) else None
  {
    hide ParseClientFirst, Client.StartStep, Escape, MatchesValueChars, IsField;
    StartSends(c, props);
    var g := FirstRead(c, props);
    WireNonceShape(c.ops, props.rawNonce);
    EscapedIsValue(props.username);
    EscapedIsValue(props.authzid);
    FlagIsWf(c, props);
    if ReadableFirst(props) {
      FirstText(g, Client.WireNonce(c.ops, props.rawNonce), message);
      ClientFirstExact(message, g);
    } else if ParseClientFirst(message).Some? {
      var g' := ParseClientFirst(message).value;
      ClientFirstExact(message, g');
      FirstFields(c, props, g', message);
    }
  }

  lemma FirstText(g: ClientFirst, wire: Bytes, message: Bytes)
    requires g.ext == None && g.tail == [] && (wire == g.nonce || wire == g.nonce + "\n")
    requires message == g.Gs2Header() + ("n=" + g.username + "," + ("r=" + wire))
    ensures message == g.Text() || message == g.Text() + "\n"
  {
    hide ClientFirst.Gs2Header, ClientFirst.Bare;
    var end: Bytes := wire[|g.nonce|..];
    assert wire == g.nonce + end && (end == [] || end == "\n");
    BareText(g, end);
    assert g.Gs2Header() + (g.Bare() + end) == g.Text() + end;
  }

  lemma BareText(g: ClientFirst, end: Bytes)
    requires g.ext == None && g.tail == []
    ensures "n=" + g.username + "," + ("r=" + (g.nonce + end)) == g.Bare() + end
  {
    var name: Bytes := "n=" + g.username;
    assert "," + ("r=" + (g.nonce + end)) == ",r=" + (g.nonce + end);
    assert g.Bare() == name + ",r=" + g.nonce;
    assert name + (",r=" + (g.nonce + end)) == name + ",r=" + g.nonce + end;
  }

  /** Any reading of the message has the client's own fields in it. */
  lemma FirstFields(c: Client.Config, props: Client.Properties, g': ClientFirst, message: Bytes)
    requires c.ops.Valid() && CanStart(c, props) && g'.Wf() && (message == g'.Text() || message == g'.Text() + "\n")
    requires var g := FirstRead(c, props);
             message == g.Gs2Header() + ("n=" + g.username + "," + ("r=" + Client.WireNonce(c.ops, props.rawNonce)))
    ensures ReadableFirst(props)
  {
    hide Escape, MatchesValueChars, IsField, IsTail;
    var g := FirstRead(c, props);
    var wire := Client.WireNonce(c.ops, props.rawNonce);
    var end: Bytes := if message == g'.Text() then [] else "\n";
    var bare, bare' := "n=" + g.username + "," + ("r=" + wire), g'.Bare() + end;
    FlagIsWf(c, props);
    FlagHasNoComma(g'.flag);
    EscapedIsOneField(props.authzid);
    if g'.authzid.Some? {
      NoCommaInField(g'.authzid.value, IsValueChar);
    }
    assert message == g'.Gs2Header() + bare';
    SplitHeader(g.flag.Text(), AuthzidText(g.authzid), bare, g'.flag.Text(), AuthzidText(g'.authzid), bare');
    if props.authzid != [] {
      assert AuthzidText(g.authzid)[2..] == Escape(props.authzid);
      assert g'.authzid.Some? && AuthzidText(g'.authzid)[2..] == g'.authzid.value;
      EscapedIsValue(props.authzid);
    }
    BareFields(c, props, g', end);
  }

  lemma BareFields(c: Client.Config, props: Client.Properties, g': ClientFirst, end: Bytes)
    requires c.ops.Valid() && g'.Wf()
    requires "n=" + Escape(props.username) + "," + ("r=" + Client.WireNonce(c.ops, props.rawNonce)) == g'.Bare() + end
    ensures PrintableName(props.username) && props.rawNonce != []
  {
    hide Escape, MatchesValueChars, IsField, IsTail;
    var wire := Client.WireNonce(c.ops, props.rawNonce);
    assert (g'.Bare() + end)[0] == 'n';
    assert g'.ext.None?;
    var more, more' := "r=" + wire, "r=" + g'.nonce + g'.tail + end;
    EscapedIsOneField(props.username);
    NoCommaInField(g'.username, IsValueChar);
    assert g'.Bare() + end == "n=" + g'.username + ("," + more');
    SplitAttribute("n=", Escape(props.username), more, g'.username, more');
    EscapedIsValue(props.username);
    assert |more'| > 2 by { FieldIsAll(g'.nonce, IsValueChar); }
    WireNonceShape(c.ops, props.rawNonce);
  }

  // ---- The server's first message, read by the client -----------------------

  predicate ReadableCredentials(cred: Server.Credentials, rawNonce: Bytes) {
    !EndsInNewline(rawNonce) && cred.salt != [] && cred.count >= 0
  }

  function ServerFirstRead(ops: Primitives, nonce: Bytes, cred: Server.Credentials): ServerFirst {
    ServerFirst(None, nonce, ops.Encode(cred.salt), Decimal(cred.count), [])
  }

  /** The client's regular expression takes the server's first message exactly when the salt is not
      empty, the count is not negative and the nonce holds no newline. */
  lemma ServerFirstIsRead(c: Server.Config, g: ClientFirst, draws: Server.Draws, cred: Server.Credentials)
    requires c.ops.Valid() && IsField(g.nonce, IsValueChar)
    ensures var nonce := Server.ServerNonce(c, g, draws);
            ParseServerFirst(Server.ServerFirstText(c, nonce, cred)) ==
            if ReadableCredentials(cred, draws.nonce) then Some(ServerFirstRead(c.ops, nonce, cred)) else None
  {
    hide ParseServerFirst, MatchesValueChars, IsField, Decimal;
    var nonce := Server.ServerNonce(c, g, draws);
    var message := Server.ServerFirstText(c, nonce, cred);
    var r := ServerFirstRead(c.ops, nonce, cred);
    ServerNonceShape(c, g, draws);
    if cred.salt != [] { FieldIsAll(c.ops.Encode(cred.salt), IsBase64Char); }
    if ReadableCredentials(cred, draws.nonce) {
      DecimalIsNumeral(cred.count);
      FieldIsAll(Decimal(cred.count), IsDigit);
      assert r.Text() == message;
      ServerFirstExact(message, r);
    } else if ParseServerFirst(message).Some? {
      var r' := ParseServerFirst(message).value;
      ServerFirstExact(message, r');
      ServerFirstFields(c, nonce, cred, r', message);
      if cred.count < 0 {
        NegativeDecimal(cred.count);
      }
    }
  }

  lemma ServerNonceShape(c: Server.Config, g: ClientFirst, draws: Server.Draws)
    requires c.ops.Valid() && IsField(g.nonce, IsValueChar)
    ensures var nonce := Server.ServerNonce(c, g, draws);
            ',' !in nonce && g.nonce <= nonce && (IsField(nonce, IsValueChar) <==> !EndsInNewline(draws.nonce))
  {
    hide MatchesValueChars, IsField;
    var wire := Client.WireNonce(c.ops, draws.nonce);
    var nonce := Server.ServerNonce(c, g, draws);
    WireNonceShape(c.ops, draws.nonce);
    assert nonce == g.nonce + wire;
    FieldIsAll(g.nonce, IsValueChar);
    FieldIsAll(nonce, IsValueChar);
    AllConcat(g.nonce, wire, IsValueChar);
    if draws.nonce != [] {
      FieldIsAll(ChopNewline(wire), IsValueChar);
      if EndsInNewline(draws.nonce) {
        assert wire[|wire| - 1] == '\n';
      }
    }
  }

  lemma ServerFirstFields(c: Server.Config, nonce: Bytes, cred: Server.Credentials, r': ServerFirst, message: Bytes)
    requires c.ops.Valid() && ',' !in nonce && message == Server.ServerFirstText(c, nonce, cred)
    requires r'.Wf() && (message == r'.Text() || message == r'.Text() + "\n")
    ensures IsField(nonce, IsValueChar) && cred.salt != []
    ensures Decimal(cred.count) != [] && IsDigit(Decimal(cred.count)[0])
  {
    hide IsField, IsTail, Decimal;
    var salt, count := c.ops.Encode(cred.salt), Decimal(cred.count);
    var end: Bytes := if message == r'.Text() then [] else "\n";
    assert message[0] == 'r';
    assert r'.ext.None?;
    NoCommaInField(r'.nonce, IsValueChar);
    NoCommaInField(r'.salt, IsBase64Char);
    if cred.salt != [] { NoCommaInField(salt, IsBase64Char); }
    var count' := r'.count + r'.tail + end;
    assert message == "r=" + r'.nonce + ",s=" + r'.salt + ",i=" + count';
    SplitServerFirst(nonce, salt, count, r'.nonce, r'.salt, count');
    FieldIsAll(r'.salt, IsBase64Char);
    FieldIsAll(r'.count, IsDigit);
    assert count == r'.count + (r'.tail + end) && count[0] == r'.count[0];
  }

  // ---- The whole exchange ---------------------------------------------------

  datatype Completed = Completed(
    client: Client.State, server: Server.State, final: Bytes, out: Server.OutProperties, verifier: Bytes)

  /** Both sides from their initial states; `None` as soon as one of them raises. */
  function Exchange(cc: Client.Config, props: Client.Properties, sc: Server.Config, sprops: Server.Properties,
                    draws: Server.Draws): Option<Completed>
  {
    var (c1, first) := Client.StartStep(cc, Client.INITIAL, props);
    if !first.Send? then None else
      var (s1, challenge) := Server.StartStep(sc, Server.INITIAL, sprops, first.message, draws);
      if !challenge.Send? then None else
        var (c2, final) := Client.ChallengeStep(cc, c1, challenge.message);
        if !final.Send? then None else
          var (s2, verdict) := Server.ResponseStep(sc, s1, final.message, draws);
          if !verdict.Accept? then None
          else Some(Completed(c2, s2, final.message, verdict.out, verdict.message))
  }

  /** The two sides agree on channel binding, and the client sees no downgrade. */
  predicate BindingsAgree(cc: Client.Config, props: Client.Properties, sprops: Server.Properties) {
    if cc.channelBinding then
      var t := Client.BindingType(props.channelBindings);
      && t.Some? && sprops.channelBindings.Some? && t.value in sprops.channelBindings.value
      && sprops.channelBindings.value[t.value] == props.channelBindings[t.value]
    else !(props.plusEnabled && sprops.plusEnabled)
  }

  /** What the parties can check before they start. */
  predicate Compatible(cc: Client.Config, props: Client.Properties, sprops: Server.Properties,
                       draws: Server.Draws, cred: Server.Credentials)
  {
    && BindingsAgree(cc, props, sprops)
    && ReadableFirst(props) && !EndsInNewline(props.rawNonce)
    && ReadableCredentials(cred, draws.nonce)
  }

  /** The database knows this password for the user, in any of its formats. */
  ghost predicate Knows(sc: Server.Config, props: Client.Properties, sprops: Server.Properties, draws: Server.Draws) {
    && !sc.database(props.username).MissingSalted?
    && var cred := CredentialsOf(sc, props, sprops, draws);
    && var salted := sc.ops.Hi(props.password, cred.salt, cred.count);
    && cred.keys == Some((sc.ops.StoredKey(salted), sc.ops.ServerKey(salted)))
  }

  function CredentialsOf(sc: Server.Config, props: Client.Properties, sprops: Server.Properties,
                         draws: Server.Draws): Server.Credentials
    requires !sc.database(props.username).MissingSalted?
  {
    Server.CredentialsFor(sc, sprops, draws, sc.database(props.username))
  }

  ghost predicate Setting(cc: Client.Config, props: Client.Properties, sc: Server.Config, sprops: Server.Properties,
                          draws: Server.Draws)
  {
    cc.ops.Valid() && cc.ops == sc.ops && cc.channelBinding == sc.channelBinding && Knows(sc, props, sprops, draws)
  }

  /** The server holds what the client's message says, and the keys of its user. */
  ghost predicate Took(props: Client.Properties, sprops: Server.Properties, s1: Server.State, g: ClientFirst,
                       cred: Server.Credentials)
  {
    && s1.bare == Some(g.Bare()) && s1.gs2 == g.Gs2Header()
    && s1.cbName == (if g.flag.Used? then Some(g.flag.name) else None) && s1.properties == Some(sprops)
    && s1.out == Some(Server.OutProperties(props.username, if props.authzid == [] then None else Some(props.authzid)))
    && s1.storedKey.Some? && s1.serverKey.Some? && cred.keys == Some((s1.storedKey.value, s1.serverKey.value))
  }

  /** Second step: the server answers a readable first message unless channel binding stands in the
      way, and then holds what the message says. */
  lemma ServerAnswers(cc: Client.Config, props: Client.Properties, sc: Server.Config, sprops: Server.Properties,
                      draws: Server.Draws, message: Bytes)
    requires Setting(cc, props, sc, sprops, draws) && CanStart(cc, props)
    requires message == Client.StartStep(cc, Client.INITIAL, props).1.message
    ensures
      var (s1, answer) := Server.StartStep(sc, Server.INITIAL, sprops, message, draws);
      var g, cred := FirstRead(cc, props), CredentialsOf(sc, props, sprops, draws);
      && (answer.Send? <==> ReadableFirst(props) && Server.BindingRefusal(sc, Some(sprops), g.flag).None?)
      && (answer.Send? ==>
            && answer.message == s1.serverFirst == Server.ServerFirstText(sc, s1.nonce, cred)
            && s1.nonce == Server.ServerNonce(sc, g, draws) && Took(props, sprops, s1, g, cred))
  {
    hide ParseClientFirst, Client.StartStep, Escape, Unescape, MatchesValueChars, Server.BindingRefusal, Decimal;
    hide Server.CredentialsFor;
    StartSends(cc, props);
    FirstIsRead(cc, props, message);
    EscapeRoundTrip(props.username);
    EscapeRoundTrip(props.authzid);
    assert message != [];
  }

  /** What the client holds after a start, and what it still does not. */
  ghost predicate ClientReady(cc: Client.Config, props: Client.Properties, c1: Client.State) {
    && CanStart(cc, props)
    && var g, wire := FirstRead(cc, props), Client.WireNonce(cc.ops, props.rawNonce);
    && c1.bare == Some("n=" + g.username + "," + ("r=" + wire)) && c1.gs2 == Some(g.Gs2Header())
    && c1.cNonce == Some(wire) && c1.password == Some(props.password) && c1.serverFirst == None && !c1.finished
    && c1.username == props.username && c1.authzid == props.authzid
    && (cc.channelBinding ==>
          c1.cbData == Some(props.channelBindings[Client.BindingType(props.channelBindings).value]))
  }

  /** The header, and the client's channel-binding data after it. */
  function BindingInput(cc: Client.Config, props: Client.Properties): Bytes
    requires CanStart(cc, props)
  {
    FirstRead(cc, props).Gs2Header() +
    (if cc.channelBinding then props.channelBindings[Client.BindingType(props.channelBindings).value] else [])
  }

  function WithoutProofOf(cc: Client.Config, props: Client.Properties, nonce: Bytes): Bytes
    requires CanStart(cc, props)
  {
    Client.WithoutProofText(cc.ops.Encode(BindingInput(cc, props)), nonce)
  }

  /** The transcript that both sides are to sign. */
  function Transcript(cc: Client.Config, props: Client.Properties, serverFirst: Bytes, nonce: Bytes): Bytes
    requires CanStart(cc, props)
  {
    AuthMessage(FirstRead(cc, props).Bare(), serverFirst, WithoutProofOf(cc, props, nonce))
  }

  /** The client's final message when all is well. */
  function FinalOf(cc: Client.Config, props: Client.Properties, nonce: Bytes, salted: Bytes, auth: Bytes): ClientFinal
    requires CanStart(cc, props)
  {
    ClientFinal(cc.ops.Encode(BindingInput(cc, props)), nonce, [], cc.ops.Encode(cc.ops.ClientProof(salted, auth)))
  }

  lemma NewlineIsNoPrefix(x: Bytes, y: Bytes)
    requires x != [] && x[|x| - 1] == '\n' && All(y, IsValueChar)
    ensures !(x <= y)
  {
  }

  /** The client has signed the transcript of this exchange and waits for the server's signature. */
  ghost predicate Responded(cc: Client.Config, props: Client.Properties, nonce: Bytes, serverFirst: Bytes,
                            salted: Bytes, c2: Client.State, message: Bytes)
  {
    && CanStart(cc, props)
    && var auth := Transcript(cc, props, serverFirst, nonce);
    && c2.salted == Some(salted) && c2.authMessage == Some(auth) && !c2.finished && c2.serverFirst.Some?
    && c2.username == props.username && c2.authzid == props.authzid
    && message == FinalOf(cc, props, nonce, salted, auth).Text()
  }

  ghost predicate RespondsOrRaises(cc: Client.Config, props: Client.Properties, nonce: Bytes, serverFirst: Bytes,
                                   salted: Bytes, c2: Client.State, outcome: Client.Outcome)
  {
    outcome.Raised? || (outcome.Send? && Responded(cc, props, nonce, serverFirst, salted, c2, outcome.message))
  }

  /** Third step: the client responds exactly when the nonce and the credentials survive the trip. */
  lemma ClientResponds(cc: Client.Config, props: Client.Properties, sc: Server.Config, nonce: Bytes, challenge: Bytes,
                       draws: Server.Draws, cred: Server.Credentials, c1: Client.State)
    requires cc.ops.Valid() && cc.ops == sc.ops && ClientReady(cc, props, c1) && ReadableFirst(props)
    requires nonce == Server.ServerNonce(sc, FirstRead(cc, props), draws)
    requires challenge == Server.ServerFirstText(sc, nonce, cred)
    ensures var (c2, outcome) := Client.ChallengeStep(cc, c1, challenge);
            && RespondsOrRaises(cc, props, nonce, challenge, cc.ops.Hi(props.password, cred.salt, cred.count),
                                c2, outcome)
            && (outcome.Send? <==> ReadableCredentials(cred, draws.nonce) && !EndsInNewline(props.rawNonce))
  {
    hide ParseServerFirst, MatchesValueChars, IsField, Decimal, Xor, Escape, Responded, Client.ResponseStep;
    var g := FirstRead(cc, props);
    WireNonceShape(cc.ops, props.rawNonce);
    ServerNonceShape(sc, g, draws);
    ServerFirstIsRead(sc, g, draws, cred);
    if ReadableCredentials(cred, draws.nonce) {
      DecimalIsNumeral(cred.count);
      if EndsInNewline(props.rawNonce) {
        FieldIsAll(nonce, IsValueChar);
        NewlineIsNoPrefix(Client.WireNonce(cc.ops, props.rawNonce), nonce);
      } else {
        ResponseText(cc, props, nonce, cred, c1.(serverFirst := Some(challenge)));
      }
    }
  }

  lemma ResponseText(cc: Client.Config, props: Client.Properties, nonce: Bytes, cred: Server.Credentials,
                     c1: Client.State)
    requires cc.ops.Valid() && c1.serverFirst.Some? && ClientReady(cc, props, c1.(serverFirst := None))
    requires FirstRead(cc, props).nonce == Client.WireNonce(cc.ops, props.rawNonce)
    ensures var (c2, outcome) := Client.ResponseStep(cc, c1, nonce, cred.salt, cred.count);
            && outcome.Send?
            && Responded(cc, props, nonce, c1.serverFirst.value, cc.ops.Hi(props.password, cred.salt, cred.count),
                         c2, outcome.message)
  {
    hide MatchesValueChars, Xor, Escape, Primitives.Hi, Client.WireNonce;
    var g, input := FirstRead(cc, props), BindingInput(cc, props);
    assert g.Bare() == "n=" + g.username + "," + ("r=" + g.nonce);
    assert !cc.channelBinding ==> input == g.Gs2Header();
    assert Client.BindingText(cc, c1) == Some(cc.ops.Encode(input));
    FinalText(cc, props, nonce, cc.ops.Hi(props.password, cred.salt, cred.count),
              Transcript(cc, props, c1.serverFirst.value, nonce));
  }

  lemma FinalText(cc: Client.Config, props: Client.Properties, nonce: Bytes, salted: Bytes, auth: Bytes)
    requires CanStart(cc, props)
    ensures var g := FinalOf(cc, props, nonce, salted, auth);
            && g.WithoutProof() == WithoutProofOf(cc, props, nonce)
            && g.Text() == WithoutProofOf(cc, props, nonce) + ","
                           + ("p=" + cc.ops.Encode(cc.ops.ClientProof(salted, auth)))
  {
    hide BindingInput, Primitives.ClientProof, CanStart;
    var g := FinalOf(cc, props, nonce, salted, auth);
    assert g.WithoutProof() == WithoutProofOf(cc, props, nonce);
    assert g.Text() == g.WithoutProof() + "," + ("p=" + g.proof);
  }

  /** What the server holds after its answer. */
  ghost predicate ServerReady(cc: Client.Config, props: Client.Properties, sc: Server.Config, sprops: Server.Properties,
                              s1: Server.State, salted: Bytes)
  {
    && CanStart(cc, props) && BindingOffered(cc, props, sprops)
    && IsField(s1.nonce, IsValueChar) && s1.properties == Some(sprops)
    && s1.bare == Some(FirstRead(cc, props).Bare()) && s1.gs2 == FirstRead(cc, props).Gs2Header()
    && s1.out == Some(Server.OutProperties(props.username, if props.authzid == [] then None else Some(props.authzid)))
    && s1.cbName == (if cc.channelBinding then Client.BindingType(props.channelBindings) else None)
    && s1.storedKey == Some(sc.ops.StoredKey(salted)) && s1.serverKey == Some(sc.ops.ServerKey(salted))
  }

  predicate BindingOffered(cc: Client.Config, props: Client.Properties, sprops: Server.Properties) {
    if cc.channelBinding then
      var t := Client.BindingType(props.channelBindings);
      t.Some? && sprops.channelBindings.Some? && t.value in sprops.channelBindings.value
    else !(props.plusEnabled && sprops.plusEnabled)
  }

  /** The verdict on a final message: either accepted, with the signature over this transcript, or
      refused. */
  ghost predicate Judged(c: Server.Config, st: Server.State, response: Bytes, accepted: bool,
                         salted: Bytes, auth: Bytes)
  {
    && st.bare.Some? && st.out.Some?
    && var verdict := Server.FinalStep(c, st, response);
    if accepted
    then verdict == Server.Accept(st.out.value, "v=" + c.ops.Encode(c.ops.Hmac(c.ops.ServerKey(salted), auth)))
    else verdict.Raised?
  }

  /** Fourth step: the server accepts the client's final message when channel binding agrees. */
  lemma ServerAccepts(cc: Client.Config, props: Client.Properties, sc: Server.Config, sprops: Server.Properties,
                      s1: Server.State, salted: Bytes)
    requires cc.ops.Valid() && cc.ops == sc.ops && cc.channelBinding == sc.channelBinding
    requires ServerReady(cc, props, sc, sprops, s1, salted)
    ensures
      var auth := Transcript(cc, props, s1.serverFirst, s1.nonce);
      Judged(sc, s1, FinalOf(cc, props, s1.nonce, salted, auth).Text(), BindingsAgree(cc, props, sprops), salted, auth)
  {
    hide Server.FinalStep, Server.FinalRefusal, ClientFinal.Text, ClientFinal.WithoutProof, IsField, BindingInput;
    hide FirstRead, Primitives.ClientProof, AuthMessage, ParseClientFinal;
    var auth := Transcript(cc, props, s1.serverFirst, s1.nonce);
    var g := FinalOf(cc, props, s1.nonce, salted, auth);
    FinalText(cc, props, s1.nonce, salted, auth);
    FinalIsRead(cc, props, s1.nonce, salted, auth);
    BindingIsChecked(cc, props, sc, sprops, s1, g, salted);
    VerdictOnProof(sc, s1, g.Text(), g, salted);
  }

  /** A message that carries the right proof is accepted unless a check before the proof fails. */
  lemma VerdictOnProof(c: Server.Config, st: Server.State, response: Bytes, g: ClientFinal, salted: Bytes)
    requires c.ops.Valid() && st.bare.Some? && st.out.Some? && ParseClientFinal(response) == Some(g)
    requires st.storedKey == Some(c.ops.StoredKey(salted)) && st.serverKey == Some(c.ops.ServerKey(salted))
    requires var auth := AuthMessage(st.bare.value, st.serverFirst, g.WithoutProof());
             g.proof == c.ops.Encode(c.ops.ClientProof(salted, auth))
    ensures
      Judged(c, st, response, Server.FinalRefusal(c, st, g).None?, salted,
             AuthMessage(st.bare.value, st.serverFirst, g.WithoutProof()))
  {
    hide ParseClientFinal, Xor, Server.FinalRefusal, ClientFinal.WithoutProof, AuthMessage;
    var auth := AuthMessage(st.bare.value, st.serverFirst, g.WithoutProof());
    var clientKey, signature := c.ops.ClientKey(salted), c.ops.Hmac(c.ops.StoredKey(salted), auth);
    XorUnmasks(clientKey, signature, Xor(clientKey, signature));
  }

  lemma FinalIsRead(cc: Client.Config, props: Client.Properties, nonce: Bytes, salted: Bytes, auth: Bytes)
    requires cc.ops.Valid() && CanStart(cc, props) && IsField(nonce, IsValueChar)
    ensures var g := FinalOf(cc, props, nonce, salted, auth); ParseClientFinal(g.Text()) == Some(g)
  {
    hide ParseClientFinal, Xor, IsField, ClientFinal.Text;
    var g := FinalOf(cc, props, nonce, salted, auth);
    assert BindingInput(cc, props) != [];
    assert |cc.ops.ClientProof(salted, auth)| == cc.ops.digestSize;
    assert g.Wf();
    ClientFinalExact(g.Text(), g);
  }

  lemma BindingIsChecked(cc: Client.Config, props: Client.Properties, sc: Server.Config, sprops: Server.Properties,
                         s1: Server.State, g: ClientFinal, salted: Bytes)
    requires cc.ops.Valid() && cc.ops == sc.ops && ServerReady(cc, props, sc, sprops, s1, salted)
    requires g.nonce == s1.nonce && g.cb == cc.ops.Encode(BindingInput(cc, props))
    ensures Server.FinalRefusal(sc, s1, g).None? <==> BindingsAgree(cc, props, sprops)
  {
    hide BindingInput, FirstRead, IsField;
    HeaderComesFirst(cc, props);
  }

  lemma HeaderComesFirst(cc: Client.Config, props: Client.Properties)
    requires CanStart(cc, props)
    ensures var header := FirstRead(cc, props).Gs2Header();
            && header <= BindingInput(cc, props)
            && (cc.channelBinding ==>
                  BindingInput(cc, props)[|header|..] ==
                  props.channelBindings[Client.BindingType(props.channelBindings).value])
  {
  }

  /** What a completed exchange leaves behind: the server names the client's user and authorisation
      identity, both sides signed one transcript, and the client takes the server's verifier,
      whether it comes as a challenge or with the success. */
  ghost predicate Agreement(cc: Client.Config, props: Client.Properties, x: Completed) {
    && x.out == Server.OutProperties(props.username, if props.authzid == [] then None else Some(props.authzid))
    && x.server.bare.Some? && ParseClientFinal(x.final).Some?
    && x.client.authMessage == Some(AuthMessage(x.server.bare.value, x.server.serverFirst,
                                                ParseClientFinal(x.final).value.WithoutProof()))
    && var identity := Client.Identity(props.username, props.authzid);
    && Client.FinishStep(cc, x.client, Some(x.verifier)).1 == identity
    && var (finished, reply) := Client.ChallengeStep(cc, x.client, x.verifier);
    && reply == Client.Nothing && Client.FinishStep(cc, finished, None).1 == identity
  }

  /** Last step: the client takes the server's signature. */
  lemma ClientFinishes(cc: Client.Config, c2: Client.State, salted: Bytes, auth: Bytes, verifier: Bytes)
    requires cc.ops.Valid() && !c2.finished && c2.serverFirst.Some?
    requires c2.salted == Some(salted) && c2.authMessage == Some(auth)
    requires verifier == "v=" + cc.ops.Encode(cc.ops.Hmac(cc.ops.ServerKey(salted), auth))
    ensures Client.FinalStep(cc, c2, verifier) == (c2.(finished := true), Client.Nothing)
    ensures verifier != []
  {
    hide ParseServerFinal, IsField;
    var g := Verifier(cc.ops.Encode(cc.ops.Hmac(cc.ops.ServerKey(salted), auth)), []);
    assert g.Text() == verifier;
    ServerFinalExact(verifier, g);
  }

  lemma BindingRefusalIs(cc: Client.Config, props: Client.Properties, sc: Server.Config, sprops: Server.Properties)
    requires cc.channelBinding == sc.channelBinding && CanStart(cc, props)
    ensures Server.BindingRefusal(sc, Some(sprops), FlagOf(cc, props)).None? <==> BindingOffered(cc, props, sprops)
  {
  }

  lemma RunFromAnswer(cc: Client.Config, props: Client.Properties, sc: Server.Config, sprops: Server.Properties,
                      draws: Server.Draws)
    requires Setting(cc, props, sc, sprops, draws) && CanStart(cc, props)
    requires var first := Client.StartStep(cc, Client.INITIAL, props).1.message;
             Server.StartStep(sc, Server.INITIAL, sprops, first, draws).1.Send?
    ensures RunIsExact(cc, props, sc, sprops, draws)
  {
    hide Client.StartStep, Client.ChallengeStep, Client.FinalStep, Server.StartStep, Server.FinalStep, Server.FirstStep;
    hide Server.CredentialsFor, ReadableFirst, ReadableCredentials, EndsInNewline, Escape, MatchesValueChars, Xor;
    hide IsField;
    hide Server.BindingRefusal, ParseClientFinal, Server.ServerNonce, Server.ServerFirstText, Primitives.Hi;
    hide FirstRead, Client.BindingType, Transcript, FinalOf, Agreement, Server.ResponseStep, Responded;
    StartSends(cc, props);
    BindingRefusalIs(cc, props, sc, sprops);
    var (c1, first) := Client.StartStep(cc, Client.INITIAL, props);
    ServerAnswers(cc, props, sc, sprops, draws, first.message);
    var (s1, challenge) := Server.StartStep(sc, Server.INITIAL, sprops, first.message, draws);
    var cred := CredentialsOf(sc, props, sprops, draws);
    FirstReadFlag(cc, props);
    ClientResponds(cc, props, sc, s1.nonce, challenge.message, draws, cred, c1);
    var (c2, final) := Client.ChallengeStep(cc, c1, challenge.message);
    if final.Send? {
      var salted := sc.ops.Hi(props.password, cred.salt, cred.count);
      assert IsField(s1.nonce, IsValueChar) by {
        FirstNonceIsValue(cc, props);
        ServerNonceShape(sc, FirstRead(cc, props), draws);
        CredentialsNonce(cred, draws.nonce);
      }
      RunFromResponse(cc, props, sc, sprops, draws, s1, c2, salted, final.message);
    }
  }

  lemma FirstReadFlag(cc: Client.Config, props: Client.Properties)
    requires CanStart(cc, props)
    ensures FirstRead(cc, props).flag == FlagOf(cc, props)
    ensures cc.channelBinding <==> FlagOf(cc, props).Used?
    ensures cc.channelBinding ==> Some(FlagOf(cc, props).name) == Client.BindingType(props.channelBindings)
  {
  }

  lemma FirstNonceIsValue(cc: Client.Config, props: Client.Properties)
    requires cc.ops.Valid() && ReadableFirst(props)
    ensures IsField(FirstRead(cc, props).nonce, IsValueChar)
  {
    hide MatchesValueChars, IsField;
    WireNonceShape(cc.ops, props.rawNonce);
  }

  lemma CredentialsNonce(cred: Server.Credentials, rawNonce: Bytes)
    requires ReadableCredentials(cred, rawNonce)
    ensures !EndsInNewline(rawNonce)
  {
  }

  lemma RunFromResponse(cc: Client.Config, props: Client.Properties, sc: Server.Config, sprops: Server.Properties,
                        draws: Server.Draws, s1: Server.State, c2: Client.State, salted: Bytes, message: Bytes)
    requires cc.ops.Valid() && cc.ops == sc.ops && cc.channelBinding == sc.channelBinding
    requires ServerReady(cc, props, sc, sprops, s1, salted)
    requires Responded(cc, props, s1.nonce, s1.serverFirst, salted, c2, message)
    ensures var (s2, verdict) := Server.ResponseStep(sc, s1, message, draws);
            && (verdict.Accept? <==> BindingsAgree(cc, props, sprops))
            && (verdict.Accept? ==> Agreement(cc, props, Completed(c2, s2, message, verdict.out, verdict.message)))
  {
    hide Server.FinalStep, Xor, IsField, ParseClientFinal, ClientFinal.Text, Client.FinalStep, Primitives.Hi;
    hide FirstRead, BindingInput, Client.BindingType, BindingsAgree, ClientFinal.WithoutProof, WithoutProofOf;
    var auth := Transcript(cc, props, s1.serverFirst, s1.nonce);
    ServerAccepts(cc, props, sc, sprops, s1, salted);
    FinalIsRead(cc, props, s1.nonce, salted, auth);
    FinalText(cc, props, s1.nonce, salted, auth);
    if BindingsAgree(cc, props, sprops) {
      ClientFinishes(cc, c2, salted, auth, Server.FinalStep(sc, s1, message).message);
    }
  }

  ghost predicate RunIsExact(cc: Client.Config, props: Client.Properties, sc: Server.Config, sprops: Server.Properties,
                             draws: Server.Draws)
    requires Setting(cc, props, sc, sprops, draws)
  {
    var x := Exchange(cc, props, sc, sprops, draws);
    && (x.Some? <==> Compatible(cc, props, sprops, draws, CredentialsOf(sc, props, sprops, draws)))
    && (x.Some? ==> Agreement(cc, props, x.value))
  }

  /** Honest runs: with the right password on both sides, the exchange over untouched messages
      succeeds exactly when the parties are compatible, and both sides then agree. Every name of
      printable characters goes through, commas and equals signs included. */
  lemma HonestRun(cc: Client.Config, props: Client.Properties, sc: Server.Config, sprops: Server.Properties,
                  draws: Server.Draws)
    requires Setting(cc, props, sc, sprops, draws)
    ensures var x := Exchange(cc, props, sc, sprops, draws);
            && (x.Some? <==> Compatible(cc, props, sprops, draws, CredentialsOf(sc, props, sprops, draws)))
            && (x.Some? ==> Agreement(cc, props, x.value))
  {
    hide Client.StartStep, Client.ChallengeStep, Server.StartStep, Server.FinalStep, Server.FirstStep;
    hide Server.CredentialsFor;
    hide ReadableFirst, ReadableCredentials, EndsInNewline, Agreement, Server.ResponseStep, Server.BindingRefusal;
    StartSends(cc, props);
    if CanStart(cc, props) {
      BindingRefusalIs(cc, props, sc, sprops);
      var message := Client.StartStep(cc, Client.INITIAL, props).1.message;
      ServerAnswers(cc, props, sc, sprops, draws, message);
      if Server.StartStep(sc, Server.INITIAL, sprops, message, draws).1.Send? {
        RunFromAnswer(cc, props, sc, sprops, draws);
      }
    }
  }

  /** In particular, without channel binding and with the plain password in the database, every
      printable name, every password and every sensible nonce, salt and count go through. */
  lemma PlainHonestRun(cc: Client.Config, props: Client.Properties, sc: Server.Config, sprops: Server.Properties,
                       draws: Server.Draws)
    requires cc.ops.Valid() && cc.ops == sc.ops && !cc.channelBinding && !sc.channelBinding
    requires sc.database(props.username) == Server.Plain(props.password)
    requires PrintableName(props.username) && (props.authzid == [] || PrintableName(props.authzid))
    requires props.rawNonce != [] && !EndsInNewline(props.rawNonce) && !EndsInNewline(draws.nonce)
    requires Server.OwnSalt(sprops, draws) != [] && sprops.count >= 0 && !(props.plusEnabled && sprops.plusEnabled)
    ensures var x := Exchange(cc, props, sc, sprops, draws); x.Some? && Agreement(cc, props, x.value)
  {
    hide Exchange, EndsInNewline, Agreement;
    hide Primitives.Hi, Primitives.StoredKey, Primitives.ServerKey, Primitives.Valid;
    HonestRun(cc, props, sc, sprops, draws);
  }

  /** With a value and a newline for a nonce, no exchange succeeds. */
  lemma NewlineNonceFails(cc: Client.Config, props: Client.Properties, sc: Server.Config, sprops: Server.Properties,
                          draws: Server.Draws, value: Bytes)
    requires Setting(cc, props, sc, sprops, draws) && IsField(value, IsValueChar) && props.rawNonce == value + "\n"
    ensures EndsInNewline(props.rawNonce)
    ensures Exchange(cc, props, sc, sprops, draws).None?
  {
    hide Exchange, Setting, IsField, Agreement;
    assert ChopNewline(props.rawNonce) == value;
    HonestRun(cc, props, sc, sprops, draws);
  }
}
