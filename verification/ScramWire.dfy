/** What the SCRAM messages are on the wire, octet for octet: the four message forms written out, and
    what each step puts into a message or demands of one, with RFC 5802's own formulas. */
module ScramWire {
  import opened Wrappers
  import opened Octets
  import opened ScramMessages
  import opened ScramOperations
  import opened ScramEscape
  import opened ScramExchange
  import Client = ScramClient
  import Server = ScramServer

  // ---- Character classes, by code ----------------------------------------------

  ghost predicate Value(x: Bytes) {
    x != [] && forall i :: 0 <= i < |x| ==> 0x21 <= x[i] as int <= 0x7E && x[i] as int != 0x2C
  }

  ghost predicate Base64Text(x: Bytes) {
    x != [] && forall i :: 0 <= i < |x| ==>
      || 'A' <= x[i] <= 'Z' || 'a' <= x[i] <= 'z' || '0' <= x[i] <= '9'
      || x[i] == '+' || x[i] == '/' || x[i] == '='
  }

  /** Letters, digits, dot, hyphen, and the six characters between `Z` and `a`. */
  ghost predicate BindingName(x: Bytes) {
    x != [] && forall i :: 0 <= i < |x| ==>
      || 'A' <= x[i] <= 'Z' || 'a' <= x[i] <= 'z' || '0' <= x[i] <= '9' || x[i] == '.' || x[i] == '-'
      || x[i] == '[' || x[i] == '\\' || x[i] == ']' || x[i] == '^' || x[i] == '_' || x[i] == '`'
  }

  ghost predicate Digits(x: Bytes) { x != [] && forall i :: 0 <= i < |x| ==> 0x30 <= x[i] as int <= 0x39 }

  ghost predicate ExtensionValue(x: Bytes) {
    x != [] && forall i :: 0 <= i < |x| ==> x[i] as int != 0 && x[i] as int != 0x3D
  }

  /** More attributes after a comma, on the same line. */
  ghost predicate MoreAttributes(x: Bytes) {
    x == [] || (x[0] == ',' && forall i :: 0 <= i < |x| ==> x[i] != '\n')
  }

  lemma ClassesAre(x: Bytes)
    ensures IsField(x, IsValueChar) <==> Value(x)
    ensures IsField(x, IsBase64Char) <==> Base64Text(x)
    ensures IsField(x, IsCbNameChar) <==> BindingName(x)
    ensures IsField(x, IsDigit) <==> Digits(x)
    ensures IsField(x, IsExtensionChar) <==> ExtensionValue(x)
    ensures IsTail(x) <==> MoreAttributes(x)
  {
    FieldIsAll(x, IsValueChar);
    FieldIsAll(x, IsBase64Char);
    FieldIsAll(x, IsCbNameChar);
    FieldIsAll(x, IsDigit);
    FieldIsAll(x, IsExtensionChar);
    hide IsField;
  }

  // ---- The four messages -----------------------------------------------------------

  ghost predicate ClientFirstForm(s: Bytes, g: ClientFirst) {
    && (g.flag.Used? ==> BindingName(g.flag.name))
    && (g.authzid.Some? ==> Value(g.authzid.value)) && (g.ext.Some? ==> ExtensionValue(g.ext.value))
    && Value(g.username) && Value(g.nonce) && MoreAttributes(g.tail)
    && var flag: Bytes := if g.flag.Used? then "p=" + g.flag.name else if g.flag.NotUsed? then "y" else "n";
    && var authzid: Bytes := if g.authzid.Some? then "a=" + g.authzid.value else [];
    && var ext: Bytes := if g.ext.Some? then "m=" + g.ext.value + "," else [];
    && var text := (flag + "," + authzid + ",") + (ext + "n=" + g.username + ",r=" + g.nonce + g.tail);
    && (s == text || s == text + "\n")
  }

  ghost predicate ServerFirstForm(s: Bytes, g: ServerFirst) {
    && (g.ext.Some? ==> ExtensionValue(g.ext.value))
    && Value(g.nonce) && Base64Text(g.salt) && Digits(g.count) && MoreAttributes(g.tail)
    && var ext: Bytes := if g.ext.Some? then "m=" + g.ext.value + "," else [];
    && var text := ext + ("r=" + g.nonce + ",s=" + g.salt + ",i=" + g.count + g.tail);
    && (s == text || s == text + "\n")
  }

  ghost predicate ClientFinalForm(s: Bytes, g: ClientFinal) {
    && Base64Text(g.cb) && Value(g.nonce) && MoreAttributes(g.tail) && Base64Text(g.proof)
    && var text := ("c=" + g.cb + ",r=" + g.nonce + g.tail) + (",p=" + g.proof);
    && (s == text || s == text + "\n")
  }

  ghost predicate ServerFinalForm(s: Bytes, g: ServerFinal) {
    match g
    case ServerError(e) => e != [] && (forall i :: 0 <= i < |e| ==> e[i] != ',') && s == "e=" + e
    case Verifier(v, tail) =>
      Base64Text(v) && MoreAttributes(tail) && (s == "v=" + v + tail || s == "v=" + v + tail + "\n")
  }

  lemma ClientFirstIs(s: Bytes, g: ClientFirst)
    ensures ParseClientFirst(s) == Some(g) <==> ClientFirstForm(s, g)
  {
    hide ParseClientFirst, IsField, Value, BindingName, ExtensionValue, MoreAttributes, IsTail;
    ClientFirstExact(s, g);
    if g.flag.Used? { ClassesAre(g.flag.name); }
    if g.authzid.Some? { ClassesAre(g.authzid.value); }
    if g.ext.Some? { ClassesAre(g.ext.value); }
    ClassesAre(g.username);
    ClassesAre(g.nonce);
    ClassesAre(g.tail);
  }

  lemma ServerFirstIs(s: Bytes, g: ServerFirst)
    ensures ParseServerFirst(s) == Some(g) <==> ServerFirstForm(s, g)
  {
    hide ParseServerFirst, IsField, Value, Base64Text, Digits, ExtensionValue, MoreAttributes, IsTail;
    ServerFirstExact(s, g);
    if g.ext.Some? { ClassesAre(g.ext.value); }
    ClassesAre(g.nonce);
    ClassesAre(g.salt);
    ClassesAre(g.count);
    ClassesAre(g.tail);
  }

  lemma ClientFinalIs(s: Bytes, g: ClientFinal)
    ensures ParseClientFinal(s) == Some(g) <==> ClientFinalForm(s, g)
  {
    hide ParseClientFinal, IsField, Value, Base64Text, MoreAttributes, IsTail;
    ClientFinalExact(s, g);
    ClassesAre(g.cb);
    ClassesAre(g.nonce);
    ClassesAre(g.tail);
    ClassesAre(g.proof);
  }

  lemma ServerFinalIs(s: Bytes, g: ServerFinal)
    ensures ParseServerFinal(s) == Some(g) <==> ServerFinalForm(s, g)
  {
    hide ParseServerFinal, IsField, Base64Text, MoreAttributes, IsTail;
    ServerFinalExact(s, g);
    if g.Verifier? {
      ClassesAre(g.verifier);
      ClassesAre(g.tail);
    }
  }

  // ---- The nonces ----------------------------------------------------------------

  /** A value goes as it is, and so does one with a newline after it; anything else in base64. */
  ghost predicate CarriesNonce(ops: Primitives, wire: Bytes, raw: Bytes) {
    if Value(raw) || (raw != [] && raw[|raw| - 1] == '\n' && Value(raw[..|raw| - 1])) then wire == raw
    else ops.Decode(wire) == Some(raw) && (if raw == [] then wire == [] else Base64Text(wire))
  }

  lemma WireNonceIs(ops: Primitives, raw: Bytes)
    requires ops.Valid()
    ensures CarriesNonce(ops, Client.WireNonce(ops, raw), raw)
  {
    hide IsField, Value, Base64Text;
    ClassesAre(ChopNewline(raw));
    ClassesAre(raw);
    ClassesAre(ops.Encode(raw));
    NoNewlineInValue(raw);
  }

  lemma NoNewlineInValue(x: Bytes)
    ensures Value(x) ==> x[|x| - 1] != '\n'
  {
  }

  // ---- The client's messages -------------------------------------------------------

  /** An empty attribute, or one that carries a name. */
  ghost predicate CarriesAuthzid(text: Bytes, authzid: Bytes) {
    if authzid == [] then text == []
    else |text| > 2 && text[..2] == "a=" && ',' !in text && Unescape(text[2..]) == authzid
  }

  /** The type of binding that is preferred, or none. */
  ghost predicate Preferred(bindings: map<Bytes, Bytes>, t: Option<Bytes>) {
    match t
    case None => "tls-unique" !in bindings && "tls-server-end-point" !in bindings
    case Some(name) =>
      name in bindings && (name == "tls-unique" || (name == "tls-server-end-point" && "tls-unique" !in bindings))
  }

  /** The binding type, or whether the client could have used one. */
  function FlagFor(c: Client.Config, props: Client.Properties, t: Option<Bytes>): Bytes {
    if c.channelBinding then (if t.Some? then "p=" + t.value else []) else if props.plusEnabled then "y" else "n"
  }

  /** What `start` does, given the pieces that it writes. */
  ghost function StartOutcome(c: Client.Config, st: Client.State, props: Client.Properties,
                              authzid: Bytes, user: Bytes, nonce: Bytes, t: Option<Bytes>)
    : (Client.State, Client.Outcome)
    requires t.Some? ==> t.value in props.channelBindings
  {
    var named := st.(username := props.username, password := Some(props.password), authzid := props.authzid,
                     cNonce := Some(nonce));
    var gs2 := FlagFor(c, props, t) + "," + authzid + ",";
    var bare := "n=" + user + "," + ("r=" + nonce);
    if c.channelBinding && props.channelBindings == map[] then (named, Client.Raised(NoChannelBindingData))
    else if c.channelBinding && t.None? then (named, Client.Raised(PythonError))
    else (named.(cbData := if c.channelBinding then Some(props.channelBindings[t.value]) else st.cbData,
                 gs2 := Some(gs2), bare := Some(bare)),
          Client.Send(gs2 + bare))
  }

  /** The client's first message: the flag, the authorisation identity, the name and the nonce. */
  lemma StartIs(c: Client.Config, st: Client.State, props: Client.Properties)
    returns (authzid: Bytes, user: Bytes, nonce: Bytes, t: Option<Bytes>)
    requires c.ops.Valid()
    ensures t.Some? ==> t.value in props.channelBindings
    ensures Preferred(props.channelBindings, t)
    ensures CarriesAuthzid(authzid, props.authzid) && CarriesNonce(c.ops, nonce, props.rawNonce)
    ensures ',' !in user && Unescape(user) == props.username
    ensures Client.StartStep(c, st, props) == StartOutcome(c, st, props, authzid, user, nonce, t)
  {
    hide Client.WireNonce, Client.AuthzidAttribute, Escape, Unescape, CarriesNonce, CarriesAuthzid, Client.StartStep;
    hide StartOutcome, Client.BindingType;
    t := Client.BindingType(props.channelBindings);
    authzid := Client.AuthzidAttribute(props.authzid);
    user, nonce := Escape(props.username), Client.WireNonce(c.ops, props.rawNonce);
    PreferredIs(props.channelBindings);
    AuthzidIs(props.authzid);
    UserIs(props.username);
    WireNonceIs(c.ops, props.rawNonce);
    StartShape(c, st, props);
  }

  lemma StartShape(c: Client.Config, st: Client.State, props: Client.Properties)
    ensures Client.BindingType(props.channelBindings).Some? ==>
              Client.BindingType(props.channelBindings).value in props.channelBindings
    ensures Client.StartStep(c, st, props) ==
            StartOutcome(c, st, props, Client.AuthzidAttribute(props.authzid), Escape(props.username),
                         Client.WireNonce(c.ops, props.rawNonce), Client.BindingType(props.channelBindings))
  {
    hide Client.WireNonce, Client.AuthzidAttribute, Escape;
  }

  lemma PreferredIs(bindings: map<Bytes, Bytes>)
    ensures Preferred(bindings, Client.BindingType(bindings))
  {
  }

  lemma UserIs(name: Bytes)
    ensures ',' !in Escape(name) && Unescape(Escape(name)) == name
  {
    EscapeRoundTrip(name);
    EscapedIsOneField(name);
  }

  lemma AuthzidIs(authzid: Bytes)
    ensures CarriesAuthzid(Client.AuthzidAttribute(authzid), authzid)
  {
    EscapeRoundTrip(authzid);
    EscapedIsOneField(authzid);
    hide Escape, Unescape;
    if authzid != [] {
      assert ("a=" + Escape(authzid))[2..] == Escape(authzid);
    }
  }

  ghost function ProofOf(c: Client.Config, salted: Bytes, auth: Bytes): Bytes {
    var key := c.ops.Hmac(salted, "Client Key");
    Xor(key, c.ops.Hmac(c.ops.H(key), auth))
  }

  /** The salted password, the transcript and the proof of RFC 5802, spelled out. */
  ghost function ResponseOutcome(c: Client.Config, st: Client.State, nonce: Bytes, salt: Bytes, count: int)
    : (Client.State, Client.Outcome)
    requires st.serverFirst.Some?
  {
    if st.password.None? then (st, Client.Raised(PythonError)) else
      var salted := c.ops.Hi(st.password.value, salt, count);
      var derived := st.(salted := Some(salted), password := None);
      if st.gs2.None? || st.bare.None? || (c.channelBinding && st.cbData.None?)
      then (derived, Client.Raised(PythonError))
      else
        var binding := if c.channelBinding then st.gs2.value + st.cbData.value else st.gs2.value;
        var final := "c=" + c.ops.Encode(binding) + ",r=" + nonce;
        var auth := st.bare.value + "," + st.serverFirst.value + "," + final;
        (derived.(authMessage := Some(auth)),
         Client.Send(final + "," + ("p=" + c.ops.Encode(ProofOf(c, salted, auth)))))
  }

  /** A first challenge: which ones are refused, what is kept of them, and the response to the others. */
  lemma ChallengeIs(c: Client.Config, st: Client.State, challenge: Bytes)
    requires st.serverFirst.None?
    ensures ParseServerFirst(challenge).None? ==>
              Client.ChallengeStep(c, st, challenge) == (st, Client.Raised(BadChallenge))
    ensures ParseServerFirst(challenge).Some? ==>
              var g := ParseServerFirst(challenge).value;
              var seen := st.(serverFirst := Some(challenge));
              && ServerFirstForm(challenge, g) && (forall x | x in g.count :: IsDigit(x))
              && Client.ChallengeStep(c, st, challenge) ==
                   if g.ext.Some? then (seen, Client.Raised(BadChallenge))
                   else if st.cNonce.None? then (seen, Client.Raised(PythonError))
                   else if !(st.cNonce.value <= g.nonce) then (seen, Client.Raised(BadChallenge))
                   else
                     match c.ops.Decode(g.salt)
                     case None => (seen, Client.Raised(BadChallenge))
                     case Some(salt) => ResponseOutcome(c, seen, g.nonce, salt, Numeral(g.count))
  {
    hide ParseServerFirst, Client.ResponseStep, ResponseOutcome, IsField, Numeral, ServerFirstForm;
    NothingIsServerFirst();
    if ParseServerFirst(challenge).Some? {
      var g := ParseServerFirst(challenge).value;
      ServerFirstIs(challenge, g);
      ServerFirstExact(challenge, g);
      FieldIsAll(g.count, IsDigit);
      if c.ops.Decode(g.salt).Some? {
        ResponseIs(c, st.(serverFirst := Some(challenge)), g.nonce, c.ops.Decode(g.salt).value, Numeral(g.count));
      }
    }
  }

  lemma NothingIsServerFirst()
    ensures ParseServerFirst([]).None?
  {
  }

  lemma ResponseIs(c: Client.Config, st: Client.State, nonce: Bytes, salt: Bytes, count: int)
    requires st.serverFirst.Some?
    ensures Client.ResponseStep(c, st, nonce, salt, count) == ResponseOutcome(c, st, nonce, salt, count)
  {
    hide Client.ResponseStep, Primitives.Hi, Xor;
    Client.ResponseCases(c, st, nonce, salt, count);
  }

  /** The server's final message: only the signature of RFC 5802 over the transcript finishes. */
  lemma FinalChallengeIs(c: Client.Config, st: Client.State, challenge: Bytes)
    ensures
      Client.FinalStep(c, st, challenge) ==
      if st.finished then (st, Client.ExtraChallenge) else
        match ParseServerFinal(challenge)
        case None => (st, Client.Raised(BadChallenge))
        case Some(ServerError(_)) => (st, Client.Raised(ServerScramError))
        case Some(Verifier(v, _)) =>
          if st.salted.None? then (st, Client.Raised(PythonError))
          else if c.ops.Decode(v).None? then (st, Client.Raised(Base64Error))
          else if c.ops.Decode(v).value ==
                  c.ops.Hmac(c.ops.Hmac(st.salted.value, "Server Key"),
                             if st.authMessage.Some? then st.authMessage.value else [])
          then (st.(finished := true), Client.Nothing)
          else (st, Client.Raised(BadSuccess))
  {
    hide ParseServerFinal;
  }

  /** The success: too early, with an identity, or with one more challenge in it. */
  lemma FinishIs(c: Client.Config, st: Client.State, data: Option<Bytes>)
    ensures
      var (st', outcome) := Client.FinishStep(c, st, data);
      if st.serverFirst.None? then st' == st && outcome == Client.Raised(BadSuccess)
      else if st.finished then st' == st && outcome == Client.Identity(st.username, st.authzid)
      else if data.None? then st' == st && outcome == Client.Raised(PythonError)
      else
        var (last, reply) := Client.FinalStep(c, st, data.value);
        st' == last && outcome == if reply.Raised? then reply else Client.Identity(st.username, st.authzid)
  {
    hide ParseServerFinal;
  }

  // ---- The server's messages -------------------------------------------------------

  /** A start forgets the first message and the identity of any run before; what comes next, with it or
      later, is then a first message until one has been answered. */
  lemma ServerStartIs(c: Server.Config, st: Server.State, props: Server.Properties, response: Bytes,
                      draws: Server.Draws)
    ensures
      var clean := st.(properties := Some(props), bare := None, out := None);
      && Server.StartStep(c, st, props, [], draws) == (clean, Server.Send([]))
      && (response != [] ==>
            Server.StartStep(c, st, props, response, draws) == Server.FirstStep(c, clean, response, draws))
      && Server.ResponseStep(c, clean, response, draws) == Server.FirstStep(c, clean, response, draws)
      && (st.bare.Some? ==> Server.ResponseStep(c, st, response, draws) == (st, Server.FinalStep(c, st, response)))
  {
    hide Server.FirstStep, Server.FinalStep;
  }

  /** The binding checks on a first message that has been read. */
  ghost predicate BindingAccepted(c: Server.Config, props: Server.Properties, flag: CbFlag) {
    if c.channelBinding then
      flag.Used? && props.channelBindings.Some? && flag.name in props.channelBindings.value
    else flag.Unsupported? || (flag.NotUsed? && !props.plusEnabled)
  }

  /** The salt, the count and the two keys for a user, by the formulas of RFC 5802. */
  ghost predicate KeysFor(c: Server.Config, props: Server.Properties, draws: Server.Draws, stored: Server.Stored,
                          salt: Bytes, count: int, keys: Option<(Bytes, Bytes)>)
  {
    match stored
    case Salted(s, i, salted) =>
      salt == s && count == i
      && keys == Some((c.ops.H(c.ops.Hmac(salted, "Client Key")), c.ops.Hmac(salted, "Server Key")))
    case Keys(s, i, storedKey, serverKey) => salt == s && count == i && keys == Some((storedKey, serverKey))
    case Plain(password) =>
      && salt == (if props.salt != [] then props.salt else draws.salt) && count == props.count
      && var salted := c.ops.Hi(password, salt, count);
      keys == Some((c.ops.H(c.ops.Hmac(salted, "Client Key")), c.ops.Hmac(salted, "Server Key")))
    case Missing =>
      salt == (if props.salt != [] then props.salt else draws.salt) && count == props.count && keys == None
    case MissingSalted => false
  }

  /** The server's first message: the client's nonce and the server's own, the salt and the count; and
      what the server keeps for the final message. */
  lemma FirstReplyIs(c: Server.Config, st: Server.State, response: Bytes, draws: Server.Draws)
    returns (g: ClientFirst, own: Bytes, salt: Bytes, count: int, keys: Option<(Bytes, Bytes)>)
    requires c.ops.Valid() && Server.FirstStep(c, st, response, draws).1.Send?
    ensures ClientFirstForm(response, g) && g.ext.None?
    ensures st.properties.Some? && BindingAccepted(c, st.properties.value, g.flag)
    ensures KeysFor(c, st.properties.value, draws, c.database(Unescape(g.username)), salt, count, keys)
    ensures CarriesNonce(c.ops, own, draws.nonce)
    ensures
      var (st', reply) := Server.FirstStep(c, st, response, draws);
      && reply.message == "r=" + (g.nonce + own) + ",s=" + c.ops.Encode(salt) + ",i=" + Decimal(count)
      && st'.serverFirst == reply.message && st'.nonce == g.nonce + own
      && st'.storedKey == (if keys.Some? then Some(keys.value.0) else None)
      && st'.serverKey == (if keys.Some? then Some(keys.value.1) else None)
      && st'.cbName == (if g.flag.Used? then Some(g.flag.name) else None)
      && st'.out == Some(Server.OutProperties(Unescape(g.username),
                                              if g.authzid.Some? then Some(Unescape(g.authzid.value)) else None))
      && st'.properties == st.properties
      && st'.bare.Some? && (response == st'.gs2 + st'.bare.value || response == st'.gs2 + st'.bare.value + "\n")
      && HeaderOf(g, st'.gs2)
  {
    hide ParseClientFirst, Unescape, Decimal, MatchesValueChars, IsField, CarriesNonce, ClientFirstForm;
    hide Xor, Primitives.Hi, Client.WireNonce;
    g := ParseClientFirst(response).value;
    own := Client.WireNonce(c.ops, draws.nonce);
    var stored := c.database(Unescape(g.username));
    var cred := Server.CredentialsFor(c, st.properties.value, draws, stored);
    salt, count, keys := cred.salt, cred.count, cred.keys;
    ClientFirstIs(response, g);
    ClientFirstExact(response, g);
    WireNonceIs(c.ops, draws.nonce);
    OwnNonce(c, g, draws);
  }

  /** The header is the message up to the second comma. */
  ghost predicate HeaderOf(g: ClientFirst, header: Bytes) {
    header == (if g.flag.Used? then "p=" + g.flag.name else if g.flag.NotUsed? then "y" else "n") + ","
              + (if g.authzid.Some? then "a=" + g.authzid.value else []) + ","
  }

  lemma OwnNonce(c: Server.Config, g: ClientFirst, draws: Server.Draws)
    ensures Server.ServerNonce(c, g, draws) == g.nonce + Client.WireNonce(c.ops, draws.nonce)
  {
    hide MatchesValueChars;
  }

  /** As the client reads the reply, its nonce is the client's followed by the server's draw. */
  lemma ReplyIsRead(c: Server.Config, st: Server.State, response: Bytes, draws: Server.Draws) returns (own: Bytes)
    requires c.ops.Valid() && Server.FirstStep(c, st, response, draws).1.Send?
    requires ParseServerFirst(Server.FirstStep(c, st, response, draws).1.message).Some?
    ensures ParseClientFirst(response).Some?
    ensures var r := ParseServerFirst(Server.FirstStep(c, st, response, draws).1.message).value;
            r.nonce == ParseClientFirst(response).value.nonce + own
    ensures if Value(draws.nonce) then own == draws.nonce else c.ops.Decode(own) == Some(draws.nonce)
  {
    hide ParseServerFirst, ParseClientFirst, IsField, Value, Server.CredentialsFor, Server.ServerNonce, Unescape;
    hide Server.ServerFirstText, Client.WireNonce, ReadableCredentials, EndsInNewline, Server.BindingRefusal;
    var g := ParseClientFirst(response).value;
    var cred := Server.CredentialsFor(c, st.properties.value, draws, c.database(Unescape(g.username)));
    own := Client.WireNonce(c.ops, draws.nonce);
    ClientFirstExact(response, g);
    OwnNonce(c, g, draws);
    ServerFirstIsRead(c, g, draws, cred);
    CredentialsNonce(cred, draws.nonce);
    WireNonceIs(c.ops, draws.nonce);
    NewlineIs(draws.nonce);
  }

  lemma NewlineIs(raw: Bytes)
    ensures EndsInNewline(raw) <==> raw != [] && raw[|raw| - 1] == '\n' && Value(raw[..|raw| - 1])
  {
    hide IsField;
    ClassesAre(ChopNewline(raw));
    if raw != [] && raw[|raw| - 1] == '\n' {
      assert ChopNewline(raw) == raw[..|raw| - 1];
    }
  }

  // ---- The verdict -----------------------------------------------------------------

  /** What the server demands of a final message, spelled out: every check and every error, and the
      signature of RFC 5802 for the answer. In particular a user without a stored key is refused. */
  lemma VerdictIs(c: Server.Config, st: Server.State, response: Bytes)
    requires st.bare.Some?
    ensures ParseClientFinal(response).None? ==> Server.FinalStep(c, st, response) == Server.Raised(NotAuthorized)
    ensures ParseClientFinal(response).Some? ==>
              var g := ParseClientFinal(response).value;
              && ClientFinalForm(response, g)
              && Server.FinalStep(c, st, response) == Verdict(c, st, g)
  {
    hide ParseClientFinal, ClientFinalForm, Xor;
    if ParseClientFinal(response).Some? {
      ClientFinalIs(response, ParseClientFinal(response).value);
    }
  }

  ghost function Verdict(c: Server.Config, st: Server.State, g: ClientFinal): Server.Outcome
    requires st.bare.Some?
  {
    var input, proof := c.ops.Decode(g.cb), c.ops.Decode(g.proof);
    var data := if st.properties.Some? && st.properties.value.channelBindings.Some? && st.cbName.Some?
                   && st.cbName.value in st.properties.value.channelBindings.value
                then Some(st.properties.value.channelBindings.value[st.cbName.value]) else None;
    if g.nonce != st.nonce then Server.Raised(NotAuthorized)
    else if input.None? then Server.Raised(Base64Error)
    else if !(st.gs2 <= input.value) then Server.Raised(NotAuthorized)
    else if st.cbName.Some? && data.None? then Server.Raised(PythonError)
    else if st.cbName.Some? && input.value != st.gs2 + data.value then Server.Raised(NotAuthorized)
    else if proof.None? then Server.Raised(Base64Error)
    else if st.storedKey.None? then Server.Raised(NotAuthorized)
    else
      var auth := st.bare.value + "," + st.serverFirst + "," + ("c=" + g.cb + ",r=" + g.nonce + g.tail);
      if c.ops.H(Xor(c.ops.Hmac(st.storedKey.value, auth), proof.value)) != st.storedKey.value
      then Server.Raised(NotAuthorized)
      else if st.serverKey.None? || st.out.None? then Server.Raised(PythonError)
      else Server.Accept(st.out.value, "v=" + c.ops.Encode(c.ops.Hmac(st.serverKey.value, auth)))
  }

  /** A first message: which ones are refused and how, and that a refusal keeps the run as it was but
      for the output properties. */
  lemma FirstRefusalIs(c: Server.Config, st: Server.State, response: Bytes, draws: Server.Draws)
    requires Server.FirstStep(c, st, response, draws).1.Raised?
    ensures
      var (st', outcome) := Server.FirstStep(c, st, response, draws);
      && st'.(out := st.out) == st
      && match ParseClientFirst(response)
         case None => outcome.error == NotAuthorized && st' == st
         case Some(g) =>
           if g.ext.Some? || (c.channelBinding && !g.flag.Used?) || (!c.channelBinding && g.flag.Used?)
           then outcome.error == NotAuthorized && st' == st
           else if st.properties.None? then outcome.error == PythonError && st' == st
           else if !BindingAccepted(c, st.properties.value, g.flag)
           then st' == st && outcome.error == (if c.channelBinding && st.properties.value.channelBindings.None?
                                               then PythonError else NotAuthorized)
           else outcome.error == PythonError && c.database(Unescape(g.username)).MissingSalted?
  {
    hide ParseClientFirst, Unescape, Decimal, MatchesValueChars;
  }
}
