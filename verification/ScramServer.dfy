/** `SCRAMServerAuthenticator`: specification functions, the class proved against them, the exact
    acceptance condition, and what holds in every run. */
module ScramServer {
  import opened Wrappers
  import opened Octets
  import opened ScramMessages
  import opened ScramOperations
  import opened ScramEscape

  /** What the password database returns for a user: the stored form, in one of its formats. */
  datatype Stored =
    | Salted(salt: Bytes, count: int, salted: Bytes)
    | Keys(salt: Bytes, count: int, storedKey: Bytes, serverKey: Bytes)
    | Plain(password: Bytes)
    | Missing        // no password, in the plain or in an unknown format
    | MissingSalted  // no password, in one of the two formats that need one

  datatype Config = Config(ops: Primitives, channelBinding: bool, database: Bytes -> Stored)

  datatype Properties = Properties(
    channelBindings: Option<map<Bytes, Bytes>>, plusEnabled: bool, salt: Bytes, count: int)

  /** What the nonce factory returns: for the salt, should it be asked, and for the nonce. */
  datatype Draws = Draws(salt: Bytes, nonce: Bytes)

  datatype OutProperties = OutProperties(username: Bytes, authzid: Option<Bytes>)

  datatype State = State(
    properties: Option<Properties>, out: Option<OutProperties>,
    bare: Option<Bytes>, storedKey: Option<Bytes>, serverKey: Option<Bytes>,
    nonce: Bytes, cbName: Option<Bytes>, gs2: Bytes, serverFirst: Bytes)

  const INITIAL := State(None, None, None, None, None, [], None, [], [])

  datatype Outcome =
    | Send(message: Bytes)
    | Accept(out: OutProperties, message: Bytes)
    | Raised(error: ScramError)

  // ---- Specification functions ---------------------------------------------

  /** The salt and iteration count announced, and the keys when there is a password. */
  datatype Credentials = Credentials(salt: Bytes, count: int, keys: Option<(Bytes, Bytes)>)

  function OwnSalt(props: Properties, draws: Draws): Bytes {
    if props.salt == [] then draws.salt else props.salt
  }

  function CredentialsFor(c: Config, props: Properties, draws: Draws, stored: Stored): Credentials
    requires !stored.MissingSalted?
  {
    match stored
    case Keys(salt, count, storedKey, serverKey) => Credentials(salt, count, Some((storedKey, serverKey)))
    case Salted(salt, count, salted) =>
      Credentials(salt, count, Some((c.ops.StoredKey(salted), c.ops.ServerKey(salted))))
    case Plain(password) =>
      var salted := c.ops.Hi(password, OwnSalt(props, draws), props.count);
      Credentials(OwnSalt(props, draws), props.count, Some((c.ops.StoredKey(salted), c.ops.ServerKey(salted))))
    case Missing => Credentials(OwnSalt(props, draws), props.count, None)
  }

  function OutOf(g: ClientFirst): OutProperties {
    OutProperties(Unescape(g.username), if g.authzid.Some? then Some(Unescape(g.authzid.value)) else None)
  }

  function ServerNonce(c: Config, g: ClientFirst, draws: Draws): Bytes {
    g.nonce + (if MatchesValueChars(draws.nonce) then draws.nonce else c.ops.Encode(draws.nonce))
  }

  function ServerFirstText(c: Config, nonce: Bytes, cred: Credentials): Bytes {
    "r=" + nonce + ",s=" + c.ops.Encode(cred.salt) + ",i=" + Decimal(cred.count)
  }

  /** The channel-binding checks on a first message: `None` when they pass. */
  function BindingRefusal(c: Config, props: Option<Properties>, flag: CbFlag): Option<ScramError> {
    if c.channelBinding then
      if !flag.Used? then Some(NotAuthorized)
      else if props.None? || props.value.channelBindings.None? then Some(PythonError)
      else if flag.name !in props.value.channelBindings.value then Some(NotAuthorized)
      else None
    else if flag.NotUsed? then
      if props.None? then Some(PythonError) else if props.value.plusEnabled then Some(NotAuthorized) else None
    else if flag.Used? then Some(NotAuthorized)
    else None
  }

  function FirstStep(c: Config, st: State, response: Bytes, draws: Draws): (State, Outcome) {
    match ParseClientFirst(response)
    case None => (st, Raised(NotAuthorized))
    case Some(g) =>
      if g.ext.Some? then (st, Raised(NotAuthorized))
      else
        var refusal := BindingRefusal(c, st.properties, g.flag);
        if refusal.Some? then (st, Raised(refusal.value))
        else if st.properties.None? then (st, Raised(PythonError))  // there are no output properties yet
        else
          var props := st.properties.value;
          var st := st.(out := Some(OutOf(g)));
          var stored := c.database(Unescape(g.username));
          if stored.MissingSalted? then (st, Raised(PythonError)) else
            var cred := CredentialsFor(c, props, draws, stored);
            var nonce := ServerNonce(c, g, draws);
            var first := ServerFirstText(c, nonce, cred);
            (st.(storedKey := if cred.keys.Some? then Some(cred.keys.value.0) else None,
                 serverKey := if cred.keys.Some? then Some(cred.keys.value.1) else None,
                 nonce := nonce, cbName := if g.flag.Used? then Some(g.flag.name) else None,
                 gs2 := g.Gs2Header(), bare := Some(g.Bare()), serverFirst := first),
             Send(first))
  }

  /** The checks on a final message that come before the proof: `None` when they pass. */
  function FinalRefusal(c: Config, st: State, g: ClientFinal): Option<ScramError> {
    if g.nonce != st.nonce then Some(NotAuthorized) else
      var input := c.ops.Decode(g.cb);
      if input.None? then Some(Base64Error)
      else if !(st.gs2 <= input.value) then Some(NotAuthorized)
      else if st.cbName.Some? then
        if st.properties.None? || st.properties.value.channelBindings.None?
           || st.cbName.value !in st.properties.value.channelBindings.value then Some(PythonError)
        else if input.value[|st.gs2|..] != st.properties.value.channelBindings.value[st.cbName.value]
        then Some(NotAuthorized)
        else None
      else None
  }

  function FinalStep(c: Config, st: State, response: Bytes): Outcome
    requires st.bare.Some?
  {
    match ParseClientFinal(response)
    case None => Raised(NotAuthorized)
    case Some(g) =>
      var refusal := FinalRefusal(c, st, g);
      if refusal.Some? then Raised(refusal.value) else
        var proof := c.ops.Decode(g.proof);
        if proof.None? then Raised(Base64Error)
        else if st.storedKey.None? then Raised(NotAuthorized)
        else
          var auth := AuthMessage(st.bare.value, st.serverFirst, g.WithoutProof());
          var signature := c.ops.Hmac(st.storedKey.value, auth);
          if c.ops.H(Xor(signature, proof.value)) != st.storedKey.value then Raised(NotAuthorized)
          else if st.serverKey.None? || st.out.None? then Raised(PythonError)
          else Accept(st.out.value, "v=" + c.ops.Encode(c.ops.Hmac(st.serverKey.value, auth)))
  }

  function ResponseStep(c: Config, st: State, response: Bytes, draws: Draws): (State, Outcome) {
    if st.bare.Some? then (st, FinalStep(c, st, response)) else FirstStep(c, st, response, draws)
  }

  function StartStep(c: Config, st: State, props: Properties, response: Bytes, draws: Draws): (State, Outcome) {
    var st := st.(properties := Some(props), bare := None, out := None);
    if response == [] then (st, Send([])) else ResponseStep(c, st, response, draws)
  }

  // ---- The class -----------------------------------------------------------

  class ScramServerAuthenticator {
    const config: Config
    var properties: Option<Properties>
    var out: Option<OutProperties>
    var bare: Option<Bytes>
    var storedKey: Option<Bytes>
    var serverKey: Option<Bytes>
    var nonce: Bytes
    var cbName: Option<Bytes>
    var gs2: Bytes
    var serverFirst: Bytes

    ghost function Abstract(): State
      reads this
    {
      State(properties, out, bare, storedKey, serverKey, nonce, cbName, gs2, serverFirst)
    }

    constructor (config: Config)
      ensures this.config == config && Abstract() == INITIAL
    {
      this.config := config;
      properties, out, bare, storedKey, serverKey := None, None, None, None, None;
      nonce, cbName, gs2, serverFirst := [], None, [], [];
    }

    method Start(props: Properties, response: Bytes, draws: Draws) returns (r: Outcome)
      modifies this
      ensures (Abstract(), r) == StartStep(config, old(Abstract()), props, response, draws)
    {
      hide FirstStep;
      properties, bare, out := Some(props), None, None;
      if response == [] {
        return Send([]);
      }
      r := Response(response, draws);
    }

    method Response(response: Bytes, draws: Draws) returns (r: Outcome)
      modifies this
      ensures (Abstract(), r) == ResponseStep(config, old(Abstract()), response, draws)
    {
      hide FirstStep, FinalStep;
      if bare.Some? {
        r := HandleFinalResponse(response);
      } else {
        r := HandleFirstResponse(response, draws);
      }
    }

    method HandleFirstResponse(response: Bytes, draws: Draws) returns (r: Outcome)
      modifies this
      ensures (Abstract(), r) == FirstStep(config, old(Abstract()), response, draws)
    {
      hide ParseClientFirst, Unescape, Decimal, MatchesValueChars;
      var parsed := ParseClientFirst(response);
      if parsed.None? {
        return Raised(NotAuthorized);
      }
      var g := parsed.value;
      if g.ext.Some? {
        return Raised(NotAuthorized);
      }
      var refusal := BindingRefusal(config, properties, g.flag);
      if refusal.Some? {
        return Raised(refusal.value);
      }
      if properties.None? {
        return Raised(PythonError);
      }
      var props := properties.value;
      out := Some(OutOf(g));
      var stored := config.database(Unescape(g.username));
      if stored.MissingSalted? {
        return Raised(PythonError);
      }
      var cred := LookUp(props, draws, stored);
      if cred.keys.Some? {
        storedKey, serverKey := Some(cred.keys.value.0), Some(cred.keys.value.1);
      } else {
        storedKey, serverKey := None, None;
      }
      nonce := ServerNonce(config, g, draws);
      cbName := if g.flag.Used? then Some(g.flag.name) else None;
      gs2 := g.Gs2Header();
      bare := Some(g.Bare());
      serverFirst := ServerFirstText(config, nonce, cred);
      r := Send(serverFirst);
    }

    /** Lines 470 to 505 of the source: the salted password is derived even when there is none. */
    method LookUp(props: Properties, draws: Draws, stored: Stored) returns (cred: Credentials)
      requires !stored.MissingSalted?
      ensures cred == CredentialsFor(config, props, draws, stored)
    {
      var salt, count;
      var salted: Bytes := [];
      match stored {
        case Salted(s, i, p) =>
          salt, count, salted := s, i, p;
        case Keys(s, i, _, _) =>
          salt, count := s, i;
        case Plain(_) =>
          salt, count := if props.salt == [] then draws.salt else props.salt, props.count;
          salted := config.ops.ComputeHi(stored.password, salt, count);
        case Missing =>
          salt, count := if props.salt == [] then draws.salt else props.salt, props.count;
          salted := config.ops.ComputeHi([], salt, count);
      }
      var keys: (Bytes, Bytes);
      if stored.Keys? {
        keys := (stored.storedKey, stored.serverKey);
      } else {
        keys := (config.ops.H(config.ops.Hmac(salted, "Client Key")), config.ops.Hmac(salted, "Server Key"));
      }
      cred := Credentials(salt, count, if stored.Missing? then None else Some(keys));
    }

    method HandleFinalResponse(response: Bytes) returns (r: Outcome)
      requires bare.Some?
      ensures r == FinalStep(config, Abstract(), response)
    {
      hide ParseClientFinal, Xor;
      var parsed := ParseClientFinal(response);
      if parsed.None? {
        return Raised(NotAuthorized);
      }
      var g := parsed.value;
      if g.nonce != nonce {
        return Raised(NotAuthorized);
      }
      var input := config.ops.Decode(g.cb);
      if input.None? {
        return Raised(Base64Error);
      }
      if !(gs2 <= input.value) {
        return Raised(NotAuthorized);
      }
      if cbName.Some? {
        if properties.None? || properties.value.channelBindings.None?
           || cbName.value !in properties.value.channelBindings.value {
          return Raised(PythonError);
        }
        if input.value[|gs2|..] != properties.value.channelBindings.value[cbName.value] {
          return Raised(NotAuthorized);
        }
      }
      var proof := config.ops.Decode(g.proof);
      if proof.None? {
        return Raised(Base64Error);
      }
      if storedKey.None? {
        return Raised(NotAuthorized);
      }
      var auth := bare.value + "," + serverFirst + "," + g.WithoutProof();
      var clientKey := Xor(config.ops.Hmac(storedKey.value, auth), proof.value);
      if config.ops.H(clientKey) != storedKey.value {
        return Raised(NotAuthorized);
      }
      if serverKey.None? || out.None? {
        return Raised(PythonError);
      }
      var signature := config.ops.Hmac(serverKey.value, auth);
      r := Accept(out.value, "v=" + config.ops.Encode(signature));
    }
  }

  // ---- Acceptance ----------------------------------------------------------

  /** A final message that is well formed and passes the nonce, header and binding checks, and the
      octets of its proof. */
  ghost predicate Admissible(c: Config, st: State, response: Bytes, g: ClientFinal, proof: Bytes) {
    && ParseClientFinal(response) == Some(g) && FinalRefusal(c, st, g).None? && c.ops.Decode(g.proof) == Some(proof)
  }

  /** The client signature over the transcript that ends in message `g`. */
  function Signature(c: Config, st: State, storedKey: Bytes, g: ClientFinal): Bytes
    requires st.bare.Some?
  {
    c.ops.Hmac(storedKey, AuthMessage(st.bare.value, st.serverFirst, g.WithoutProof()))
  }

  ghost predicate StartsWithProof(proof: Bytes, expected: Bytes) {
    |proof| >= |expected| && proof[..|expected|] == expected
  }

  /** A user with a password is on record under the hash of this client key. */
  ghost predicate Registered(c: Config, st: State, clientKey: Bytes) {
    && st.bare.Some? && st.serverKey.Some? && st.out.Some?
    && |clientKey| == c.ops.digestSize && st.storedKey == Some(c.ops.H(clientKey))
  }

  /** The server takes an admissible final message exactly when its proof starts with the client
      key masked by this run's signature, or when it unmasks to another preimage of the stored
      key, that is, to a collision of the hash. */
  lemma AcceptanceExact(c: Config, st: State, response: Bytes, g: ClientFinal, proof: Bytes, clientKey: Bytes)
    requires c.ops.Valid() && Registered(c, st, clientKey) && Admissible(c, st, response, g, proof)
    ensures
      var signature := Signature(c, st, c.ops.H(clientKey), g);
      var recovered := Xor(signature, proof);
      FinalStep(c, st, response).Accept? <==>
        || StartsWithProof(proof, Xor(clientKey, signature))
        || (recovered != clientKey && c.ops.H(recovered) == c.ops.H(clientKey))
  {
    hide ParseClientFinal, Xor, FinalRefusal, AuthMessage, ClientFinal.WithoutProof;
    XorUnmasks(clientKey, Signature(c, st, c.ops.H(clientKey), g), proof);
  }

  /** With no second preimage of the stored key that is no longer than a digest, acceptance is exactly
      the proof check. */
  lemma AcceptanceIsProof(c: Config, st: State, response: Bytes, g: ClientFinal, proof: Bytes, clientKey: Bytes)
    requires c.ops.Valid() && Registered(c, st, clientKey) && Admissible(c, st, response, g, proof)
    requires NoSecondPreimage(c.ops, clientKey)
    ensures FinalStep(c, st, response).Accept? <==>
            StartsWithProof(proof, Xor(clientKey, Signature(c, st, c.ops.H(clientKey), g)))
  {
    hide ParseClientFinal, Xor, FinalRefusal, FinalStep, Signature, Admissible, Primitives.Valid;
    AcceptanceExact(c, st, response, g, proof, clientKey);
    SignatureLength(c, st, c.ops.H(clientKey), g);
    assert |Xor(Signature(c, st, c.ops.H(clientKey), g), proof)| <= c.ops.digestSize;
  }

  lemma SignatureLength(c: Config, st: State, storedKey: Bytes, g: ClientFinal)
    requires c.ops.Valid() && st.bare.Some?
    ensures |Signature(c, st, storedKey, g)| == c.ops.digestSize
  {
  }

  /** Nothing else of at most a digest's length has the hash of this key. */
  ghost predicate NoSecondPreimage(ops: Primitives, key: Bytes) {
    forall x :: |x| <= ops.digestSize && ops.H(x) == ops.H(key) ==> x == key
  }

  /** Nothing is accepted that does not repeat this run's nonce, header and binding data. */
  lemma AcceptedIsAdmissible(c: Config, st: State, response: Bytes) returns (g: ClientFinal, proof: Bytes)
    requires st.bare.Some? && FinalStep(c, st, response).Accept?
    ensures Admissible(c, st, response, g, proof) && g.nonce == st.nonce
    ensures c.ops.Decode(g.cb).Some? && st.gs2 <= c.ops.Decode(g.cb).value
    ensures st.cbName.Some? ==> BindingDataIs(st, c.ops.Decode(g.cb).value[|st.gs2|..])
    ensures st.out == Some(FinalStep(c, st, response).out)
  {
    hide ParseClientFinal, Xor;
    g := ParseClientFinal(response).value;
    proof := c.ops.Decode(g.proof).value;
  }

  /** The server's own data for the binding type the client chose. */
  ghost predicate BindingDataIs(st: State, data: Bytes) {
    && st.properties.Some? && st.properties.value.channelBindings.Some? && st.cbName.Some?
    && st.cbName.value in st.properties.value.channelBindings.value
    && data == st.properties.value.channelBindings.value[st.cbName.value]
  }

  // ---- Database formats ----------------------------------------------------

  /** The three formats, when they hold the same password under the same salt and count, give the
      same keys and announce the same salt and count. */
  lemma FormatsAgree(c: Config, props: Properties, draws: Draws, password: Bytes)
    ensures
      var salt, count := OwnSalt(props, draws), props.count;
      var salted := c.ops.Hi(password, salt, count);
      var plain := CredentialsFor(c, props, draws, Plain(password));
      && plain == CredentialsFor(c, props, draws, Salted(salt, count, salted))
      && plain == CredentialsFor(c, props, draws, Keys(salt, count, c.ops.StoredKey(salted), c.ops.ServerKey(salted)))
      && plain.keys == Some((c.ops.H(c.ops.ClientKey(salted)), c.ops.ServerKey(salted)))
  {
  }

  /** Hence the server cannot be told from one with another consistent database. */
  lemma SameReplyForConsistentFormats(c: Config, c': Config, st: State, response: Bytes, draws: Draws)
    requires c.ops == c'.ops && c.channelBinding == c'.channelBinding && st.properties.Some?
    requires forall user :: ConsistentStored(c, st.properties.value, draws, c.database(user), c'.database(user))
    ensures FirstStep(c, st, response, draws) == FirstStep(c', st, response, draws)
  {
    hide ParseClientFirst, Unescape;
    if ParseClientFirst(response).Some? {
      var user := Unescape(ParseClientFirst(response).value.username);
      assert ConsistentStored(c, st.properties.value, draws, c.database(user), c'.database(user));
    }
  }

  /** The same password, in whichever formats, with the server's own salt and count. */
  ghost predicate ConsistentStored(c: Config, props: Properties, draws: Draws, a: Stored, b: Stored) {
    a == b || exists password :: IsFormOf(c, props, draws, a, password) && IsFormOf(c, props, draws, b, password)
  }

  ghost predicate IsFormOf(c: Config, props: Properties, draws: Draws, a: Stored, password: Bytes) {
    var salt, count := OwnSalt(props, draws), props.count;
    var salted := c.ops.Hi(password, salt, count);
    match a
    case Plain(p) => p == password
    case Salted(s, i, k) => s == salt && i == count && k == salted
    case Keys(s, i, stored, server) =>
      s == salt && i == count && stored == c.ops.StoredKey(salted) && server == c.ops.ServerKey(salted)
    case _ => false
  }

  // ---- Every run -----------------------------------------------------------

  datatype Call =
    | DoStart(props: Properties, response: Bytes, draws: Draws)
    | DoResponse(response: Bytes, draws: Draws)

  function Step(c: Config, st: State, call: Call): (State, Outcome) {
    match call
    case DoStart(props, response, draws) => StartStep(c, st, props, response, draws)
    case DoResponse(response, draws) => ResponseStep(c, st, response, draws)
  }

  function Run(c: Config, st: State, calls: seq<Call>): State {
    if calls == [] then st else Step(c, Run(c, st, calls[..|calls| - 1]), calls[|calls| - 1]).0
  }

  /** Everything the server holds about the exchange was derived from one first message and one
      draw of the nonce factory. */
  ghost predicate DerivedFrom(c: Config, st: State, response: Bytes, draws: Draws) {
    && ParseClientFirst(response).Some? && st.properties.Some?
    && var g := ParseClientFirst(response).value;
    && var stored := c.database(Unescape(g.username));
    && !stored.MissingSalted? && g.ext.None? && BindingRefusal(c, st.properties, g.flag).None?
    && var cred := CredentialsFor(c, st.properties.value, draws, stored);
    && st.bare == Some(g.Bare()) && st.gs2 == g.Gs2Header()
    && (st.cbName.Some? <==> g.flag.Used?) && (g.flag.Used? ==> st.cbName.value == g.flag.name)
    && st.nonce == ServerNonce(c, g, draws) && st.serverFirst == ServerFirstText(c, st.nonce, cred)
    && st.out == Some(OutOf(g))
    && st.storedKey == (if cred.keys.Some? then Some(cred.keys.value.0) else None)
    && st.serverKey == (if cred.keys.Some? then Some(cred.keys.value.1) else None)
  }

  /** In every run, once a first message has been taken, the transcript, the nonce, the header, the
      keys and the output properties all come from that one message, which some call received. */
  lemma {:induction false} Coherence(c: Config, calls: seq<Call>) returns (k: nat)
    requires Run(c, INITIAL, calls).bare.Some?
    ensures k < |calls| && DerivedFrom(c, Run(c, INITIAL, calls), calls[k].response, calls[k].draws)
    ensures Step(c, Run(c, INITIAL, calls[..k]), calls[k]) ==
            (Run(c, INITIAL, calls), Send(Run(c, INITIAL, calls).serverFirst))
  {
    var init, last := calls[..|calls| - 1], calls[|calls| - 1];
    var st := Run(c, INITIAL, init);
    if st.bare.Some? && last.DoResponse? {
      k := Coherence(c, init);
      assert init[..k] == calls[..k];
    } else {
      k := |calls| - 1;
      FirstDerives(c, if last.DoStart? then st.(properties := Some(last.props), bare := None, out := None) else st,
                   last.response, last.draws);
    }
  }

  lemma FirstDerives(c: Config, st: State, response: Bytes, draws: Draws)
    requires st.bare.None?
    ensures FirstStep(c, st, response, draws).0.bare.Some? ==>
            var (st', outcome) := FirstStep(c, st, response, draws);
            DerivedFrom(c, st', response, draws) && outcome == Send(st'.serverFirst)
  {
    hide ParseClientFirst, Unescape, Decimal, MatchesValueChars;
  }

  /** A first message that is refused leaves the machine waiting for a first message, so no final
      message is looked at. */
  lemma RefusedFirstStaysFirst(c: Config, st: State, response: Bytes, draws: Draws)
    requires st.bare.None?
    ensures var (st', outcome) := FirstStep(c, st, response, draws);
            (outcome.Send? <==> st'.bare.Some?) && (outcome.Raised? <==> st'.bare.None?)
  {
    hide ParseClientFirst, Unescape, Decimal, MatchesValueChars;
  }

  /** Accepting takes two messages: no call accepts unless an earlier one of the same run was
      answered with the first server message it is checked against, whose nonce it repeats. */
  lemma AcceptNeedsFirst(c: Config, calls: seq<Call>, call: Call) returns (k: nat, g: ClientFinal, proof: Bytes)
    requires Step(c, Run(c, INITIAL, calls), call).1.Accept?
    ensures call.DoResponse? && k < |calls|
    ensures DerivedFrom(c, Run(c, INITIAL, calls), calls[k].response, calls[k].draws)
    ensures Admissible(c, Run(c, INITIAL, calls), call.response, g, proof)
    ensures ParseClientFirst(calls[k].response).Some?
    ensures Step(c, Run(c, INITIAL, calls), call).1.out == OutOf(ParseClientFirst(calls[k].response).value)
    ensures g.nonce == ServerNonce(c, ParseClientFirst(calls[k].response).value, calls[k].draws)
  {
    hide ParseClientFirst, FirstStep, FinalStep, FinalRefusal, ParseClientFinal;
    var st := Run(c, INITIAL, calls);
    if call.DoStart? {
      RefusedFirstStaysFirst(c, st.(properties := Some(call.props), bare := None, out := None),
                             call.response, call.draws);
      assert false;
    }
    RefusedFirstStaysFirst(c, st.(bare := None), call.response, call.draws);
    k := Coherence(c, calls);
    g, proof := AcceptedIsAdmissible(c, st, call.response);
  }
}
