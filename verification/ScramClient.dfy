/** `SCRAMClientAuthenticator`: its specification as functions on a state, the class proved
    against them, and what holds in every run. */
module ScramClient {
  import opened Wrappers
  import opened Octets
  import opened ScramMessages
  import opened ScramOperations
  import opened ScramEscape

  datatype Config = Config(ops: Primitives, channelBinding: bool)

  /** What `start` reads: `channelBindings` is empty when the property is missing. */
  datatype Properties = Properties(
    username: Bytes, password: Bytes, authzid: Bytes, rawNonce: Bytes,
    channelBindings: map<Bytes, Bytes>, plusEnabled: bool)

  datatype State = State(
    username: Bytes, password: Option<Bytes>, authzid: Bytes,
    cNonce: Option<Bytes>, serverFirst: Option<Bytes>, bare: Option<Bytes>, gs2: Option<Bytes>,
    finished: bool, authMessage: Option<Bytes>, salted: Option<Bytes>, cbData: Option<Bytes>)

  const INITIAL := State([], None, [], None, None, None, None, false, None, None, None)

  datatype Outcome =
    | Send(message: Bytes)
    | Nothing
    | ExtraChallenge  // the exception object returned, not raised, by a second final challenge
    | Identity(username: Bytes, authzid: Bytes)
    | Raised(error: ScramError)

  // ---- Specification functions ---------------------------------------------

  /** A nonce that is not made of value characters is sent in base64. */
  function WireNonce(ops: Primitives, raw: Bytes): Bytes {
    if MatchesValueChars(raw) then raw else ops.Encode(raw)
  }

  function BindingType(bindings: map<Bytes, Bytes>): Option<Bytes> {
    if "tls-unique" in bindings then Some("tls-unique")
    else if "tls-server-end-point" in bindings then Some("tls-server-end-point")
    else None
  }

  function AuthzidAttribute(authzid: Bytes): Bytes {
    if authzid != [] then "a=" + Escape(authzid) else []
  }

  function FirstBare(username: Bytes, nonce: Bytes): Bytes {
    "n=" + Escape(username) + "," + ("r=" + nonce)
  }

  function StartStep(c: Config, st: State, props: Properties): (State, Outcome) {
    var st := st.(username := props.username, password := Some(props.password), authzid := props.authzid,
                  cNonce := Some(WireNonce(c.ops, props.rawNonce)));
    if c.channelBinding && props.channelBindings == map[] then (st, Raised(NoChannelBindingData))
    else if c.channelBinding && BindingType(props.channelBindings).None? then (st, Raised(PythonError))
    else
      var st := if c.channelBinding
                then st.(cbData := Some(props.channelBindings[BindingType(props.channelBindings).value])) else st;
      var flag := if c.channelBinding then "p=" + BindingType(props.channelBindings).value
                  else if props.plusEnabled then "y" else "n";
      var gs2 := flag + "," + AuthzidAttribute(props.authzid) + ",";
      var bare := FirstBare(props.username, st.cNonce.value);
      (st.(gs2 := Some(gs2), bare := Some(bare)), Send(gs2 + bare))
  }

  /** The header, and the channel-binding data after it, when `start` has left them. */
  function BindingInput(c: Config, st: State): Option<Bytes> {
    if st.gs2.None? || (c.channelBinding && st.cbData.None?) then None
    else Some(if c.channelBinding then st.gs2.value + st.cbData.value else st.gs2.value)
  }

  function BindingText(c: Config, st: State): Option<Bytes> {
    var input :- BindingInput(c, st);
    Some(c.ops.Encode(input))
  }

  function WithoutProofText(binding: Bytes, nonce: Bytes): Bytes { "c=" + binding + ",r=" + nonce }

  function ResponseStep(c: Config, st: State, nonce: Bytes, salt: Bytes, count: int): (State, Outcome)
    requires st.serverFirst.Some?
  {
    if st.password.None? then (st, Raised(PythonError)) else
      var salted := c.ops.Hi(st.password.value, salt, count);
      var st := st.(salted := Some(salted), password := None);
      var binding := BindingText(c, st);
      if binding.None? || st.bare.None? then (st, Raised(PythonError)) else
        var wp := WithoutProofText(binding.value, nonce);
        var auth := AuthMessage(st.bare.value, st.serverFirst.value, wp);
        (st.(authMessage := Some(auth)), Send(wp + "," + ("p=" + c.ops.Encode(c.ops.ClientProof(salted, auth)))))
  }

  /** `hmac.new` takes a missing message for an empty one. */
  function OrEmpty(x: Option<Bytes>): Bytes { if x.Some? then x.value else [] }

  function FinalStep(c: Config, st: State, challenge: Bytes): (State, Outcome) {
    if st.finished then (st, ExtraChallenge) else
      match ParseServerFinal(challenge)
      case None => (st, Raised(BadChallenge))
      case Some(ServerError(_)) => (st, Raised(ServerScramError))
      case Some(Verifier(v, _)) =>
        if st.salted.None? then (st, Raised(PythonError)) else
          var decoded := c.ops.Decode(v);
          if decoded.None? then (st, Raised(Base64Error))
          else if c.ops.Hmac(c.ops.ServerKey(st.salted.value), OrEmpty(st.authMessage)) != decoded.value
          then (st, Raised(BadSuccess))
          else (st.(finished := true), Nothing)
  }

  function CountOf(g: ServerFirst): nat
    requires IsField(g.count, IsDigit)
  {
    FieldIsAll(g.count, IsDigit);
    Numeral(g.count)
  }

  function ChallengeStep(c: Config, st: State, challenge: Bytes): (State, Outcome) {
    if challenge == [] then (st, Raised(BadChallenge))
    else if st.serverFirst.Some? then FinalStep(c, st, challenge)
    else
      match ParseServerFirst(challenge)
      case None => (st, Raised(BadChallenge))
      case Some(g) =>
        var st := st.(serverFirst := Some(challenge));
        if g.ext.Some? then (st, Raised(BadChallenge))
        else if st.cNonce.None? then (st, Raised(PythonError))
        else if !(st.cNonce.value <= g.nonce) || c.ops.Decode(g.salt).None? then (st, Raised(BadChallenge))
        else
          ServerFirstExact(challenge, g);
          ResponseStep(c, st, g.nonce, c.ops.Decode(g.salt).value, CountOf(g))
  }

  function FinishStep(c: Config, st: State, data: Option<Bytes>): (State, Outcome) {
    if st.serverFirst.None? then (st, Raised(BadSuccess))
    else if st.finished then (st, Identity(st.username, st.authzid))
    else if data.None? then (st, Raised(PythonError))
    else
      var (st, outcome) := FinalStep(c, st, data.value);
      if outcome.Raised? then (st, outcome)
      else if st.finished then (st, Identity(st.username, st.authzid))
      else (st, Raised(BadSuccess))
  }

  /** What `start` has written before it looks at channel binding. */
  function Named(c: Config, st: State, props: Properties): State {
    st.(username := props.username, password := Some(props.password), authzid := props.authzid,
        cNonce := Some(WireNonce(c.ops, props.rawNonce)))
  }

  /** The channel-binding flag, and the data when there is a binding. */
  function BindingChoice(c: Config, props: Properties): Result<(Bytes, Option<Bytes>), ScramError> {
    if !c.channelBinding then Ok((if props.plusEnabled then "y" else "n", None))
    else if props.channelBindings == map[] then Err(NoChannelBindingData)
    else
      match BindingType(props.channelBindings)
      case None => Err(PythonError)
      case Some(t) => Ok(("p=" + t, Some(props.channelBindings[t])))
  }

  lemma StartCases(c: Config, st: State, props: Properties)
    ensures
      var r, named, choice := StartStep(c, st, props), Named(c, st, props), BindingChoice(c, props);
      match choice
      case Err(e) => r == (named, Raised(e))
      case Ok((flag, data)) =>
        var header := flag + "," + AuthzidAttribute(props.authzid) + ",";
        var bare := FirstBare(props.username, named.cNonce.value);
        r == (named.(cbData := if data.Some? then data else st.cbData, gs2 := Some(header), bare := Some(bare)),
              Send(header + bare))
  {
    hide WireNonce, FirstBare, AuthzidAttribute;
  }

  /** The message and the transcript, spelled out. */
  lemma ResponseCases(c: Config, st: State, nonce: Bytes, salt: Bytes, count: int)
    requires st.serverFirst.Some?
    ensures
      var r := ResponseStep(c, st, nonce, salt, count);
      if st.password.None? then r == (st, Raised(PythonError))
      else
        var salted := c.ops.Hi(st.password.value, salt, count);
        var derived := st.(salted := Some(salted), password := None);
        if BindingInput(c, st).None? || st.bare.None? then r == (derived, Raised(PythonError))
        else
          var wp := "c=" + c.ops.Encode(BindingInput(c, st).value) + ",r=" + nonce;
          var auth := st.bare.value + "," + st.serverFirst.value + "," + wp;
          var key := c.ops.Hmac(salted, "Client Key");
          var proof := "p=" + c.ops.Encode(Xor(key, c.ops.Hmac(c.ops.H(key), auth)));
          r == (derived.(authMessage := Some(auth)), Send(wp + "," + proof))
  {
    hide Xor, Primitives.Hi;
  }

  // ---- The class -----------------------------------------------------------

  class ScramClientAuthenticator {
    const config: Config
    var username: Bytes
    var password: Option<Bytes>
    var authzid: Bytes
    var cNonce: Option<Bytes>
    var serverFirst: Option<Bytes>
    var bare: Option<Bytes>
    var gs2: Option<Bytes>
    var finished: bool
    var authMessage: Option<Bytes>
    var salted: Option<Bytes>
    var cbData: Option<Bytes>

    ghost function Abstract(): State
      reads this
    {
      State(username, password, authzid, cNonce, serverFirst, bare, gs2, finished, authMessage, salted, cbData)
    }

    constructor (config: Config)
      ensures this.config == config && Abstract() == INITIAL
    {
      this.config := config;
      username, password, authzid := [], None, [];
      cNonce, serverFirst, bare, gs2 := None, None, None, None;
      finished, authMessage, salted, cbData := false, None, None, None;
    }

    method Start(props: Properties) returns (r: Outcome)
      modifies this
      ensures (Abstract(), r) == StartStep(config, old(Abstract()), props)
    {
      hide MatchesValueChars, FirstBare, AuthzidAttribute, StartStep, BindingChoice;
      StartCases(config, Abstract(), props);
      var nonce := props.rawNonce;
      if !MatchesValueChars(nonce) {
        nonce := config.ops.Encode(nonce);
      }
      assert nonce == WireNonce(config.ops, props.rawNonce);
      hide WireNonce;
      username, password, authzid, cNonce := props.username, Some(props.password), props.authzid, Some(nonce);
      var choice := ChooseBinding(props);
      if choice.Err? {
        return Raised(choice.error);
      }
      var (flag, data) := choice.value;
      if data.Some? {
        cbData := data;
      }
      var header := flag + "," + AuthzidAttribute(authzid) + ",";
      var first := FirstBare(username, nonce);
      gs2, bare := Some(header), Some(first);
      r := Send(header + first);
    }

    /** Lines 212 to 232 of the source. */
    method ChooseBinding(props: Properties) returns (r: Result<(Bytes, Option<Bytes>), ScramError>)
      ensures r == BindingChoice(config, props)
    {
      if !config.channelBinding {
        return Ok((if props.plusEnabled then "y" else "n", None));
      }
      if props.channelBindings == map[] {
        return Err(NoChannelBindingData);
      }
      var cbType: Bytes;
      if "tls-unique" in props.channelBindings {
        cbType := "tls-unique";
      } else if "tls-server-end-point" in props.channelBindings {
        cbType := "tls-server-end-point";
      } else {
        return Err(PythonError);
      }
      r := Ok(("p=" + cbType, Some(props.channelBindings[cbType])));
    }

    method Challenge(challenge: Bytes) returns (r: Outcome)
      modifies this
      ensures (Abstract(), r) == ChallengeStep(config, old(Abstract()), challenge)
    {
      if challenge == [] {
        return Raised(BadChallenge);
      }
      if serverFirst.Some? {
        r := FinalChallenge(challenge);
        return;
      }
      var parsed := ParseServerFirst(challenge);
      if parsed.None? {
        return Raised(BadChallenge);
      }
      var g := parsed.value;
      serverFirst := Some(challenge);
      if g.ext.Some? {
        return Raised(BadChallenge);
      }
      if cNonce.None? {
        return Raised(PythonError);
      }
      if !(cNonce.value <= g.nonce) {
        return Raised(BadChallenge);
      }
      var salt := config.ops.Decode(g.salt);
      if salt.None? {
        return Raised(BadChallenge);
      }
      ServerFirstExact(challenge, g);
      var count := CountOf(g);
      r := MakeResponse(g.nonce, salt.value, count);
    }

    method MakeResponse(nonce: Bytes, salt: Bytes, count: int) returns (r: Outcome)
      requires serverFirst.Some?
      modifies this
      ensures (Abstract(), r) == ResponseStep(config, old(Abstract()), nonce, salt, count)
    {
      hide Xor, Primitives.Hi, ResponseStep;
      ghost var st := Abstract();
      ResponseCases(config, st, nonce, salt, count);
      if password.None? {
        return Raised(PythonError);
      }
      var derived := config.ops.ComputeHi(password.value, salt, count);
      salted := Some(derived);
      password := None;
      if gs2.None? || (config.channelBinding && cbData.None?) || bare.None? {
        assert BindingInput(config, st).None? || st.bare.None?;
        return Raised(PythonError);
      }
      var binding := if config.channelBinding then "c=" + config.ops.Encode(gs2.value + cbData.value)
                     else "c=" + config.ops.Encode(gs2.value);
      var withoutProof := binding + ",r=" + nonce;
      var clientKey := config.ops.Hmac(derived, "Client Key");
      var storedKey := config.ops.H(clientKey);
      var auth := bare.value + "," + serverFirst.value + "," + withoutProof;
      authMessage := Some(auth);
      var signature := config.ops.Hmac(storedKey, auth);
      var proof := "p=" + config.ops.Encode(Xor(clientKey, signature));
      r := Send(withoutProof + "," + proof);
    }

    method FinalChallenge(challenge: Bytes) returns (r: Outcome)
      modifies this`finished
      ensures (Abstract(), r) == FinalStep(config, old(Abstract()), challenge)
    {
      if finished {
        return ExtraChallenge;
      }
      match ParseServerFinal(challenge) {
        case None =>
          r := Raised(BadChallenge);
        case Some(ServerError(_)) =>
          r := Raised(ServerScramError);
        case Some(Verifier(v, _)) =>
          if salted.None? {
            return Raised(PythonError);
          }
          var serverKey := config.ops.Hmac(salted.value, "Server Key");
          var signature := config.ops.Hmac(serverKey, OrEmpty(authMessage));
          var decoded := config.ops.Decode(v);
          if decoded.None? {
            return Raised(Base64Error);
          }
          if signature != decoded.value {
            return Raised(BadSuccess);
          }
          finished := true;
          r := Nothing;
      }
    }

    method Finish(data: Option<Bytes>) returns (r: Outcome)
      modifies this`finished
      ensures (Abstract(), r) == FinishStep(config, old(Abstract()), data)
    {
      if serverFirst.None? {
        return Raised(BadSuccess);
      }
      if finished {
        return Identity(username, authzid);
      }
      if data.None? {
        return Raised(PythonError);
      }
      r := FinalChallenge(data.value);
      if !r.Raised? {
        r := if finished then Identity(username, authzid) else Raised(BadSuccess);
      }
    }
  }

  // ---- Every run after one successful start ---------------------------------

  datatype Call = DoChallenge(challenge: Bytes) | DoFinish(data: Option<Bytes>) {
    /** The bytes the call received from the server. */
    predicate Received(input: Bytes) {
      match this
      case DoChallenge(x) => input == x
      case DoFinish(d) => d == Some(input)
    }
  }

  function Step(c: Config, st: State, call: Call): (State, Outcome) {
    match call
    case DoChallenge(x) => ChallengeStep(c, st, x)
    case DoFinish(d) => FinishStep(c, st, d)
  }

  /** The state after a sequence of calls. */
  function Run(c: Config, st: State, calls: seq<Call>): State {
    if calls == [] then st else Step(c, Run(c, st, calls[..|calls| - 1]), calls[|calls| - 1]).0
  }

  ghost predicate Started(c: Config, st: State) {
    exists props :: st == StartStep(c, INITIAL, props).0 && StartStep(c, INITIAL, props).1.Send?
  }

  /** The first server message was good, and the keys and the transcript come from it. */
  ghost predicate Agreed(c: Config, start: State, st: State)
    requires GoodStart(c, start)
  {
    && st.serverFirst.Some? && ParseServerFirst(st.serverFirst.value).Some?
    && var g := ParseServerFirst(st.serverFirst.value).value;
    && g.ext.None? && start.cNonce.value <= g.nonce && c.ops.Decode(g.salt).Some? && IsField(g.count, IsDigit)
    && st.salted == Some(c.ops.Hi(start.password.value, c.ops.Decode(g.salt).value, CountOf(g)))
    && st.authMessage == Some(AuthMessage(start.bare.value, st.serverFirst.value,
                                          WithoutProofText(BindingText(c, start).value, g.nonce)))
  }

  ghost predicate Refused(st: State) {
    st.serverFirst.Some? && st.salted.None? && st.authMessage.None? && !st.finished
  }

  ghost predicate GoodStart(c: Config, start: State) {
    && start.password.Some? && start.cNonce.Some? && start.bare.Some? && BindingText(c, start).Some?
    && start.serverFirst.None? && start.salted.None? && start.authMessage.None? && !start.finished
  }

  ghost predicate Inv(c: Config, start: State, st: State)
    requires GoodStart(c, start)
  {
    && st.username == start.username && st.authzid == start.authzid && st.cNonce == start.cNonce
    && st.bare == start.bare && st.gs2 == start.gs2 && st.cbData == start.cbData
    && (st == start || Refused(st) || Agreed(c, start, st))
  }

  lemma StartIsGood(c: Config, start: State)
    requires Started(c, start)
    ensures GoodStart(c, start)
  {
  }

  lemma StepKeepsInv(c: Config, start: State, st: State, call: Call)
    requires GoodStart(c, start) && Inv(c, start, st)
    ensures Inv(c, start, Step(c, st, call).0)
  {
    hide ParseServerFirst, ParseServerFinal, Primitives.Hi, StartStep;
    if call.DoChallenge? && st.serverFirst.None? && ParseServerFirst(call.challenge).Some? {
      ServerFirstExact(call.challenge, ParseServerFirst(call.challenge).value);
    }
  }

  lemma {:induction false} RunKeepsInv(c: Config, start: State, calls: seq<Call>)
    requires GoodStart(c, start)
    ensures Inv(c, start, Run(c, start, calls))
  {
    if calls != [] {
      RunKeepsInv(c, start, calls[..|calls| - 1]);
      StepKeepsInv(c, start, Run(c, start, calls[..|calls| - 1]), calls[|calls| - 1]);
    }
  }

  /** The server signature over this run's transcript, as a final message of the server. */
  ghost predicate CarriesSignature(c: Config, st: State, input: Bytes) {
    && st.salted.Some? && st.authMessage.Some?
    && ParseServerFinal(input).Some? && ParseServerFinal(input).value.Verifier?
    && c.ops.Decode(ParseServerFinal(input).value.verifier) ==
         Some(c.ops.Hmac(c.ops.ServerKey(st.salted.value), st.authMessage.value))
  }

  lemma StepKeepsWritten(c: Config, start: State, st: State, call: Call)
    requires GoodStart(c, start) && Inv(c, start, st)
    ensures var after := Step(c, st, call).0;
            && (st.serverFirst.Some? ==> after.serverFirst == st.serverFirst)
            && (st.authMessage.Some? ==> after.authMessage == st.authMessage)
            && (st.salted.Some? ==> after.salted == st.salted)
            && (st.finished ==> after.finished)
  {
    hide ParseServerFirst, ParseServerFinal, Primitives.Hi, StartStep;
  }

  /** What is written once stays: no call overwrites the first server message, the transcript or
      the salted password, or takes back the finished flag. */
  lemma {:induction false} WrittenOnce(c: Config, start: State, calls: seq<Call>, more: seq<Call>)
    requires Started(c, start)
    ensures var before, after := Run(c, start, calls), Run(c, start, calls + more);
            && (before.serverFirst.Some? ==> after.serverFirst == before.serverFirst)
            && (before.authMessage.Some? ==> after.authMessage == before.authMessage)
            && (before.salted.Some? ==> after.salted == before.salted)
            && (before.finished ==> after.finished)
  {
    hide Step, Inv, StartStep, GoodStart;
    StartIsGood(c, start);
    if more == [] {
      assert calls + more == calls;
    } else {
      var init := more[..|more| - 1];
      WrittenOnce(c, start, calls, init);
      assert (calls + more)[..|calls + more| - 1] == calls + init;
      RunKeepsInv(c, start, calls + init);
      StepKeepsWritten(c, start, Run(c, start, calls + init), more[|more| - 1]);
    }
  }

  /** A finished client has received the signature over the transcript it still holds. */
  lemma {:induction false} FinishedWasSigned(c: Config, start: State, calls: seq<Call>) returns (k: nat, input: Bytes)
    requires Started(c, start) && Run(c, start, calls).finished
    ensures k < |calls| && calls[k].Received(input) && CarriesSignature(c, Run(c, start, calls), input)
    ensures Run(c, start, calls[..k]) == Run(c, start, calls).(finished := false)
    ensures GoodStart(c, start) && Agreed(c, start, Run(c, start, calls[..k]))
  {
    hide ParseServerFirst, ParseServerFinal, Primitives.Hi, StartStep;
    StartIsGood(c, start);
    var init, last := calls[..|calls| - 1], calls[|calls| - 1];
    var st := Run(c, start, init);
    RunKeepsInv(c, start, init);
    if st.finished {
      k, input := FinishedWasSigned(c, start, init);
      assert init[..k] == calls[..k];
    } else {
      k := |calls| - 1;
      input := if last.DoChallenge? then last.challenge else last.data.value;
    }
  }

  /** An identity is handed out only after the server signature over this run's transcript came
      in, in answer to a first message whose nonce extends the client's. */
  lemma IdentityNeedsSignature(c: Config, start: State, calls: seq<Call>, call: Call)
    requires Started(c, start) && Step(c, Run(c, start, calls), call).1.Identity?
    ensures GoodStart(c, start)
    ensures exists k: nat, input ::
      && k < |calls + [call]| && (calls + [call])[k].Received(input)
      && Agreed(c, start, Run(c, start, (calls + [call])[..k]))
      && CarriesSignature(c, Run(c, start, (calls + [call])[..k]), input)
    ensures Step(c, Run(c, start, calls), call).1 == Identity(start.username, start.authzid)
  {
    hide ParseServerFirst, ParseServerFinal, Primitives.Hi, StartStep;
    StartIsGood(c, start);
    var all := calls + [call];
    assert all[..|all| - 1] == calls;
    RunKeepsInv(c, start, calls);
    assert Run(c, start, all).finished;
    var k, input := FinishedWasSigned(c, start, all);
    assert CarriesSignature(c, Run(c, start, all[..k]), input);
  }

  /** A first challenge that matched the syntax and was then refused ends the run: whatever comes
      next, no identity is returned. */
  lemma RefusalIsFinal(c: Config, start: State, calls: seq<Call>, challenge: Bytes, more: seq<Call>, call: Call)
    requires Started(c, start) && Run(c, start, calls).serverFirst.None?
    requires ParseServerFirst(challenge).Some? && ChallengeStep(c, Run(c, start, calls), challenge).1.Raised?
    ensures !Step(c, Run(c, start, calls + [DoChallenge(challenge)] + more), call).1.Identity?
  {
    hide ParseServerFirst, ParseServerFinal, Primitives.Hi, StartStep;
    StartIsGood(c, start);
    RunKeepsInv(c, start, calls);
    var first := calls + [DoChallenge(challenge)];
    assert first[..|first| - 1] == calls;
    EmptyIsNoServerFirst();
    assert Refused(Run(c, start, first));
    StaysRefused(c, start, first, more);
  }

  lemma EmptyIsNoServerFirst()
    ensures ParseServerFirst([]).None?
  {
  }

  lemma {:induction false} StaysRefused(c: Config, start: State, calls: seq<Call>, more: seq<Call>)
    requires Refused(Run(c, start, calls))
    ensures Refused(Run(c, start, calls + more))
  {
    hide ParseServerFirst, ParseServerFinal;
    if more == [] {
      assert calls + more == calls;
    } else {
      StaysRefused(c, start, calls, more[..|more| - 1]);
      assert (calls + more)[..|calls + more| - 1] == calls + more[..|more| - 1];
    }
  }
}
