/** `ClientMock`: framing of the bytes a socket delivers, and the buffer of messages between calls. */
module ClientMock {
  import opened Wrappers
  import opened Octets
  import opened MessageParser

  // ---- The socket and the decoder --------------------------------------------

  /** What `conn.recv` does next. Empty data is the end of the connection. */
  datatype Event = Data(bytes: Bytes) | Timeout | Reset

  type Decoder = Bytes -> Option<string>

  predicate EndsCrlf(s: seq<char>) { |s| >= 2 && s[|s| - 2] == '\r' && s[|s| - 1] == '\n' }

  /** Facts of UTF-8: a line end is a character boundary, and is decoded to itself. */
  ghost predicate DecodesLines(decode: Decoder) {
    && decode([]) == Some("")
    && (forall a: Bytes, b: Bytes :: EndsCrlf(a) ==>
          decode(a + b) == if decode(a).Some? && decode(b).Some? then Some(decode(a).value + decode(b).value) else None)
    && (forall a: Bytes :: EndsCrlf(a) && decode(a).Some? ==> EndsCrlf(decode(a).value))
  }

  predicate IsAscii(s: Bytes) { forall i :: 0 <= i < |s| ==> s[i] as int < 128 }

  function DecodeAscii(s: Bytes): Option<string> { if IsAscii(s) then Some(s) else None }

  lemma AsciiConcat(a: Bytes, b: Bytes)
    ensures IsAscii(a + b) <==> IsAscii(a) && IsAscii(b)
  {
    if IsAscii(a + b) {
      assert forall i :: 0 <= i < |a| ==> a[i] == (a + b)[i];
      assert forall i :: 0 <= i < |b| ==> b[i] == (a + b)[|a| + i];
    }
  }

  /** Plain ASCII text has these facts, so they are consistent. */
  lemma AsciiDecodesLines()
    ensures DecodesLines(DecodeAscii)
  {
    forall a: Bytes, b: Bytes ensures IsAscii(a + b) <==> IsAscii(a) && IsAscii(b) {
      AsciiConcat(a, b);
    }
    hide IsAscii;
    assert DecodeAscii([]) == Some("") by { EmptyIsAscii([]); }
  }

  lemma EmptyIsAscii(s: Bytes)
    requires |s| == 0
    ensures IsAscii(s)
  {
  }

  /** Everything received in a stretch of events. */
  function Received(events: seq<Event>): Bytes {
    if |events| == 0 then []
    else (if events[0].Data? then events[0].bytes else []) + Received(events[1..])
  }

  // ---- Lines ---------------------------------------------------------------

  /** `s.split("\r\n")` */
  function Lines(s: string): (r: seq<string>)
    ensures |r| > 0
  {
    if |s| < 2 then [s]
    else if s[0] == '\r' && s[1] == '\n' then [""] + Lines(s[2..])
    else
      var rest := Lines(s[1..]);
      [[s[0]] + rest[0]] + rest[1..]
  }

  /** Lines of a text that starts with whole lines: those lines, and the lines of the rest. */
  lemma {:induction false} LinesConcat(a: string, b: string)
    requires EndsCrlf(a)
    ensures |Lines(a)| >= 2 && Lines(a)[|Lines(a)| - 1] == ""
    ensures Lines(a + b) == Lines(a)[..|Lines(a)| - 1] + Lines(b)
    decreases |a|
  {
    hide Lines;
    if a[0] == '\r' && a[1] == '\n' {
      assert (a + b)[2..] == a[2..] + b;
      LinesAfterEnd(a);
      LinesAfterEnd(a + b);
      if |a| == 2 {
        assert |a[2..]| == 0 && a[2..] + b == b;
      } else {
        LinesConcat(a[2..], b);
        Prepend("", Lines(a[2..]), Lines(b));
      }
    } else {
      assert (a + b)[1..] == a[1..] + b;
      LinesAfterChar(a);
      LinesAfterChar(a + b);
      LinesConcat(a[1..], b);
      var rest := Lines(a[1..]);
      Prepend([a[0]] + rest[0], rest[1..], Lines(b));
      assert (rest[..|rest| - 1] + Lines(b))[1..] == rest[1..|rest| - 1] + Lines(b);
      assert rest[1..][..|rest| - 2] == rest[1..|rest| - 1];
    }
  }

  lemma Prepend(x: string, front: seq<string>, back: seq<string>)
    requires |front| > 0
    ensures ([x] + front)[..|front|] + back == [x] + (front[..|front| - 1] + back)
  {
    assert ([x] + front)[..|front|] == [x] + front[..|front| - 1];
  }

  lemma LinesAfterEnd(s: string)
    requires |s| >= 2 && s[0] == '\r' && s[1] == '\n'
    ensures Lines(s) == [""] + Lines(s[2..]) && (|s| == 2 ==> |Lines(s)| == 2 && Lines(s)[1] == "")
  {
  }

  lemma LinesAfterChar(s: string)
    requires |s| >= 2 && !(s[0] == '\r' && s[1] == '\n')
    ensures var rest := Lines(s[1..]); Lines(s) == [[s[0]] + rest[0]] + rest[1..]
  {
  }

  // ---- One line ------------------------------------------------------------

  datatype Item = Parsed(message: Message) | Raw(line: string)

  datatype Request = Request(token: Option<string>, assertGetOne: bool, raw: bool)

  datatype Failure = BadLine | NotRegistered | NoSecondParam | NotDecodable

  datatype Verdict = Skip | Pong | Deliver(item: Item) | Raise(failure: Failure)

  /** The body of the loop over the lines of decoded data. */
  function Judge(rq: Request, line: string): Verdict {
    if line == "" then Skip
    else
      match ParseMessage(line)
      case Err(_) => Raise(BadLine)
      case Ok(m) =>
        if m.command == "PONG" && rq.token.Some? && rq.token.value in m.params then Pong
        else if rq.token.Some? && m.command == "451" && |m.params| < 2 then Raise(NoSecondParam)
        else if rq.token.Some? && m.command == "451" && m.params[1] == "PING" then Raise(NotRegistered)
        else Deliver(if rq.raw then Raw(line) else Parsed(m))
  }

  /** The items of a batch of lines in their order, without the synchronisation PONGs, and whether
      there was one. */
  function Collect(rq: Request, lines: seq<string>): Result<(seq<Item>, bool), Failure> {
    if |lines| == 0 then Ok(([], false))
    else
      match Judge(rq, lines[0])
      case Raise(f) => Err(f)
      case verdict =>
        var (items, pong) :- Collect(rq, lines[1..]);
        Ok(((if verdict.Deliver? then [verdict.item] else []) + items, verdict.Pong? || pong))
  }

  lemma {:induction false} CollectConcat(rq: Request, a: seq<string>, b: seq<string>)
    ensures Collect(rq, a).Ok? && Collect(rq, b).Ok? ==>
            Collect(rq, a + b) == Ok((Collect(rq, a).value.0 + Collect(rq, b).value.0,
                                      Collect(rq, a).value.1 || Collect(rq, b).value.1))
    ensures Collect(rq, a + b).Ok? <==> Collect(rq, a).Ok? && Collect(rq, b).Ok?
  {
    hide Judge;
    if |a| == 0 {
      assert a + b == b;
      if Collect(rq, b).Ok? {
        assert [] + Collect(rq, b).value.0 == Collect(rq, b).value.0;
      }
    } else {
      CollectConcat(rq, a[1..], b);
      assert (a + b)[0] == a[0] && (a + b)[1..] == a[1..] + b;
      if Collect(rq, a).Ok? && Collect(rq, b).Ok? {
        var head := if Judge(rq, a[0]).Deliver? then [Judge(rq, a[0]).item] else [];
        var x, y := Collect(rq, a[1..]).value.0, Collect(rq, b).value.0;
        assert head + (x + y) == (head + x) + y;
      }
    }
  }

  /** What a text delivers, seen as a whole. */
  function ItemsOf(rq: Request, text: string): Result<(seq<Item>, bool), Failure> { Collect(rq, Lines(text)) }

  lemma BlankLine(rq: Request, lines: seq<string>)
    requires |lines| == 1 && lines[0] == ""
    ensures Collect(rq, lines) == Ok(([], false))
  {
    var none: seq<Item> := [];
    assert Collect(rq, lines[1..]) == Ok((none, false)) && none + none == none;
  }

  lemma ItemsConcat(rq: Request, a: string, b: string)
    requires EndsCrlf(a)
    ensures ItemsOf(rq, a + b).Ok? <==> ItemsOf(rq, a).Ok? && ItemsOf(rq, b).Ok?
    ensures ItemsOf(rq, a + b).Ok? ==>
            ItemsOf(rq, a + b).value == (ItemsOf(rq, a).value.0 + ItemsOf(rq, b).value.0,
                                         ItemsOf(rq, a).value.1 || ItemsOf(rq, b).value.1)
  {
    LinesConcat(a, b);
    var lines := Lines(a);
    var front, last := lines[..|lines| - 1], lines[|lines| - 1..];
    assert lines == front + last;
    hide Lines, Collect;
    BlankLine(rq, last);
    CollectConcat(rq, front, last);
    CollectConcat(rq, front, Lines(b));
    if Collect(rq, front).Ok? {
      assert Collect(rq, front).value.0 + [] == Collect(rq, front).value.0;
    }
  }

  // ---- What a batch delivers, line by line -----------------------------------------

  /** `"\r\n".join(lines)` */
  function JoinLines(lines: seq<string>): string {
    if |lines| == 0 then "" else if |lines| == 1 then lines[0] else lines[0] + "\r\n" + JoinLines(lines[1..])
  }

  ghost predicate NoLineEnd(line: string) {
    forall i :: 0 <= i < |line| - 1 ==> !(line[i] == '\r' && line[i + 1] == '\n')
  }

  /** The lines hold no line end and put the text together again. */
  lemma {:induction false} LinesAre(s: string)
    ensures JoinLines(Lines(s)) == s
    ensures forall i :: 0 <= i < |Lines(s)| ==> NoLineEnd(Lines(s)[i])
    ensures Lines(s)[0] != "" ==> s != "" && Lines(s)[0][0] == s[0]
  {
    if |s| >= 2 {
      if s[0] == '\r' && s[1] == '\n' {
        LinesAre(s[2..]);
        JoinFirst("", Lines(s[2..]));
        assert s == "" + "\r\n" + s[2..];
      } else {
        var rest := Lines(s[1..]);
        LinesAre(s[1..]);
        JoinLonger(s[0], rest);
        assert s == [s[0]] + s[1..];
        var first := [s[0]] + rest[0];
        assert NoLineEnd(first) by {
          assert forall i :: 0 < i < |first| ==> first[i] == rest[0][i - 1];
          assert rest[0] != "" ==> rest[0][0] == s[1];
        }
        assert forall i :: 0 < i < |Lines(s)| ==> Lines(s)[i] == rest[i];
      }
    }
  }

  lemma JoinFirst(line: string, rest: seq<string>)
    requires |rest| > 0
    ensures JoinLines([line] + rest) == line + "\r\n" + JoinLines(rest)
  {
    assert ([line] + rest)[1..] == rest;
  }

  lemma JoinSingle(line: string)
    ensures JoinLines([line]) == line
  {
  }

  lemma JoinLonger(c: char, lines: seq<string>)
    requires |lines| > 0
    ensures JoinLines([[c] + lines[0]] + lines[1..]) == [c] + JoinLines(lines)
  {
    hide JoinLines;
    var first, rest := lines[0], lines[1..];
    assert lines == [first] + rest;
    if |rest| == 0 {
      JoinSingle(first);
      JoinSingle([c] + first);
      assert lines == [first] && [[c] + first] + rest == [[c] + first];
    } else {
      JoinFirst(first, rest);
      JoinFirst([c] + first, rest);
      Associate([c], first, "\r\n", JoinLines(rest));
    }
  }

  lemma Associate(a: string, b: string, c: string, d: string)
    ensures a + b + c + d == a + (b + c + d)
  {
  }

  /** The answer to the PING of this request. */
  ghost predicate IsSyncPong(rq: Request, line: string) {
    && line != "" && ParseMessage(line).Ok? && ParseMessage(line).value.command == "PONG"
    && rq.token.Some? && rq.token.value in ParseMessage(line).value.params
  }

  /** A numeric that says the PING came too early, or that is too short to tell. */
  ghost predicate IsTooEarly(rq: Request, line: string) {
    && line != "" && ParseMessage(line).Ok? && ParseMessage(line).value.command == "451" && rq.token.Some?
    && (|ParseMessage(line).value.params| < 2 || ParseMessage(line).value.params[1] == "PING")
  }

  /** The item made of a line: the line itself if raw ones are asked for, and else the parsed message. */
  ghost predicate IsItemOf(rq: Request, line: string, item: Item) {
    line != "" && ParseMessage(line).Ok? && item == if rq.raw then Raw(line) else Parsed(ParseMessage(line).value)
  }

  lemma JudgeIs(rq: Request, line: string)
    ensures var v := Judge(rq, line);
            && (v.Skip? <==> line == "") && (v.Pong? <==> IsSyncPong(rq, line))
            && (v.Deliver? ==> IsItemOf(rq, line, v.item))
            && (v.Raise? <==> line != "" && (ParseMessage(line).Err? || IsTooEarly(rq, line)))
            && (v.Raise? ==>
                  v.failure == if ParseMessage(line).Err? then BadLine
                               else if |ParseMessage(line).value.params| < 2 then NoSecondParam else NotRegistered)
  {
    hide ParseMessage;
  }

  /** The items are made of the lines that are neither blank nor the synchronisation PONG, in their
      order; and it is known whether there was such a PONG. */
  lemma {:induction false} CollectIs(rq: Request, lines: seq<string>) returns (at: seq<nat>)
    requires Collect(rq, lines).Ok?
    ensures var (items, pong) := Collect(rq, lines).value;
            && |at| == |items|
            && (forall i :: 0 <= i < |at| ==> at[i] < |lines| && IsItemOf(rq, lines[at[i]], items[i]))
            && (forall i, j :: 0 <= i < j < |at| ==> at[i] < at[j])
            && (forall k: nat :: k < |lines| ==> (k in at <==> lines[k] != "" && !IsSyncPong(rq, lines[k])))
            && (pong <==> exists k :: 0 <= k < |lines| && IsSyncPong(rq, lines[k]))
  {
    hide Judge, IsItemOf, IsSyncPong, IsTooEarly;
    if |lines| == 0 {
      at := [];
    } else {
      var init, last := lines[..|lines| - 1], lines[|lines| - 1];
      assert lines == init + [last];
      CollectConcat(rq, init, [last]);
      CollectOne(rq, last);
      JudgeIs(rq, last);
      var before := CollectIs(rq, init);
      at := before + (if Judge(rq, last).Deliver? then [|lines| - 1] else []);
      assert forall k :: 0 <= k < |init| ==> lines[k] == init[k];
    }
  }

  /** A batch fails at its first line that cannot be parsed or says that the PING came too early. */
  lemma {:induction false} CollectFailure(rq: Request, lines: seq<string>) returns (k: nat)
    requires Collect(rq, lines).Err?
    ensures k < |lines| && lines[k] != "" && (ParseMessage(lines[k]).Err? || IsTooEarly(rq, lines[k]))
    ensures forall i :: 0 <= i < k ==> lines[i] == "" || (ParseMessage(lines[i]).Ok? && !IsTooEarly(rq, lines[i]))
    ensures Collect(rq, lines).error ==
            if ParseMessage(lines[k]).Err? then BadLine
            else if |ParseMessage(lines[k]).value.params| < 2 then NoSecondParam else NotRegistered
  {
    hide Judge, ParseMessage, IsTooEarly;
    JudgeIs(rq, lines[0]);
    CollectFirst(rq, lines);
    if Judge(rq, lines[0]).Raise? {
      k := 0;
    } else {
      var later := CollectFailure(rq, lines[1..]);
      k := later + 1;
      assert lines[1..][later] == lines[k];
      assert forall i :: 0 < i < k ==> lines[i] == lines[1..][i - 1];
    }
  }

  // ---- getMessages ---------------------------------------------------------

  datatype Outcome =
    | Returned(messages: seq<Item>)      // the loop ended
    | Idle                               // nothing came in: an empty list
    | ClosedWith(messages: seq<Item>)    // connection closed, with messages to return
    | Closed                             // ConnectionClosed
    | Failed(failure: Failure)           // another exception
    | Waiting                            // no event yet: the call is still in its loop

  /** The receive loop, from the pending data and the messages gathered so far. */
  function Receive(decode: Decoder, rq: Request, events: seq<Event>, data: Bytes, messages: seq<Item>)
    : (r: (Outcome, seq<Event>))
    ensures |r.1| <= |events| && (!r.0.Waiting? ==> |r.1| < |events|)
    decreases |events|
  {
    if |events| == 0 then (Waiting, [])
    else
      var rest := events[1..];
      match events[0]
      case Timeout =>
        if !rq.assertGetOne && rq.token.None? && data == [] then (Idle, rest)
        else Receive(decode, rq, rest, data, messages)
      case Reset => (if messages != [] then ClosedWith(messages) else Closed, rest)
      case Data(new_) =>
        if new_ == [] then (if messages != [] then ClosedWith(messages) else Closed, rest)
        else if !EndsCrlf(new_) then Receive(decode, rq, rest, data + new_, messages)
        else
          match decode(data + new_)
          case None => (Failed(NotDecodable), rest)
          case Some(text) =>
            match ItemsOf(rq, text)
            case Err(f) => (Failed(f), rest)
            case Ok((items, pong)) =>
              if pong || rq.token.None? then (Returned(messages + items), rest)
              else Receive(decode, rq, rest, [], messages + items)
  }

  /** A client and its history: what was handed out to a caller or discarded by a filter, what the
      wire delivered, and whether a call has dropped something on its way out. */
  datatype World = World(
    inbuffer: seq<Item>, incoming: seq<Event>, ticks: nat,
    handed: seq<Item>, wire: seq<Item>, lossy: bool)

  /** What a stretch of bytes delivers, read as one text. */
  function WireItems(decode: Decoder, rq: Request, bytes: Bytes): seq<Item> {
    if decode(bytes).None? then []
    else
      match ItemsOf(rq, decode(bytes).value)
      case Ok((items, _)) => items
      case Err(_) => []
  }

  /** The events a call consumed: all but what it left. */
  function Used(events: seq<Event>, rest: seq<Event>): seq<Event>
    requires |rest| <= |events|
  {
    events[..|events| - |rest|]
  }

  /** `getMessages`: `inbuffer` is swapped out before the loop, so it is empty afterwards whatever
      happens. */
  function RefillStep(decode: Decoder, rq: Request, w: World): (World, Outcome) {
    var (o, rest) := Receive(decode, rq, w.incoming, [], w.inbuffer);
    var items := WireItems(decode, rq, Received(Used(w.incoming, rest)));
    (w.(inbuffer := [], incoming := rest, ticks := w.ticks + 1,
        wire := if o.Returned? then w.wire + items else w.wire,
        lossy := w.lossy || !(o.Returned? || (o.Idle? && w.inbuffer == []))),
     o)
  }

  /** The messages with which `getMessages` returns, if it does. */
  function Messages(o: Outcome): Option<seq<Item>> {
    match o
    case Returned(ms) => Some(ms)
    case Idle => Some([])
    case ClosedWith(ms) => Some(ms)
    case _ => None
  }

  function HandOut(w: World, items: seq<Item>): World { w.(handed := w.handed + items) }

  /** A call of `getMessages` by a test, which is handed all it returns. */
  function GetMessagesStep(decode: Decoder, rq: Request, w: World): (World, Outcome) {
    var (w', o) := RefillStep(decode, rq, w);
    (HandOut(w', if Messages(o).Some? then Messages(o).value else []), o)
  }

  // ---- getMessage ----------------------------------------------------------

  datatype MessageOutcome =
    | Got(item: Item)
    | NoMessage           // NoMessageException
    | Broken(o: Outcome)  // getMessages did not return

  /** What a call of `getMessage` asks for. Each refill synchronises with a token of its own. */
  datatype MessageRequest = MessageRequest(clock: nat -> string, synchronize: bool, raw: bool, accept: Item -> bool) {
    function At(tick: nat): Request {
      Request(if synchronize then Some(clock(tick)) else None, true, raw)
    }
  }

  function GetMessageStep(decode: Decoder, mr: MessageRequest, w: World): (World, MessageOutcome)
    decreases |w.incoming|, |w.inbuffer|
  {
    if w.inbuffer == [] then
      var (w', o) := RefillStep(decode, mr.At(w.ticks), w);
      assert !o.Waiting? ==> |w'.incoming| < |w.incoming|;
      match Messages(o)
      case None => (w', Broken(o))
      case Some(ms) =>
        if ms == [] then (w', NoMessage)
        else GetMessageStep(decode, mr, w'.(inbuffer := ms))
    else
      var w' := HandOut(w.(inbuffer := w.inbuffer[1..]), [w.inbuffer[0]]);
      if mr.accept(w.inbuffer[0]) then (w', Got(w.inbuffer[0]))
      else GetMessageStep(decode, mr, w')
  }

  /** The message returned passes the filter, and it is the first that does: whatever else was handed
      out in the call, and all of it if there was no such message, was refused. */
  lemma {:induction false} GetMessageFilters(decode: Decoder, mr: MessageRequest, w: World)
    returns (skipped: seq<Item>)
    ensures forall x :: x in skipped ==> !mr.accept(x)
    ensures var (w', o) := GetMessageStep(decode, mr, w);
            if o.Got? then mr.accept(o.item) && w'.handed == w.handed + skipped + [o.item]
            else w'.handed == w.handed + skipped && w'.inbuffer == []
    decreases |w.incoming|, |w.inbuffer|
  {
    hide RefillStep;
    skipped := [];
    if w.inbuffer == [] {
      var (w', o) := RefillStep(decode, mr.At(w.ticks), w);
      RefillShrinks(decode, mr.At(w.ticks), w);
      RefillKeepsHanded(decode, mr.At(w.ticks), w);
      if Messages(o).Some? && Messages(o).value != [] {
        skipped := GetMessageFilters(decode, mr, w'.(inbuffer := Messages(o).value));
      } else {
        assert w.handed + skipped == w.handed;
      }
    } else {
      var first := w.inbuffer[0];
      var w' := HandOut(w.(inbuffer := w.inbuffer[1..]), [first]);
      if mr.accept(first) {
        assert w.handed + skipped + [first] == w.handed + [first];
      } else {
        var more := GetMessageFilters(decode, mr, w');
        skipped := [first] + more;
        assert w.handed + skipped == w.handed + [first] + more;
      }
    }
  }

  /** The refills of `getMessage` insist on getting something, and synchronise when asked to. */
  lemma RefillRequestIs(decode: Decoder, mr: MessageRequest, w: World)
    requires w.inbuffer == []
    ensures exists rq: Request :: rq.assertGetOne && rq.raw == mr.raw && (rq.token.Some? <==> mr.synchronize)
              && var (w', o) := RefillStep(decode, rq, w);
              && !o.Idle?
              && (Messages(o).None? ==> GetMessageStep(decode, mr, w) == (w', Broken(o)))
              && (Messages(o) == Some([]) ==> GetMessageStep(decode, mr, w) == (w', NoMessage))
              && (Messages(o).Some? && Messages(o).value != [] ==>
                    GetMessageStep(decode, mr, w) == GetMessageStep(decode, mr, w'.(inbuffer := Messages(o).value)))
  {
    hide Receive;
    var rq := mr.At(w.ticks);
    NeverIdle(decode, rq, w.incoming, [], w.inbuffer);
    RefillShrinks(decode, rq, w);
    var (w', o) := RefillStep(decode, rq, w);
  }

  lemma RefillKeepsHanded(decode: Decoder, rq: Request, w: World)
    ensures RefillStep(decode, rq, w).0.handed == w.handed && RefillStep(decode, rq, w).0.inbuffer == []
  {
  }

  // ---- The class -----------------------------------------------------------

  class Client {
    const decode: Decoder
    var inbuffer: seq<Item>
    var incoming: seq<Event>
    var ticks: nat
    ghost var handed: seq<Item>
    ghost var wire: seq<Item>
    ghost var lossy: bool

    ghost function Abstract(): World
      reads this
    {
      World(inbuffer, incoming, ticks, handed, wire, lossy)
    }

    constructor (decode: Decoder, incoming: seq<Event>)
      ensures this.decode == decode && Abstract() == World([], incoming, 0, [], [], false)
    {
      this.decode := decode;
      this.inbuffer, this.incoming, this.ticks := [], incoming, 0;
      this.handed, this.wire, this.lossy := [], [], false;
    }

    method GetMessages(rq: Request) returns (r: Outcome)
      modifies this
      ensures (Abstract(), r) == RefillStep(decode, rq, old(Abstract()))
    {
      hide ItemsOf;
      var gotPong := false;
      var data: Bytes := [];
      var messages := inbuffer;
      inbuffer := [];
      ticks := ticks + 1;
      ghost var before := incoming;
      r := Waiting;
      var done := false;
      while !gotPong && !done
        invariant handed == old(handed) && wire == old(wire) && lossy == old(lossy)
        invariant inbuffer == [] && ticks == old(ticks) + 1
        invariant if gotPong then Receive(decode, rq, before, [], old(inbuffer)) == (Returned(messages), incoming)
                  else if done then Receive(decode, rq, before, [], old(inbuffer)) == (r, incoming)
                  else Receive(decode, rq, before, [], old(inbuffer)) == Receive(decode, rq, incoming, data, messages)
        invariant done ==> !r.Returned? && !gotPong
        decreases |incoming|, !done
      {
        if incoming == [] {
          r := Waiting;
          done := true;
          continue;
        }
        var event := incoming[0];
        incoming := incoming[1..];
        if event.Timeout? {
          if !rq.assertGetOne && rq.token.None? && data == [] {
            r := Idle;
            done := true;
          }
          continue;
        }
        if event.Reset? || event.bytes == [] {
          r := if messages != [] then ClosedWith(messages) else Closed;
          done := true;
          continue;
        }
        data := data + event.bytes;
        if !EndsCrlf(event.bytes) {
          continue;
        }
        var decoded := decode(data);
        if decoded.None? {
          r := Failed(NotDecodable);
          done := true;
          continue;
        }
        var batch := ReadLines(rq, decoded.value);
        if batch.Err? {
          r := Failed(batch.error);
          done := true;
          continue;
        }
        var (items, pong) := batch.value;
        messages := messages + items;
        gotPong := pong || rq.token.None?;
        data := [];
      }
      if !done {
        r := Returned(messages);
      }
      wire := if r.Returned? then wire + WireItems(decode, rq, Received(Used(before, incoming))) else wire;
      lossy := lossy || !(r.Returned? || (r.Idle? && old(inbuffer) == []));
    }

    /** The inner loop over the lines of decoded data. */
    method ReadLines(rq: Request, text: string) returns (r: Result<(seq<Item>, bool), Failure>)
      ensures r == ItemsOf(rq, text)
    {
      hide Judge;
      var lines := Lines(text);
      var items: seq<Item> := [];
      var pong := false;
      for i := 0 to |lines|
        invariant Collect(rq, lines[..i]) == Ok((items, pong))
      {
        assert lines[..i + 1] == lines[..i] + [lines[i]];
        assert lines == lines[..i + 1] + lines[i + 1..];
        CollectOne(rq, lines[i]);
        CollectConcat(rq, lines[..i], [lines[i]]);
        CollectConcat(rq, lines[..i + 1], lines[i + 1..]);
        match Judge(rq, lines[i]) {
          case Raise(f) =>
            CollectFails(rq, lines, i);
            return Err(f);
          case Skip =>
            assert items + [] == items;
          case Pong =>
            pong := true;
            assert items + [] == items;
          case Deliver(item) =>
            items := items + [item];
        }
      }
      assert lines[..|lines|] == lines;
      r := Ok((items, pong));
    }

    method GetMessage(mr: MessageRequest) returns (r: MessageOutcome)
      modifies this
      ensures (Abstract(), r) == GetMessageStep(decode, mr, old(Abstract()))
    {
      hide RefillStep;
      while true
        invariant GetMessageStep(decode, mr, Abstract()) == GetMessageStep(decode, mr, old(Abstract()))
        decreases |incoming|, |inbuffer|
      {
        if inbuffer == [] {
          ghost var w := Abstract();
          RefillShrinks(decode, mr.At(ticks), w);
          var o := GetMessages(mr.At(ticks));
          var messages := Messages(o);
          assert RefillStep(decode, mr.At(w.ticks), w) == (Abstract(), o);
          if messages.None? {
            assert GetMessageStep(decode, mr, w) == (Abstract(), Broken(o));
            return Broken(o);
          }
          inbuffer := messages.value;
        }
        if inbuffer == [] {
          return NoMessage;
        }
        var message := inbuffer[0];
        inbuffer := inbuffer[1..];
        handed := handed + [message];
        if mr.accept(message) {
          return Got(message);
        }
      }
    }
  }

  /** A test's call of `getMessages`: all it returns is handed out. */
  method TakeAll(client: Client, rq: Request) returns (r: Outcome)
    modifies client
    ensures (client.Abstract(), r) == GetMessagesStep(client.decode, rq, old(client.Abstract()))
  {
    hide RefillStep;
    r := client.GetMessages(rq);
    client.handed := client.handed + (if Messages(r).Some? then Messages(r).value else []);
  }

  lemma RefillShrinks(decode: Decoder, rq: Request, w: World)
    ensures var (w', o) := RefillStep(decode, rq, w);
            && (Messages(o).Some? ==> |w'.incoming| < |w.incoming|) && w'.inbuffer == []
  {
  }

  lemma CollectOne(rq: Request, line: string)
    ensures Collect(rq, [line]) ==
            match Judge(rq, line)
            case Raise(f) => Err(f)
            case Deliver(item) => Ok(([item], false))
            case Skip => Ok(([], false))
            case Pong => Ok(([], true))
  {
    hide Judge;
    var lines := [line];
    var none: seq<Item> := [];
    assert |lines[1..]| == 0 && Collect(rq, lines[1..]) == Ok((none, false));
    assert none + none == none;
    if Judge(rq, line).Deliver? {
      assert [Judge(rq, line).item] + none == [Judge(rq, line).item];
    }
  }

  lemma CollectFirst(rq: Request, lines: seq<string>)
    requires |lines| > 0
    ensures Judge(rq, lines[0]).Raise? ==> Collect(rq, lines) == Err(Judge(rq, lines[0]).failure)
    ensures !Judge(rq, lines[0]).Raise? && Collect(rq, lines[1..]).Err? ==>
            Collect(rq, lines) == Err(Collect(rq, lines[1..]).error)
    ensures Collect(rq, lines).Ok? ==> !Judge(rq, lines[0]).Raise? && Collect(rq, lines[1..]).Ok?
  {
    hide Judge;
  }

  lemma {:induction false} CollectFails(rq: Request, lines: seq<string>, i: nat)
    requires i < |lines| && Collect(rq, lines[..i]).Ok? && Judge(rq, lines[i]).Raise?
    ensures Collect(rq, lines) == Err(Judge(rq, lines[i]).failure)
    decreases i
  {
    hide Judge, Collect;
    CollectFirst(rq, lines);
    if i > 0 {
      var front := lines[..i];
      assert front[0] == lines[0] && front[1..] == lines[1..][..i - 1] && lines[1..][i - 1] == lines[i];
      CollectFirst(rq, front);
      CollectFails(rq, lines[1..], i - 1);
    }
  }

  /** What a receive leaves is the end of the events. */
  lemma {:induction false} ReceiveLeavesSuffix(decode: Decoder, rq: Request, events: seq<Event>, data: Bytes,
                                               messages: seq<Item>)
    ensures var rest := Receive(decode, rq, events, data, messages).1; rest == events[|events| - |rest|..]
    decreases |events|
  {
    hide ItemsOf;
    if |events| > 0 {
      forall d: Bytes, ms
        ensures var rest := Receive(decode, rq, events[1..], d, ms).1; rest == events[|events| - |rest|..]
      {
        ReceiveLeavesSuffix(decode, rq, events[1..], d, ms);
        var rest := Receive(decode, rq, events[1..], d, ms).1;
        assert events[1..][|events| - 1 - |rest|..] == events[|events| - |rest|..];
      }
    }
  }

  // ---- Framing ---------------------------------------------------------------

  lemma ReceivedFirst(e: Event, more: seq<Event>)
    ensures Received([e] + more) == (if e.Data? then e.bytes else []) + Received(more)
  {
    assert ([e] + more)[1..] == more;
  }

  lemma EndsCrlfConcat(a: Bytes, b: Bytes)
    requires EndsCrlf(b)
    ensures EndsCrlf(a + b)
  {
  }

  /** Framing loses and reorders nothing: when the loop ends by itself, all the bytes received since
      the last flush were whole lines, and the messages are those gathered before and what these
      bytes deliver as one text, in order. So the way the bytes were cut into chunks cannot be seen
      in the result. */
  lemma {:induction false} Framing(decode: Decoder, rq: Request, events: seq<Event>, data: Bytes, messages: seq<Item>)
    requires DecodesLines(decode) && Receive(decode, rq, events, data, messages).0.Returned?
    ensures var (o, rest) := Receive(decode, rq, events, data, messages);
            Delivers(decode, rq, data + Received(Used(events, rest)), messages, o.messages)
    decreases |events|
  {
    hide ItemsOf, DecodesLines, Delivers;
    var (o, rest) := Receive(decode, rq, events, data, messages);
    assert Used(events, rest) == [events[0]] + Used(events[1..], rest);
    var more := Received(Used(events[1..], rest));
    ReceivedFirst(events[0], Used(events[1..], rest));
    match events[0] {
      case Timeout =>
        Framing(decode, rq, events[1..], data, messages);
        assert data + ([] + more) == data + more;
      case Data(new_) =>
        assert data + (new_ + more) == (data + new_) + more;
        if !EndsCrlf(new_) {
          Framing(decode, rq, events[1..], data + new_, messages);
        } else {
          EndsCrlfConcat(data, new_);
          var (items, pong) := ItemsOf(rq, decode(data + new_).value).value;
          if pong || rq.token.None? {
            assert |Used(events[1..], rest)| == 0 && more == [];
            FlushEnds(decode, rq, data + new_, messages);
            assert (data + new_) + more == data + new_;
          } else {
            Framing(decode, rq, events[1..], [], messages + items);
            assert [] + more == more;
            FlushContinues(decode, rq, data + new_, more, messages, o.messages);
          }
        }
    }
  }

  /** Whole lines that deliver, after some messages, all the given ones and end the loop. */
  ghost predicate Delivers(decode: Decoder, rq: Request, bytes: Bytes, before: seq<Item>, after: seq<Item>) {
    && EndsCrlf(bytes) && decode(bytes).Some? && ItemsOf(rq, decode(bytes).value).Ok?
    && var (items, pong) := ItemsOf(rq, decode(bytes).value).value;
    && after == before + items && (pong || rq.token.None?)
  }

  /** A whole call starts with nothing pending. */
  lemma FramingOfCall(decode: Decoder, rq: Request, events: seq<Event>, messages: seq<Item>)
    requires DecodesLines(decode) && Receive(decode, rq, events, [], messages).0.Returned?
    ensures var (o, rest) := Receive(decode, rq, events, [], messages);
            Delivers(decode, rq, Received(Used(events, rest)), messages, o.messages)
  {
    hide DecodesLines, Receive, Received, Used, Delivers;
    var bytes := Received(Used(events, Receive(decode, rq, events, [], messages).1));
    Framing(decode, rq, events, [], messages);
    assert [] + bytes == bytes;
  }

  lemma DeliversWireItems(decode: Decoder, rq: Request, bytes: Bytes, before: seq<Item>, after: seq<Item>)
    requires Delivers(decode, rq, bytes, before, after)
    ensures after == before + WireItems(decode, rq, bytes)
  {
    hide ItemsOf, EndsCrlf;
  }

  lemma DeliversAlone(decode: Decoder, rq: Request, bytes: Bytes, before: seq<Item>, after: seq<Item>)
    requires Delivers(decode, rq, bytes, before, after)
    ensures Delivers(decode, rq, bytes, [], WireItems(decode, rq, bytes))
  {
    hide ItemsOf, EndsCrlf;
    var items := WireItems(decode, rq, bytes);
    assert [] + items == items;
  }

  lemma FlushEnds(decode: Decoder, rq: Request, bytes: Bytes, messages: seq<Item>)
    requires EndsCrlf(bytes) && decode(bytes).Some? && ItemsOf(rq, decode(bytes).value).Ok?
    requires ItemsOf(rq, decode(bytes).value).value.1 || rq.token.None?
    ensures Delivers(decode, rq, bytes, messages, messages + ItemsOf(rq, decode(bytes).value).value.0)
  {
  }

  lemma FlushContinues(decode: Decoder, rq: Request, bytes: Bytes, more: Bytes, messages: seq<Item>, after: seq<Item>)
    requires DecodesLines(decode)
    requires EndsCrlf(bytes) && decode(bytes).Some? && ItemsOf(rq, decode(bytes).value).Ok?
    requires Delivers(decode, rq, more, messages + ItemsOf(rq, decode(bytes).value).value.0, after)
    ensures Delivers(decode, rq, bytes + more, messages, after)
  {
    hide ItemsOf, DecodesLines;
    EndsCrlfConcat(bytes, more);
    DecodeConcat(decode, bytes, more);
    ItemsConcat(rq, decode(bytes).value, decode(more).value);
  }

  lemma DecodeConcat(decode: Decoder, a: Bytes, b: Bytes)
    requires DecodesLines(decode) && EndsCrlf(a)
    ensures decode(a + b).Some? <==> decode(a).Some? && decode(b).Some?
    ensures decode(a + b).Some? ==> decode(a + b).value == decode(a).value + decode(b).value
    ensures decode(a).Some? ==> EndsCrlf(decode(a).value)
  {
  }

  // ---- Any cut of a stream -----------------------------------------------------

  /** The stream as chunks of any length, with timeouts in between, and no end of connection. */
  predicate OnlyChunks(events: seq<Event>) {
    forall i :: 0 <= i < |events| ==> events[i].Timeout? || (events[i].Data? && events[i].bytes != [])
  }

  function LastChunk(events: seq<Event>): Bytes {
    if |events| == 0 then []
    else if Received(events[1..]) != [] then LastChunk(events[1..])
    else if events[0].Data? then events[0].bytes else []
  }

  /** Whether whole lines contain the answer to the synchronising PING. */
  ghost predicate HasPong(decode: Decoder, rq: Request, bytes: Bytes) {
    decode(bytes).Some? && ItemsOf(rq, decode(bytes).value).Ok? && ItemsOf(rq, decode(bytes).value).value.1
  }

  /** A stream of whole, readable lines of which only the last completes the synchronisation. */
  ghost predicate Synchronises(decode: Decoder, rq: Request, bytes: Bytes) {
    && EndsCrlf(bytes) && HasPong(decode, rq, bytes)
    && forall k :: 0 <= k < |bytes| && EndsCrlf(bytes[..k]) ==> !HasPong(decode, rq, bytes[..k])
  }

  lemma {:induction false} NothingReceived(events: seq<Event>)
    requires OnlyChunks(events) && Received(events) == []
    ensures forall i :: 0 <= i < |events| ==> events[i].Timeout?
  {
    if |events| > 0 {
      NothingReceived(events[1..]);
    }
  }

  lemma {:induction false} OnlyTimeouts(decode: Decoder, rq: Request, events: seq<Event>, data: Bytes,
                                        messages: seq<Item>)
    requires rq.token.Some? && forall i :: 0 <= i < |events| ==> events[i].Timeout?
    ensures Receive(decode, rq, events, data, messages).0 == Waiting
    decreases |events|
  {
    if |events| > 0 {
      OnlyTimeouts(decode, rq, events[1..], data, messages);
    }
  }

  lemma {:induction false} LastChunkEnds(events: seq<Event>)
    ensures Received(events) != [] && EndsCrlf(LastChunk(events)) ==> EndsCrlf(Received(events))
  {
    if |events| > 0 {
      LastChunkEnds(events[1..]);
      var head := if events[0].Data? then events[0].bytes else [];
      if Received(events[1..]) != [] {
        if EndsCrlf(LastChunk(events)) {
          EndsCrlfConcat(head, Received(events[1..]));
        }
      } else {
        assert head + Received(events[1..]) == head;
      }
    }
  }

  /** A prefix of whole lines of a readable stream is readable, and so is what follows it. */
  lemma PrefixIsReadable(decode: Decoder, rq: Request, prefix: Bytes, more: Bytes)
    requires DecodesLines(decode) && EndsCrlf(prefix) && HasPong(decode, rq, prefix + more)
    ensures decode(prefix).Some? && decode(more).Some?
    ensures ItemsOf(rq, decode(prefix).value).Ok? && ItemsOf(rq, decode(more).value).Ok?
    ensures HasPong(decode, rq, prefix) || HasPong(decode, rq, more)
  {
    hide ItemsOf, DecodesLines;
    DecodeConcat(decode, prefix, more);
    ItemsConcat(rq, decode(prefix).value, decode(more).value);
  }

  /** A flush in the middle of the stream, or at its end. */
  lemma FlushInStream(decode: Decoder, rq: Request, flushed: Bytes, data: Bytes, more: Bytes)
    requires DecodesLines(decode) && (flushed == [] || EndsCrlf(flushed)) && EndsCrlf(data)
    requires Synchronises(decode, rq, flushed + data + more)
    ensures decode(data).Some? && ItemsOf(rq, decode(data).value).Ok?
    ensures HasPong(decode, rq, data) <==> more == []
  {
    hide ItemsOf, DecodesLines, EndsCrlf;
    var prefix := flushed + data;
    EndsCrlfConcat(flushed, data);
    PrefixIsReadable(decode, rq, prefix, more);
    assert (prefix + more)[..|prefix|] == prefix;
    if flushed == [] {
      assert prefix == data;
    } else {
      DecodeConcat(decode, flushed, data);
      ItemsConcat(rq, decode(flushed).value, decode(data).value);
      assert (prefix + more)[..|flushed|] == flushed;
      assert EndsCrlf(data) ==> |data| > 0 by { LongEnough(data); }
    }
    if more == [] {
      assert prefix + more == prefix;
    }
  }

  lemma LongEnough(a: Bytes)
    ensures EndsCrlf(a) ==> |a| >= 2
  {
  }

  /** One event of a call that synchronises, on a stream of chunks. */
  lemma ReceiveFirst(decode: Decoder, rq: Request, events: seq<Event>, data: Bytes, messages: seq<Item>)
    requires rq.token.Some? && |events| > 0 && (events[0].Timeout? || (events[0].Data? && events[0].bytes != []))
    ensures var rest, r := events[1..], Receive(decode, rq, events, data, messages);
            match events[0]
            case Timeout => r == Receive(decode, rq, rest, data, messages)
            case Data(new_) =>
              if !EndsCrlf(new_) then r == Receive(decode, rq, rest, data + new_, messages)
              else decode(data + new_).Some? && ItemsOf(rq, decode(data + new_).value).Ok? ==>
                   var (items, pong) := ItemsOf(rq, decode(data + new_).value).value;
                   r == if pong then (Returned(messages + items), rest)
                        else Receive(decode, rq, rest, [], messages + items)
  {
    hide ItemsOf, EndsCrlf;
  }

  lemma {:induction false} CutFrom(decode: Decoder, rq: Request, events: seq<Event>, flushed: Bytes, data: Bytes,
                                   messages: seq<Item>)
    requires DecodesLines(decode) && rq.token.Some? && OnlyChunks(events) && Received(events) != []
    requires flushed == [] || EndsCrlf(flushed)
    requires Synchronises(decode, rq, flushed + data + Received(events))
    ensures var (o, left) := Receive(decode, rq, events, data, messages);
            if EndsCrlf(LastChunk(events)) then o.Returned? && Received(left) == [] else o.Waiting?
    decreases |events|
  {
    hide ItemsOf, DecodesLines, Synchronises, HasPong, EndsCrlf, Receive;
    var rest := events[1..];
    ReceiveFirst(decode, rq, events, data, messages);
    var more := Received(rest);
    match events[0] {
      case Timeout =>
        assert Received(events) == more;
        CutFrom(decode, rq, rest, flushed, data, messages);
      case Data(new_) =>
        assert Received(events) == new_ + more;
        if more == [] {
          NothingReceived(rest);
        }
        if !EndsCrlf(new_) {
          if more == [] {
            OnlyTimeouts(decode, rq, rest, data + new_, messages);
          } else {
            assert flushed + data + (new_ + more) == flushed + (data + new_) + more;
            CutFrom(decode, rq, rest, flushed, data + new_, messages);
          }
        } else {
          EndsCrlfConcat(data, new_);
          assert flushed + data + (new_ + more) == flushed + (data + new_) + more;
          FlushInStream(decode, rq, flushed, data + new_, more);
          PongIs(decode, rq, data + new_);
          if more != [] {
            var next := flushed + (data + new_);
            EndsCrlfConcat(flushed, data + new_);
            assert next + [] + more == flushed + (data + new_) + more;
            CutFrom(decode, rq, rest, next, [], messages + ItemsOf(rq, decode(data + new_).value).value.0);
          }
        }
    }
  }

  lemma PongIs(decode: Decoder, rq: Request, bytes: Bytes)
    requires decode(bytes).Some? && ItemsOf(rq, decode(bytes).value).Ok?
    ensures HasPong(decode, rq, bytes) <==> ItemsOf(rq, decode(bytes).value).value.1
  {
  }

  lemma {:induction false} ReceivedConcat(a: seq<Event>, b: seq<Event>)
    ensures Received(a + b) == Received(a) + Received(b)
  {
    hide Received;
    if |a| == 0 {
      NothingIn(a);
      assert a + b == b && Received(a) + Received(b) == Received(b);
    } else {
      ReceivedConcat(a[1..], b);
      assert a == [a[0]] + a[1..] && a + b == [a[0]] + (a[1..] + b);
      ReceivedFirst(a[0], a[1..]);
      ReceivedFirst(a[0], a[1..] + b);
    }
  }

  /** However a stream that synchronises is cut and delayed, the call returns what the whole stream
      delivers, provided the last chunk ends with the line end; if the cut falls between the last
      carriage return and its newline, the call goes on waiting. */
  lemma AnyCut(decode: Decoder, rq: Request, events: seq<Event>, messages: seq<Item>)
    requires DecodesLines(decode) && rq.token.Some? && OnlyChunks(events)
    requires Synchronises(decode, rq, Received(events))
    ensures Receive(decode, rq, events, [], messages).0 ==
            if EndsCrlf(LastChunk(events))
            then Returned(messages + ItemsOf(rq, decode(Received(events)).value).value.0) else Waiting
  {
    hide ItemsOf, DecodesLines, Receive;
    assert [] + [] + Received(events) == Received(events);
    CutFrom(decode, rq, events, [], [], messages);
    if EndsCrlf(LastChunk(events)) {
      FramingOfCall(decode, rq, events, messages);
      var left := Receive(decode, rq, events, [], messages).1;
      ReceiveLeavesSuffix(decode, rq, events, [], messages);
      assert events == Used(events, left) + left;
      ReceivedConcat(Used(events, left), left);
      assert Received(Used(events, left)) + Received(left) == Received(Used(events, left));
    }
  }

  // ---- The end of the connection ---------------------------------------------------

  /** How many events there are up to the last chunk that ends a line. */
  function LastEnd(events: seq<Event>): (n: nat)
    ensures n <= |events|
  {
    if |events| == 0 then 0
    else
      var n := LastEnd(events[1..]);
      if n > 0 then n + 1 else if events[0].Data? && EndsCrlf(events[0].bytes) then 1 else 0
  }

  lemma {:induction false} LastEndEnds(events: seq<Event>)
    requires LastEnd(events) > 0
    ensures EndsCrlf(Received(events[..LastEnd(events)]))
  {
    hide EndsCrlf;
    var rest, n := events[1..], LastEnd(events);
    assert events[..n] == [events[0]] + rest[..n - 1];
    ReceivedFirst(events[0], rest[..n - 1]);
    if LastEnd(rest) > 0 {
      LastEndEnds(rest);
      EndsCrlfConcat(if events[0].Data? then events[0].bytes else [], Received(rest[..n - 1]));
    } else {
      assert |rest[..n - 1]| == 0 && Received(rest[..n - 1]) == [];
      assert events[0].bytes + [] == events[0].bytes;
    }
  }

  /** Whole lines without the answer to the PING, and the items they deliver. */
  ghost predicate Quiet(decode: Decoder, rq: Request, bytes: Bytes, items: seq<Item>) {
    EndsCrlf(bytes) && decode(bytes).Some? && ItemsOf(rq, decode(bytes).value) == Ok((items, false))
  }

  function Closing(messages: seq<Item>): Outcome { if messages == [] then Closed else ClosedWith(messages) }

  lemma QuietSplits(decode: Decoder, rq: Request, a: Bytes, b: Bytes, items: seq<Item>)
    requires DecodesLines(decode) && EndsCrlf(a) && EndsCrlf(b) && Quiet(decode, rq, a + b, items)
    ensures decode(a).Some? && ItemsOf(rq, decode(a).value).Ok? && decode(b).Some? && ItemsOf(rq, decode(b).value).Ok?
    ensures var x, y := ItemsOf(rq, decode(a).value).value.0, ItemsOf(rq, decode(b).value).value.0;
            Quiet(decode, rq, a, x) && Quiet(decode, rq, b, y) && items == x + y
  {
    hide ItemsOf, DecodesLines, EndsCrlf;
    DecodeConcat(decode, a, b);
    ItemsConcat(rq, decode(a).value, decode(b).value);
  }

  lemma ClosedFrom(decode: Decoder, rq: Request, end: Event, rest: seq<Event>, data: Bytes, messages: seq<Item>)
    requires end == Reset || end == Data([])
    ensures Receive(decode, rq, [end] + rest, data, messages) == (Closing(messages), rest)
  {
    assert ([end] + rest)[1..] == rest;
  }

  /** When the connection ends before the answer comes, all the messages of whole lines are returned, the
      ones buffered before included, and what follows the last line end is dropped; with no message at
      all, that is an error. */
  lemma {:induction false} EndOfConnection(decode: Decoder, rq: Request, events: seq<Event>, end: Event,
                                           rest: seq<Event>, data: Bytes, messages: seq<Item>, items: seq<Item>)
    requires DecodesLines(decode) && rq.token.Some? && OnlyChunks(events) && (end == Reset || end == Data([]))
    requires if LastEnd(events) == 0 then items == []
             else Quiet(decode, rq, data + Received(events[..LastEnd(events)]), items)
    ensures Receive(decode, rq, events + ([end] + rest), data, messages) == (Closing(messages + items), rest)
    decreases |events|
  {
    hide ItemsOf, DecodesLines, EndsCrlf, Receive, Received, Quiet;
    var all := events + ([end] + rest);
    if |events| == 0 {
      assert all == [end] + rest && messages + items == messages;
      ClosedFrom(decode, rq, end, rest, data, messages);
    } else {
      var more, n := events[1..], LastEnd(events);
      assert all[0] == events[0] && all[1..] == more + ([end] + rest);
      ReceiveFirst(decode, rq, all, data, messages);
      var new_ := if events[0].Data? then events[0].bytes else [];
      assert data + [] == data;
      if n > 0 {
        assert events[..n] == [events[0]] + more[..n - 1];
        ReceivedFirst(events[0], more[..n - 1]);
        assert data + (new_ + Received(more[..n - 1])) == data + new_ + Received(more[..n - 1]);
      }
      if events[0].Data? && EndsCrlf(new_) {
        EndsCrlfConcat(data, new_);
        FlushOnEnd(decode, rq, events, end, rest, data, messages, items);
      } else {
        EndOfConnection(decode, rq, more, end, rest, data + new_, messages, items);
      }
    }
  }

  lemma NothingIn(events: seq<Event>)
    requires |events| == 0
    ensures Received(events) == []
  {
  }

  lemma {:induction false} FlushOnEnd(decode: Decoder, rq: Request, events: seq<Event>, end: Event,
                                      rest: seq<Event>, data: Bytes, messages: seq<Item>, items: seq<Item>)
    requires DecodesLines(decode) && rq.token.Some? && OnlyChunks(events) && (end == Reset || end == Data([]))
    requires |events| > 0 && events[0].Data? && EndsCrlf(events[0].bytes) && EndsCrlf(data + events[0].bytes)
    requires Quiet(decode, rq, data + events[0].bytes + Received(events[1..][..LastEnd(events) - 1]), items)
    ensures Receive(decode, rq, events + ([end] + rest), data, messages) == (Closing(messages + items), rest)
    decreases |events|, 0
  {
    hide ItemsOf, DecodesLines, EndsCrlf, Receive, Received;
    var all, more, bytes := events + ([end] + rest), events[1..], data + events[0].bytes;
    assert all[0] == events[0] && all[1..] == more + ([end] + rest);
    ReceiveFirst(decode, rq, all, data, messages);
    var m := LastEnd(more);
    if m == 0 {
      NothingIn(more[..LastEnd(events) - 1]);
      assert bytes + [] == bytes;
      EndOfConnection(decode, rq, more, end, rest, [], messages + items, []);
      assert messages + items + [] == messages + items;
    } else {
      LastEndEnds(more);
      QuietSplits(decode, rq, bytes, Received(more[..m]), items);
      var x := ItemsOf(rq, decode(bytes).value).value.0;
      var y := ItemsOf(rq, decode(Received(more[..m])).value).value.0;
      assert [] + Received(more[..m]) == Received(more[..m]);
      EndOfConnection(decode, rq, more, end, rest, [], messages + x, y);
      assert messages + x + y == messages + (x + y);
    }
  }

  /** The place of the first chunk that ends a line, or the number of events when there is none. */
  function LineEnd(events: seq<Event>): (n: nat)
    ensures n <= |events|
    ensures n < |events| ==> events[n].Data? && EndsCrlf(events[n].bytes)
    ensures forall i :: 0 <= i < n ==> events[i].Data? ==> !EndsCrlf(events[i].bytes)
  {
    if |events| == 0 || (events[0].Data? && EndsCrlf(events[0].bytes)) then 0 else 1 + LineEnd(events[1..])
  }

  /** What a call makes of the bytes it has at that point. */
  function Flush(decode: Decoder, rq: Request, bytes: Bytes, messages: seq<Item>): Outcome {
    match decode(bytes)
    case None => Failed(NotDecodable)
    case Some(text) =>
      match ItemsOf(rq, text)
      case Err(f) => Failed(f)
      case Ok((items, _)) => Returned(messages + items)
  }

  /** One event of a call that does not synchronise. */
  lemma ReceiveUnsynchronised(decode: Decoder, rq: Request, events: seq<Event>, data: Bytes, messages: seq<Item>)
    requires rq.token.None? && |events| > 0 && OnlyChunks(events)
    requires rq.assertGetOne || data != [] || !events[0].Timeout?
    ensures var rest, r := events[1..], Receive(decode, rq, events, data, messages);
            match events[0]
            case Timeout => r == Receive(decode, rq, rest, data, messages)
            case Data(new_) =>
              r == if EndsCrlf(new_) then (Flush(decode, rq, data + new_, messages), rest)
                   else Receive(decode, rq, rest, data + new_, messages)
  {
    hide ItemsOf, EndsCrlf;
  }

  lemma OneReceived(events: seq<Event>)
    requires |events| == 1
    ensures Received(events) == if events[0].Data? then events[0].bytes else []
  {
    assert |events[1..]| == 0 && Received(events[1..]) == [];
    assert events[0].Data? ==> events[0].bytes + [] == events[0].bytes;
  }

  lemma {:induction false} StopsFrom(decode: Decoder, rq: Request, events: seq<Event>, data: Bytes, messages: seq<Item>)
    requires rq.token.None? && OnlyChunks(events)
    requires rq.assertGetOne || data != [] || |events| == 0 || !events[0].Timeout?
    ensures var n := LineEnd(events);
            Receive(decode, rq, events, data, messages) ==
            if n == |events| then (Waiting, [])
            else (Flush(decode, rq, data + Received(events[..n + 1]), messages), events[n + 1..])
    decreases |events|
  {
    hide ItemsOf, EndsCrlf, Receive, Flush, Received;
    if |events| == 0 {
      ReceiveNothing(decode, rq, events, data, messages);
    } else {
      var rest, n := events[1..], LineEnd(events);
      ReceiveUnsynchronised(decode, rq, events, data, messages);
      if n == 0 {
        OneReceived(events[..1]);
      } else {
        var new_ := if events[0].Data? then events[0].bytes else [];
        assert data + [] == data;
        StopsFrom(decode, rq, rest, data + new_, messages);
        if n < |events| {
          assert events[..n + 1] == [events[0]] + rest[..n];
          ReceivedFirst(events[0], rest[..n]);
          assert data + new_ + Received(rest[..n]) == data + (new_ + Received(rest[..n]));
          assert rest[n..] == events[n + 1..];
        }
      }
    }
  }

  lemma ReceiveNothing(decode: Decoder, rq: Request, events: seq<Event>, data: Bytes, messages: seq<Item>)
    requires |events| == 0
    ensures Receive(decode, rq, events, data, messages) == (Waiting, [])
  {
  }

  /** Without synchronising, the chunks do decide: the call stops at the first one that ends a line, with
      what has come in until then, and leaves the rest; before one has, it goes on waiting, unless
      nothing comes at all. */
  lemma StopsAtLine(decode: Decoder, rq: Request, events: seq<Event>, messages: seq<Item>)
    requires rq.token.None? && OnlyChunks(events)
    ensures var n := LineEnd(events);
            Receive(decode, rq, events, [], messages) ==
            if NothingComes(rq, events) then (Idle, events[1..])
            else if n == |events| then (Waiting, [])
            else (Flush(decode, rq, Received(events[..n + 1]), messages), events[n + 1..])
  {
    hide Flush, Received;
    if !NothingComes(rq, events) {
      StopsFrom(decode, rq, events, [], messages);
      var n := LineEnd(events);
      if n < |events| {
        assert [] + Received(events[..n + 1]) == Received(events[..n + 1]);
      }
    }
  }

  // ---- A stream and two cuts of it -------------------------------------------------

  lemma {:induction false} OneLine(line: string)
    requires '\r' !in line
    ensures Lines(line + "\r\n") == [line, ""]
  {
    var s := line + "\r\n";
    if |line| == 0 {
      assert s == "\r\n";
      LinesAfterEnd(s);
      var rest := s[2..];
      assert |rest| == 0 && Lines(rest) == [rest];
    } else {
      OneLine(line[1..]);
      LinesAfterChar(s);
      assert s[1..] == line[1..] + "\r\n" && [line[0]] + line[1..] == line;
    }
  }

  /** A single line that answers the PING is such a stream. */
  lemma OneLineSynchronises(rq: Request, line: Bytes)
    requires '\r' !in line && '\n' !in line && IsAscii(line) && Judge(rq, line).Pong?
    ensures Synchronises(DecodeAscii, rq, line + "\r\n")
    ensures ItemsOf(rq, line + "\r\n") == Ok(([], true))
  {
    hide Lines, Judge;
    var bytes := line + "\r\n";
    assert IsAscii(bytes);
    OneLine(line);
    var last: string := "";
    assert [line, last] == [line] + [last];
    CollectOne(rq, line);
    BlankLine(rq, [last]);
    CollectConcat(rq, [line], [last]);
    forall k | 0 <= k < |bytes| ensures !EndsCrlf(bytes[..k]) {
      if 2 <= k <= |line| {
        assert bytes[..k][k - 1] == line[k - 1];
      } else if k == |line| + 1 {
        assert bytes[..k][k - 1] == '\r';
      }
    }
  }

  lemma TwoChunks(x: Bytes, y: Bytes)
    requires x != [] && y != []
    ensures OnlyChunks([Data(x), Data(y)]) && Received([Data(x), Data(y)]) == x + y
    ensures LastChunk([Data(x), Data(y)]) == y
  {
    var second := [Data(y)];
    OneChunk(y);
    assert [Data(x), Data(y)][1..] == second;
  }

  lemma OneChunk(y: Bytes)
    requires y != []
    ensures OnlyChunks([Data(y)]) && Received([Data(y)]) == y && LastChunk([Data(y)]) == y
  {
    var one := [Data(y)];
    assert |one[1..]| == 0 && Received(one[1..]) == [] && y + [] == y;
  }

  /** Whole, the stream ends the call; cut before its final newline, it leaves the call waiting. */
  lemma CutBeforeNewline(rq: Request, line: Bytes, messages: seq<Item>)
    requires rq.token.Some? && '\r' !in line && '\n' !in line && IsAscii(line) && Judge(rq, line).Pong?
    ensures Receive(DecodeAscii, rq, [Data(line + "\r\n")], [], messages).0 == Returned(messages)
    ensures Receive(DecodeAscii, rq, [Data(line + "\r"), Data("\n")], [], messages).0 == Waiting
  {
    hide Judge, Receive, Received, LastChunk, OnlyChunks, Synchronises, DecodesLines;
    AsciiDecodesLines();
    OneLineSynchronises(rq, line);
    OneChunk(line + "\r\n");
    AnyCut(DecodeAscii, rq, [Data(line + "\r\n")], messages);
    assert IsAscii(line + "\r\n");
    assert messages + [] == messages;
    TwoChunks(line + "\r", "\n");
    assert line + "\r" + "\n" == line + "\r\n";
    AnyCut(DecodeAscii, rq, [Data(line + "\r"), Data("\n")], messages);
  }

  /** For instance this line. */
  lemma PongAnswers(rq: Request)
    requires rq.token == Some("t")
    ensures Judge(rq, "PONG t").Pong?
  {
    var w := Wire([], None, "PONG", ["t"]);
    PongText(w);
    PrintParse(w, false);
    assert "t" in w.params;
  }

  lemma PongText(w: Wire)
    requires w.tags == [] && w.prefix.None? && w.command == "PONG" && w.params == ["t"]
    ensures WellFormed(w) && CommandFits(w) && RenderMessage(w, false) == "PONG t"
  {
    BodyText(w, false);
    var none := w.params[..0];
    assert |none| == 0;
  }

  // ---- Every run of calls --------------------------------------------------------

  datatype Call = TakeMessages(rq: Request) | TakeMessage(mr: MessageRequest)

  function Step(decode: Decoder, w: World, call: Call): World {
    match call
    case TakeMessages(rq) => GetMessagesStep(decode, rq, w).0
    case TakeMessage(mr) => GetMessageStep(decode, mr, w).0
  }

  function Run(decode: Decoder, w: World, calls: seq<Call>): World {
    if |calls| == 0 then w else Step(decode, Run(decode, w, calls[..|calls| - 1]), calls[|calls| - 1])
  }

  /** What was handed out or discarded, followed by what is buffered, is what the wire delivered. */
  ghost predicate Balanced(w: World) { !w.lossy ==> w.handed + w.inbuffer == w.wire }

  lemma RefillBalance(decode: Decoder, rq: Request, w: World)
    requires DecodesLines(decode) && Balanced(w)
    ensures var (w', o) := RefillStep(decode, rq, w);
            && w'.handed == w.handed && w'.inbuffer == []
            && (w'.lossy <==> w.lossy || !(o.Returned? || (o.Idle? && w.inbuffer == [])))
            && (o.Returned? ==>
                  exists bytes, items :: w'.wire == w.wire + items && Delivers(decode, rq, bytes, [], items))
            && (!w'.lossy ==> Messages(o).Some? && w.handed + Messages(o).value == w'.wire)
  {
    hide ItemsOf, DecodesLines, Receive, Received, Used, Delivers, WireItems;
    var (o, rest) := Receive(decode, rq, w.incoming, [], w.inbuffer);
    if o.Returned? {
      var bytes := Received(Used(w.incoming, rest));
      FramingOfCall(decode, rq, w.incoming, w.inbuffer);
      DeliversWireItems(decode, rq, bytes, w.inbuffer, o.messages);
      var items := WireItems(decode, rq, bytes);
      DeliversAlone(decode, rq, bytes, w.inbuffer, o.messages);
      assert Delivers(decode, rq, bytes, [], items);
      assert w.handed + (w.inbuffer + items) == (w.handed + w.inbuffer) + items;
    }
  }

  lemma {:induction false} GetMessageBalance(decode: Decoder, mr: MessageRequest, w: World)
    requires DecodesLines(decode) && Balanced(w)
    ensures Balanced(GetMessageStep(decode, mr, w).0)
    decreases |w.incoming|, |w.inbuffer|
  {
    hide RefillStep, DecodesLines;
    if w.inbuffer == [] {
      var (w', o) := RefillStep(decode, mr.At(w.ticks), w);
      RefillBalance(decode, mr.At(w.ticks), w);
      RefillShrinks(decode, mr.At(w.ticks), w);
      if Messages(o).Some? {
        var ms := Messages(o).value;
        if ms == [] {
          assert w'.handed + w'.inbuffer == w.handed + ms;
        } else {
          GetMessageBalance(decode, mr, w'.(inbuffer := ms));
        }
      }
    } else {
      var w' := HandOut(w.(inbuffer := w.inbuffer[1..]), [w.inbuffer[0]]);
      assert w'.handed + w'.inbuffer == w.handed + w.inbuffer;
      if !mr.accept(w.inbuffer[0]) {
        GetMessageBalance(decode, mr, w');
      }
    }
  }

  lemma {:induction false} RunBalance(decode: Decoder, w: World, calls: seq<Call>)
    requires DecodesLines(decode) && Balanced(w)
    ensures Balanced(Run(decode, w, calls))
  {
    hide DecodesLines, RefillStep, GetMessageStep;
    if |calls| > 0 {
      var before, call := Run(decode, w, calls[..|calls| - 1]), calls[|calls| - 1];
      RunBalance(decode, w, calls[..|calls| - 1]);
      match call {
        case TakeMessages(rq) =>
          RefillBalance(decode, rq, before);
          var (w', o) := RefillStep(decode, rq, before);
          var after := GetMessagesStep(decode, rq, before).0;
          assert after.handed + [] == after.handed;
        case TakeMessage(mr) =>
          GetMessageBalance(decode, mr, before);
      }
    }
  }

  /** Exactly once and in order: after any calls, none of which dropped anything, what was handed out
      or discarded by a filter, followed by the buffer, is what the wire delivered. */
  lemma ExactlyOnceInOrder(decode: Decoder, events: seq<Event>, calls: seq<Call>)
    requires DecodesLines(decode)
    requires !Run(decode, World([], events, 0, [], [], false), calls).lossy
    ensures var w := Run(decode, World([], events, 0, [], [], false), calls);
            w.handed + w.inbuffer == w.wire
  {
    hide Run, DecodesLines;
    var start := World([], events, 0, [], [], false);
    assert start.handed + start.inbuffer == start.wire;
    RunBalance(decode, start, calls);
  }

  // ---- The idle return -----------------------------------------------------------

  /** The first thing that happens is a timeout, and the caller neither synchronises nor insists. */
  predicate NothingComes(rq: Request, events: seq<Event>) {
    !rq.assertGetOne && rq.token.None? && |events| > 0 && events[0].Timeout?
  }

  lemma {:induction false} NeverIdle(decode: Decoder, rq: Request, events: seq<Event>, data: Bytes, messages: seq<Item>)
    requires rq.assertGetOne || rq.token.Some? || |data| > 0
    ensures !Receive(decode, rq, events, data, messages).0.Idle?
    decreases |events|
  {
    hide ItemsOf, EndsCrlf;
    if |events| > 0 {
      var rest := events[1..];
      match events[0] {
        case Timeout => NeverIdle(decode, rq, rest, data, messages);
        case Reset =>
        case Data(new_) =>
          if |new_| > 0 && !EndsCrlf(new_) {
            NeverIdle(decode, rq, rest, data + new_, messages);
          } else if decode(data + new_).Some? && ItemsOf(rq, decode(data + new_).value).Ok? && rq.token.Some? {
            NeverIdle(decode, rq, rest, [], messages + ItemsOf(rq, decode(data + new_).value).value.0);
          }
      }
    }
  }

  lemma IdleIs(decode: Decoder, rq: Request, events: seq<Event>, messages: seq<Item>)
    ensures Receive(decode, rq, events, [], messages).0.Idle? <==> NothingComes(rq, events)
  {
    hide ItemsOf, EndsCrlf;
    if !NothingComes(rq, events) && |events| > 0 {
      if rq.assertGetOne || rq.token.Some? {
        NeverIdle(decode, rq, events, [], messages);
      } else if events[0].Data? && |events[0].bytes| > 0 && !EndsCrlf(events[0].bytes) {
        NeverIdle(decode, rq, events[1..], [] + events[0].bytes, messages);
      }
    }
  }

  /** The call returns an empty list exactly when nothing comes; it then drops exactly what was buffered,
      so that delivery stays complete if and only if nothing was. */
  lemma IdleDropsBuffer(decode: Decoder, rq: Request, w: World)
    requires !w.lossy && Balanced(w)
    ensures var (w', o) := GetMessagesStep(decode, rq, w);
            && (o.Idle? <==> NothingComes(rq, w.incoming))
            && (NothingComes(rq, w.incoming) ==>
                  && (w'.handed + w'.inbuffer) + w.inbuffer == w'.wire
                  && (w'.handed + w'.inbuffer == w'.wire <==> w.inbuffer == [])
                  && (w'.lossy <==> w.inbuffer != []))
  {
    hide Receive;
    IdleIs(decode, rq, w.incoming, w.inbuffer);
    var (w', o) := GetMessagesStep(decode, rq, w);
    if o.Idle? {
      assert w'.handed == w.handed + [] == w.handed;
      assert w'.handed + w'.inbuffer == w.handed;
      assert |w.handed + w.inbuffer| == |w.handed| + |w.inbuffer|;
    }
  }
}
