/** Server-Sent Events: the frames the watch handler writes and the line loop of the client
    that reads them back. A `char` stands for one byte of the stream. */
module Sse {
  import opened Wrappers

  datatype Frame = Frame(kind: string, payload: string)

  function FrameText(f: Frame): string {
    "event: " + f.kind + "\ndata: " + f.payload + "\n\n"
  }

  /** The text of a whole stream. */
  function Stream(frames: seq<Frame>): string {
    if frames == [] then "" else FrameText(frames[0]) + Stream(frames[1..])
  }

  lemma {:induction false} StreamAppend(frames: seq<Frame>, f: Frame)
    ensures Stream(frames + [f]) == Stream(frames) + FrameText(f)
  {
    if frames == [] {
      assert Stream([f]) == FrameText(f) + Stream([f][1..]);
    } else {
      assert (frames + [f])[1..] == frames[1..] + [f];
      StreamAppend(frames[1..], f);
    }
  }

  /** What is written for one event: nothing if it cannot be marshalled. */
  function FramesOf(kind: string, json: Option<string>): seq<Frame> {
    if json.Some? then [Frame(kind, json.value)] else []
  }

  /** One watch connection, seen from the handler. `json` is the marshalled event, if any. */
  class Connection {
    var sent: string
    ghost var frames: seq<Frame>

    ghost predicate Valid()
      reads this
    {
      sent == Stream(frames)
    }

    constructor ()
      ensures Valid() && frames == []
    {
      sent, frames := "", [];
    }

    method WriteSSEEvent(kind: string, json: Option<string>)
      requires Valid()
      modifies this
      ensures Valid()
      ensures frames == old(frames) + FramesOf(kind, json)
      ensures json.None? ==> sent == old(sent)
      ensures json.Some? ==> sent == old(sent) + ("event: " + kind + "\ndata: " + json.value + "\n\n")
    {
      if json.None? {
        return;
      }
      StreamAppend(frames, Frame(kind, json.value));
      var event := "event: " + kind + "\ndata: " + json.value + "\n\n";
      sent := sent + event;
      frames := frames + [Frame(kind, json.value)];
    }
  }

  // ---- bufio.Scanner with ScanLines ----

  /** A line and its terminator must fit in the scanner's buffer. */
  const MAX_SCAN_TOKEN := 65536

  /** The position of the first line break, or the end of the text. */
  function LineEnd(s: string): (n: nat)
    ensures n <= |s|
    ensures forall i | 0 <= i < n :: s[i] != '\n'
    ensures n < |s| ==> s[n] == '\n'
  {
    if s == "" || s[0] == '\n' then 0 else 1 + LineEnd(s[1..])
  }

  function DropCR(line: string): string {
    if line != "" && line[|line| - 1] == '\r' then line[..|line| - 1] else line
  }

  function AfterLine(s: string): (rest: string)
    ensures s != "" ==> |rest| < |s|
  {
    if LineEnd(s) < |s| then s[LineEnd(s) + 1..] else ""
  }

  /** The tokens of the scanner; a line that does not fit ends them. */
  function Lines(s: string): seq<string>
    decreases |s|
  {
    if s == "" || LineEnd(s) >= MAX_SCAN_TOKEN then []
    else [DropCR(s[..LineEnd(s)])] + Lines(AfterLine(s))
  }

  // ---- The client's line loop ----

  /** What the loop has handed on, and the data of the event under way. */
  datatype Parser = Parser(emitted: seq<string>, data: string)

  function Feed(p: Parser, line: string): Parser {
    if line == "" then (if p.data != "" then Parser(p.emitted + [p.data], "") else p)
    else if "data: " <= line then p.(data := p.data + line[6..])
    else p
  }

  function FeedAll(p: Parser, lines: seq<string>): Parser
    decreases |lines|
  {
    if lines == [] then p else FeedAll(Feed(p, lines[0]), lines[1..])
  }

  /** The payloads the client reads out of a stream. */
  function Payloads(s: string): seq<string> { FeedAll(Parser([], ""), Lines(s)).emitted }

  /** Payloads that do not decode are dropped. */
  function Decoded<E>(decode: string -> Option<E>, payloads: seq<string>): seq<E> {
    if payloads == [] then [] else
    var last := decode(payloads[|payloads| - 1]);
    Decoded(decode, payloads[..|payloads| - 1]) + if last.Some? then [last.value] else []
  }

  lemma DecodedStep<E>(decode: string -> Option<E>, payloads: seq<string>, next: string)
    ensures Decoded(decode, payloads + [next]) ==
      Decoded(decode, payloads) + if decode(next).Some? then [decode(next).value] else []
  {
    assert (payloads + [next])[..|payloads|] == payloads;
  }

  /** The goroutine of WatchStream, run over everything the connection delivered. */
  method WatchStream<E>(stream: string, decode: string -> Option<E>) returns (events: seq<E>)
    ensures events == Decoded(decode, Payloads(stream))
  {
    events := [];
    var rest, currentData := stream, "";
    ghost var emitted: seq<string> := [];
    while rest != ""
      invariant events == Decoded(decode, emitted)
      invariant FeedAll(Parser(emitted, currentData), Lines(rest)).emitted == Payloads(stream)
      decreases |rest|
    {
      var end := LineEnd(rest);
      if end >= MAX_SCAN_TOKEN {
        return;
      }
      var line := DropCR(rest[..end]);
      rest := AfterLine(rest);
      if line == "" {
        if |currentData| > 0 {
          var event := decode(currentData);
          DecodedStep(decode, emitted, currentData);
          emitted := emitted + [currentData];
          if event.Some? {
            events := events + [event.value];
          }
          currentData := "";
        }
        continue;
      }
      if "data: " <= line {
        currentData := currentData + line[6..];
      }
    }
  }

  // ---- Round trip ----

  predicate OneLine(s: string) { '\n' !in s && '\r' !in s }

  /** JSON text is not empty and has no raw line break (section 7 of RFC 8259). */
  predicate Framed(f: Frame) { OneLine(f.kind) && OneLine(f.payload) && f.payload != "" }

  predicate AllFramed(frames: seq<Frame>) { forall i | 0 <= i < |frames| :: Framed(frames[i]) }

  /** Both lines of the frame fit in the scanner's buffer with their terminators. */
  predicate Fits(f: Frame) { |f.kind| + 7 < MAX_SCAN_TOKEN && |f.payload| + 6 < MAX_SCAN_TOKEN }

  /** The limits in bytes: one line holds at most 65535 before its terminator. */
  lemma FitsExact(f: Frame)
    ensures Fits(f) <==> |EventLine(f)| <= 65535 && |DataLine(f)| <= 65535
  {
  }

  predicate AllFit(frames: seq<Frame>) { forall i | 0 <= i < |frames| :: Fits(frames[i]) }

  lemma {:induction false} LineEndAt(a: string, s: string)
    requires '\n' !in a && (s == "" || s[0] == '\n')
    ensures LineEnd(a + s) == |a|
  {
    if a == "" {
      assert a + s == s;
    } else {
      assert (a + s)[1..] == a[1..] + s;
      LineEndAt(a[1..], s);
    }
  }

  /** A terminated line comes out as it was written, or stops the scanner. */
  lemma FirstLine(a: string, s: string)
    requires OneLine(a)
    ensures Lines(a + "\n" + s) == if |a| < MAX_SCAN_TOKEN then [a] + Lines(s) else []
  {
    assert a + "\n" + s == a + ("\n" + s);
    LineEndAt(a, "\n" + s);
    assert (a + "\n" + s)[..|a|] == a;
    assert (a + "\n" + s)[|a| + 1..] == s;
  }

  /** The part of a last line that arrived is a token too, unless it is empty. */
  lemma LastLine(a: string)
    requires OneLine(a)
    ensures Lines(a) == if a == "" || |a| >= MAX_SCAN_TOKEN then [] else [a]
  {
    LineEndAt(a, "");
    assert a + "" == a && a[..|a|] == a;
    assert a != "" ==> AfterLine(a) == "";
  }

  predicate NoBlank(lines: seq<string>) { forall i | 0 <= i < |lines| :: lines[i] != "" }

  /** Nothing is emitted before a blank line. */
  lemma {:induction false} NoBlankNoEvent(p: Parser, lines: seq<string>)
    requires NoBlank(lines)
    ensures FeedAll(p, lines).emitted == p.emitted
    decreases |lines|
  {
    if lines != [] { NoBlankNoEvent(Feed(p, lines[0]), lines[1..]); }
  }

  /** What was emitted before does not affect what comes after. */
  lemma {:induction false} EmittedInFront(before: seq<string>, p: Parser, lines: seq<string>)
    ensures FeedAll(Parser(before + p.emitted, p.data), lines).emitted == before + FeedAll(p, lines).emitted
    decreases |lines|
  {
    if lines != [] {
      assert before + (p.emitted + [p.data]) == (before + p.emitted) + [p.data];
      EmittedInFront(before, Feed(p, lines[0]), lines[1..]);
    }
  }

  function EventLine(f: Frame): string { "event: " + f.kind }

  function DataLine(f: Frame): string { "data: " + f.payload }

  lemma FrameParts(f: Frame, s: string)
    ensures FrameText(f) + s == EventLine(f) + "\n" + (DataLine(f) + "\n" + ("" + "\n" + s))
  {
    assert "\ndata: " == "\n" + "data: " && "\n\n" == "\n" + "\n";
  }

  lemma FrameLines(f: Frame, s: string)
    requires Framed(f)
    ensures Fits(f) ==> Lines(FrameText(f) + s) == [EventLine(f)] + ([DataLine(f)] + ([""] + Lines(s)))
    ensures !Fits(f) ==> Lines(FrameText(f) + s) == [] || Lines(FrameText(f) + s) == [EventLine(f)]
  {
    FrameParts(f, s);
    FirstLine(EventLine(f), DataLine(f) + "\n" + ("" + "\n" + s));
    FirstLine(DataLine(f), "" + "\n" + s);
    FirstLine("", s);
  }

  lemma FeedEvent(p: Parser, f: Frame)
    ensures Feed(p, EventLine(f)) == p
  {
    assert EventLine(f)[0] == 'e' && "data: "[0] == 'd';
  }

  lemma FeedData(p: Parser, f: Frame)
    requires f.payload != ""
    ensures Feed(Feed(p, DataLine(f)), "") == Parser(p.emitted + [p.data + f.payload], "")
  {
    assert DataLine(f)[6..] == f.payload;
  }

  lemma FeedCons(p: Parser, line: string, lines: seq<string>)
    ensures FeedAll(p, [line] + lines) == FeedAll(Feed(p, line), lines)
  {
    assert ([line] + lines)[1..] == lines;
  }

  lemma FeedFrame(f: Frame, lines: seq<string>)
    requires f.payload != ""
    ensures FeedAll(Parser([], ""), [EventLine(f)] + ([DataLine(f)] + ([""] + lines))).emitted
      == [f.payload] + FeedAll(Parser([], ""), lines).emitted
  {
    var p := Parser([], "");
    FeedCons(p, EventLine(f), [DataLine(f)] + ([""] + lines));
    FeedEvent(p, f);
    FeedCons(p, DataLine(f), [""] + lines);
    FeedCons(Feed(p, DataLine(f)), "", lines);
    FeedData(p, f);
    assert "" + f.payload == f.payload && [] + [f.payload] == [f.payload] + [];
    EmittedInFront([f.payload], p, lines);
  }

  /** A complete frame that fits yields its payload and leaves the loop as it was; one that
      does not fit ends the stream. */
  lemma WholeFrame(f: Frame, s: string)
    requires Framed(f)
    ensures Payloads(FrameText(f) + s) == if Fits(f) then [f.payload] + Payloads(s) else []
  {
    FrameLines(f, s);
    if Fits(f) {
      FeedFrame(f, Lines(s));
    } else {
      NoBlankNoEvent(Parser([], ""), Lines(FrameText(f) + s));
    }
  }

  /** The first `n` bytes of a frame, if not all, are part of the first line, the first line
      with part of the second, or both lines. */
  lemma CutParts(f: Frame, n: nat)
    requires n < |FrameText(f)|
    ensures var event, data, cut := EventLine(f), DataLine(f), FrameText(f)[..n];
      if n <= |event| then cut == event[..n]
      else if n <= |event| + 1 + |data| then cut == event + "\n" + data[..n - |event| - 1]
      else cut == event + "\n" + (data + "\n" + "")
  {
    FrameParts(f, "");
    assert FrameText(f) + "" == FrameText(f);
  }

  lemma NoBlankLine(a: string, s: string)
    requires OneLine(a) && a != "" && NoBlank(Lines(s))
    ensures NoBlank(Lines(a + "\n" + s))
  {
    FirstLine(a, s);
  }

  lemma NoBlankPart(a: string, n: nat)
    requires OneLine(a) && n <= |a|
    ensures NoBlank(Lines(a[..n]))
  {
    LastLine(a[..n]);
  }

  /** A frame whose last byte has not arrived yields nothing. */
  lemma CutFrame(f: Frame, n: nat)
    requires Framed(f) && n < |FrameText(f)|
    ensures Payloads(FrameText(f)[..n]) == []
  {
    var event, data := EventLine(f), DataLine(f);
    CutParts(f, n);
    if n <= |event| {
      NoBlankPart(event, n);
    } else if n <= |event| + 1 + |data| {
      NoBlankPart(data, n - |event| - 1);
      NoBlankLine(event, data[..n - |event| - 1]);
    } else {
      NoBlankLine(data, "");
      NoBlankLine(event, data + "\n" + "");
    }
    NoBlankNoEvent(Parser([], ""), Lines(FrameText(f)[..n]));
  }

  /** The number of leading frames that are wholly inside the first `n` bytes and come before
      any frame that does not fit. */
  function Arrived(frames: seq<Frame>, n: nat): (k: nat)
    ensures k <= |frames|
    ensures k < |frames| <==> !AllFit(frames) || n < |Stream(frames)|
  {
    if frames == [] then 0
    else if n < |FrameText(frames[0])| || !Fits(frames[0]) then 0
    else 1 + Arrived(frames[1..], n - |FrameText(frames[0])|)
  }

  function PayloadsOf(frames: seq<Frame>): (r: seq<string>)
    ensures |r| == |frames| && forall i | 0 <= i < |r| :: r[i] == frames[i].payload
  {
    seq(|frames|, i requires 0 <= i < |frames| => frames[i].payload)
  }

  lemma PayloadsCons(frames: seq<Frame>, k: nat)
    requires frames != [] && k < |frames|
    ensures PayloadsOf(frames)[..k + 1] == [frames[0].payload] + PayloadsOf(frames[1..])[..k]
  {
  }

  lemma CutBefore(a: string, b: string, n: nat)
    requires n <= |a|
    ensures (a + b)[..n] == a[..n]
  {
  }

  lemma CutAfter(a: string, b: string, n: nat)
    requires |a| <= n <= |a| + |b|
    ensures (a + b)[..n] == a + b[..n - |a|]
  {
  }

  /** `head` is read as the frame `f`: its payload once it is all there, nothing before. */
  ghost predicate ReadAs(head: string, f: Frame) {
    && (forall s :: Payloads(head + s) == if Fits(f) then [f.payload] + Payloads(s) else [])
    && (forall m: nat | m < |head| :: Payloads(head[..m]) == [])
  }

  lemma FrameReadAs(f: Frame)
    requires Framed(f)
    ensures ReadAs(FrameText(f), f)
  {
    forall s ensures Payloads(FrameText(f) + s) == if Fits(f) then [f.payload] + Payloads(s) else [] {
      WholeFrame(f, s);
    }
    forall m: nat | m < |FrameText(f)| ensures Payloads(FrameText(f)[..m]) == [] { CutFrame(f, m); }
  }

  /** A stream cut at `n` yields the first payload once its frame is in, and goes on with the
      rest of the stream. */
  lemma CutFirst(head: string, f: Frame, rest: string, n: nat)
    requires ReadAs(head, f) && n <= |head + rest|
    ensures Payloads((head + rest)[..n]) ==
      if n < |head| || !Fits(f) then [] else [f.payload] + Payloads(rest[..n - |head|])
  {
    if n < |head| { CutBefore(head, rest, n); } else { CutAfter(head, rest, n); }
  }

  /** Wherever the stream is cut, the client reads exactly the payloads of the frames that
      arrived whole, up to the first one that does not fit. */
  lemma {:induction false} CutStream(frames: seq<Frame>, n: nat)
    requires AllFramed(frames) && n <= |Stream(frames)|
    ensures Payloads(Stream(frames)[..n]) == PayloadsOf(frames)[..Arrived(frames, n)]
  {
    if frames != [] {
      FrameReadAs(frames[0]);
      CutFirst(FrameText(frames[0]), frames[0], Stream(frames[1..]), n);
      if n >= |FrameText(frames[0])| && Fits(frames[0]) {
        var m := n - |FrameText(frames[0])|;
        CutStream(frames[1..], m);
        PayloadsCons(frames, Arrived(frames[1..], m));
      }
    }
  }

  /** Round trip: the client recovers exactly the payloads written, in order, if and only if
      every frame fits in its scanner. */
  lemma StreamRoundTrip(frames: seq<Frame>)
    requires AllFramed(frames)
    ensures Payloads(Stream(frames)) == PayloadsOf(frames) <==> AllFit(frames)
  {
    CutStream(frames, |Stream(frames)|);
    assert Stream(frames)[..|Stream(frames)|] == Stream(frames);
    assert |PayloadsOf(frames)[..Arrived(frames, |Stream(frames)|)]| == Arrived(frames, |Stream(frames)|);
    assert PayloadsOf(frames)[..|frames|] == PayloadsOf(frames);
  }

  lemma {:induction false} DecodedAll<E>(decode: string -> Option<E>, payloads: seq<string>, events: seq<E>)
    requires |payloads| == |events| && forall i | 0 <= i < |events| :: decode(payloads[i]) == Some(events[i])
    ensures Decoded(decode, payloads) == events
  {
    if events != [] {
      var n := |events| - 1;
      DecodedAll(decode, payloads[..n], events[..n]);
      assert events == events[..n] + [events[n]];
    }
  }

  /** With a JSON codec that round-trips, a connection cut at any byte delivers exactly the
      events whose frames arrived: a prefix of the events written, with none altered. */
  lemma CutStreamDelivers<E>(frames: seq<Frame>, events: seq<E>, decode: string -> Option<E>, n: nat)
    requires AllFramed(frames) && n <= |Stream(frames)|
    requires |events| == |frames| && forall i | 0 <= i < |events| :: decode(frames[i].payload) == Some(events[i])
    ensures Decoded(decode, Payloads(Stream(frames)[..n])) == events[..Arrived(frames, n)]
  {
    CutStream(frames, n);
    var k := Arrived(frames, n);
    DecodedAll(decode, PayloadsOf(frames)[..k], events[..k]);
  }

  /** The frames of those of the first `n` events that can be marshalled. */
  function FramesUpTo<E>(encode: E -> Option<string>, events: seq<E>, n: nat): seq<Frame>
    requires n <= |events|
  {
    if n == 0 then [] else FramesUpTo(encode, events, n - 1) + FramesOf("change", encode(events[n - 1]))
  }

  function EventFrames<E>(encode: E -> Option<string>, events: seq<E>): seq<Frame> {
    FramesUpTo(encode, events, |events|)
  }

  lemma {:induction false} FramesOfPrefix<E>(encode: E -> Option<string>, events: seq<E>, more: seq<E>, n: nat)
    requires n <= |events|
    ensures FramesUpTo(encode, events + more, n) == FramesUpTo(encode, events, n)
  {
    if n > 0 { FramesOfPrefix(encode, events, more, n - 1); }
  }

  lemma EventFramesStep<E>(encode: E -> Option<string>, events: seq<E>, e: E)
    ensures EventFrames(encode, events + [e]) == EventFrames(encode, events) + FramesOf("change", encode(e))
  {
    FramesOfPrefix(encode, events, [e], |events|);
  }

  lemma PayloadsStep(frames: seq<Frame>, f: Frame)
    ensures PayloadsOf(frames + [f]) == PayloadsOf(frames) + [f.payload]
  {
  }

  /** The event can be marshalled, and its JSON unmarshals to it. */
  predicate Carried<E(==)>(encode: E -> Option<string>, decode: string -> Option<E>, e: E) {
    encode(e).Some? && decode(encode(e).value) == Some(e)
  }

  predicate AllCarried<E(==)>(encode: E -> Option<string>, decode: string -> Option<E>, events: seq<E>) {
    forall i | 0 <= i < |events| :: Carried(encode, decode, events[i])
  }

  lemma {:induction false} FramesDecode<E>(
    encode: E -> Option<string>, decode: string -> Option<E>, events: seq<E>, n: nat)
    requires n <= |events| && AllCarried(encode, decode, events)
    ensures Decoded(decode, PayloadsOf(FramesUpTo(encode, events, n))) == events[..n]
  {
    if n > 0 {
      assert Carried(encode, decode, events[n - 1]);
      var json := encode(events[n - 1]).value;
      FramesDecode(encode, decode, events, n - 1);
      PayloadsStep(FramesUpTo(encode, events, n - 1), Frame("change", json));
      DecodedStep(decode, PayloadsOf(FramesUpTo(encode, events, n - 1)), json);
    }
  }

  function DecodedOne<E>(decode: string -> Option<E>, payload: string): seq<E> {
    if decode(payload).Some? then [decode(payload).value] else []
  }

  lemma {:induction false} DecodedFirst<E>(decode: string -> Option<E>, first: string, payloads: seq<string>)
    ensures Decoded(decode, [first] + payloads) == DecodedOne(decode, first) + Decoded(decode, payloads)
  {
    if payloads == [] {
      DecodedStep(decode, [], first);
      assert [] + [first] == [first] == [first] + payloads;
    } else {
      var n := |payloads| - 1;
      DecodedFirst(decode, first, payloads[..n]);
      DecodedStep(decode, [first] + payloads[..n], payloads[n]);
      assert [first] + payloads == ([first] + payloads[..n]) + [payloads[n]];
    }
  }

  lemma GreetedDecode<E>(decode: string -> Option<E>, greeting: Frame, frames: seq<Frame>)
    ensures Decoded(decode, PayloadsOf([greeting] + frames)) ==
      DecodedOne(decode, greeting.payload) + Decoded(decode, PayloadsOf(frames))
  {
    assert PayloadsOf([greeting] + frames) == [greeting.payload] + PayloadsOf(frames);
    DecodedFirst(decode, greeting.payload, PayloadsOf(frames));
  }

  /** A whole watch stream, the greeting and then the events, delivers what the client makes of
      the greeting and then exactly the events. */
  lemma WholeStreamDelivers<E>(
    greeting: Frame, events: seq<E>, encode: E -> Option<string>, decode: string -> Option<E>)
    requires AllFramed([greeting] + EventFrames(encode, events))
    requires AllFit([greeting] + EventFrames(encode, events)) && AllCarried(encode, decode, events)
    ensures Decoded(decode, Payloads(Stream([greeting] + EventFrames(encode, events)))) ==
      DecodedOne(decode, greeting.payload) + events
  {
    StreamRoundTrip([greeting] + EventFrames(encode, events));
    GreetedDecode(decode, greeting, EventFrames(encode, events));
    FramesDecode(encode, decode, events, |events|);
    assert events[..|events|] == events;
  }

  // ---- Streams in general ----

  /** The data of a block: what its data lines carry, one after the other. */
  function DataOf(lines: seq<string>): string {
    if lines == [] then "" else
    var last := lines[|lines| - 1];
    DataOf(lines[..|lines| - 1]) + if "data: " <= last then last[6..] else ""
  }

  lemma {:induction false} FeedBlock(p: Parser, lines: seq<string>)
    requires NoBlank(lines)
    ensures FeedAll(p, lines) == Parser(p.emitted, p.data + DataOf(lines))
    decreases |lines|
  {
    if lines == [] {
      assert p.data + "" == p.data;
    } else {
      var n := |lines| - 1;
      FeedBlock(p, lines[..n]);
      FeedLast(p, lines[..n], lines[n]);
      assert lines == lines[..n] + [lines[n]];
      FeedLine(Parser(p.emitted, p.data + DataOf(lines[..n])), lines[n]);
      Regroup(p.data, DataOf(lines[..n]), if "data: " <= lines[n] then lines[n][6..] else "");
    }
  }

  lemma FeedLine(p: Parser, line: string)
    requires line != ""
    ensures Feed(p, line) == Parser(p.emitted, p.data + if "data: " <= line then line[6..] else "")
  {
    assert p.data + "" == p.data;
  }

  lemma Regroup(a: string, b: string, c: string)
    ensures (a + b) + c == a + (b + c)
  {
  }

  lemma {:induction false} FeedLast(p: Parser, lines: seq<string>, line: string)
    ensures FeedAll(p, lines + [line]) == Feed(FeedAll(p, lines), line)
    decreases |lines|
  {
    if lines == [] {
      assert [] + [line] == [line] && [line][1..] == [];
    } else {
      assert (lines + [line])[0] == lines[0] && (lines + [line])[1..] == lines[1..] + [line];
      FeedLast(Feed(p, lines[0]), lines[1..], line);
    }
  }

  /** Whatever lines a block has, the blank line after it emits the joined data of its data lines,
      if there is any, and leaves none behind. */
  lemma BlockEmitsItsData(emitted: seq<string>, lines: seq<string>)
    requires NoBlank(lines)
    ensures FeedAll(Parser(emitted, ""), lines + [""]) ==
      Parser(emitted + (if DataOf(lines) != "" then [DataOf(lines)] else []), "")
  {
    FeedBlock(Parser(emitted, ""), lines);
    FeedLast(Parser(emitted, ""), lines, "");
    assert "" + DataOf(lines) == DataOf(lines);
  }

  /** A carriage return before the line break is not part of the line. */
  lemma CarriageReturnDropped(a: string, s: string)
    requires OneLine(a) && |a| + 1 < MAX_SCAN_TOKEN
    ensures Lines(a + "\r" + "\n" + s) == [a] + Lines(s)
  {
    var line := a + "\r";
    assert a + "\r" + "\n" + s == line + ("\n" + s);
    LineEndAt(line, "\n" + s);
    assert (line + ("\n" + s))[..|line|] == line && line[..|a|] == a;
    assert (line + ("\n" + s))[|line| + 1..] == s;
  }
}
