/**
 The server-sent-events reader of the tunnel client (readSSE in internal/webhook/tunnel.go):
 exactly what it dispatches for every serialised list of events, with comment lines anywhere.
 */
module Sse {
  import opened Bags
  import opened Blocks

  datatype Event = Event(name: string, data: string)

  // ---------- Scanning lines ----------

  function IndexOf(s: string, c: char): (i: nat)
    ensures i <= |s|
    ensures i < |s| ==> s[i] == c
    ensures forall j :: 0 <= j < i ==> s[j] != c
  {
    if s == "" || s[0] == c then 0 else 1 + IndexOf(s[1..], c)
  }

  function StripCr(line: string): string
  {
    if line != "" && line[|line| - 1] == '\r' then line[..|line| - 1] else line
  }

  /** bufio.ScanLines: newline-terminated lines without a trailing carriage return; a last unterminated one counts. */
  function Lines(s: string): seq<string>
    decreases |s|
  {
    if s == "" then []
    else
      var i := IndexOf(s, '\n');
      [StripCr(s[..i])] + (if i < |s| then Lines(s[i + 1..]) else [])
  }

  function Unlines(lines: seq<string>): string
  {
    if lines == [] then "" else lines[0] + "\n" + Unlines(lines[1..])
  }

  ghost predicate OneLine(s: string)
  {
    '\n' !in s && '\r' !in s
  }

  lemma {:induction false} LinesUnlines(lines: seq<string>)
    requires forall l :: l in lines ==> OneLine(l)
    ensures Lines(Unlines(lines)) == lines
  {
    if lines != [] {
      assert lines[0] in lines;
      FirstLine(lines[0], Unlines(lines[1..]));
      LinesUnlines(lines[1..]);
    }
  }

  /** Lines ended by a carriage return and a newline are read alike. */
  lemma {:induction false} LinesCrLf(lines: seq<string>)
    requires forall l :: l in lines ==> OneLine(l)
    ensures Lines(UnlinesCrLf(lines)) == lines
  {
    if lines != [] {
      assert lines[0] in lines;
      FirstLineCrLf(lines[0], UnlinesCrLf(lines[1..]));
      LinesCrLf(lines[1..]);
    }
  }

  /** A last line counts without a newline. */
  lemma {:induction false} LinesUnended(lines: seq<string>, last: string)
    requires (forall l :: l in lines ==> OneLine(l)) && OneLine(last) && last != ""
    ensures Lines(UnlinesThen(lines, last)) == lines + [last]
  {
    if lines == [] {
      assert IndexOf(last, '\n') == |last| && last[..|last|] == last && StripCr(last) == last;
    } else {
      assert lines[0] in lines;
      FirstLine(lines[0], UnlinesThen(lines[1..], last));
      LinesUnended(lines[1..], last);
    }
  }

  function UnlinesThen(lines: seq<string>, last: string): string
  {
    if lines == [] then last else lines[0] + "\n" + UnlinesThen(lines[1..], last)
  }

  function UnlinesCrLf(lines: seq<string>): string
  {
    if lines == [] then "" else lines[0] + "\r\n" + UnlinesCrLf(lines[1..])
  }

  lemma FirstLineCrLf(l: string, rest: string)
    requires OneLine(l)
    ensures Lines(l + "\r\n" + rest) == [l] + Lines(rest)
  {
    var s, n := l + "\r\n" + rest, |l| + 1;
    assert s[n] == '\n' && s[n - 1] == '\r' && forall j :: 0 <= j < |l| ==> s[j] == l[j];
    assert IndexOf(s, '\n') == n;
    assert s[..n] == l + "\r" && s[n + 1..] == rest && StripCr(l + "\r") == l;
  }

  lemma FirstLine(l: string, rest: string)
    requires OneLine(l)
    ensures Lines(l + "\n" + rest) == [l] + Lines(rest)
  {
    var s := l + "\n" + rest;
    assert s[|l|] == '\n' && forall j :: 0 <= j < |l| ==> s[j] == l[j];
    assert IndexOf(s, '\n') == |l|;
    assert s[..|l|] == l && s[|l| + 1..] == rest && StripCr(l) == l;
  }

  // ---------- What any stream of lines means ----------

  /** Data lines joined by newlines, as section 9.2.6 of the WHATWG HTML standard has it. */
  function JoinLines(ds: seq<string>): string
  {
    if ds == [] then "" else if |ds| == 1 then ds[0] else JoinLines(ds[..|ds| - 1]) + "\n" + ds[|ds| - 1]
  }

  /** The reader separates lines only once its buffer is nonempty, so leading empty data lines are lost. */
  function DropEmpty(ds: seq<string>): seq<string>
  {
    if ds == [] || ds[0] != "" then ds else DropEmpty(ds[1..])
  }

  function TrimSpace1(v: string): string
  {
    if v != "" && v[0] == ' ' then v[1..] else v
  }

  /** The value a line gives to `field`, if it does: the text after the first colon, less one space. */
  function ValueIn(line: string, field: string): Option<string>
  {
    var i := IndexOf(line, ':');
    if i < |line| && line[..i] == field then Some(TrimSpace1(line[i + 1..])) else None
  }

  function Giver(field: string): string -> Option<string>
  {
    (line: string) => ValueIn(line, field)
  }

  /** All values the lines give to `field`, in order. */
  function Values(lines: seq<string>, field: string): seq<string>
  {
    Collect(lines, Giver(field))
  }

  /** The name in force after the lines of a block: the last one given. */
  function NameOf(block: seq<string>): string
  {
    var names := Values(block, "event");
    if names == [] then "" else names[|names| - 1]
  }

  function DataOf(block: seq<string>): string
  {
    JoinLines(DropEmpty(Values(block, "data")))
  }

  /** The event of a block that an empty line closes; none if its data is empty. */
  function EventOf(block: seq<string>): seq<Event>
  {
    if DataOf(block) == "" then [] else [Event(NameOf(block), DataOf(block))]
  }

  function EventsOf(blocks: seq<seq<string>>): seq<Event>
  {
    if blocks == [] then [] else EventsOf(blocks[..|blocks| - 1]) + EventOf(blocks[|blocks| - 1])
  }

  lemma EventsOfSnoc(blocks: seq<seq<string>>, block: seq<string>)
    ensures EventsOf(blocks + [block]) == EventsOf(blocks) + EventOf(block)
  {
    assert (blocks + [block])[..|blocks|] == blocks;
  }

  /** The lines since the last empty one. */
  function Unfinished(lines: seq<string>): seq<string>
  {
    OpenBlock(lines, "")
  }

  /** The events of all blocks that an empty line closes. */
  function ClosedEvents(lines: seq<string>): seq<Event>
  {
    EventsOf(ClosedBlocks(lines, ""))
  }

  lemma {:induction false} DropEmptySnoc(ds: seq<string>, d: string)
    ensures DropEmpty(ds + [d]) == if DropEmpty(ds) == [] && d == "" then [] else DropEmpty(ds) + [d]
  {
    if ds == [] {
      assert ds + [d] == [d] && [d][1..] == [];
    } else if ds[0] == "" {
      assert (ds + [d])[1..] == ds[1..] + [d];
      DropEmptySnoc(ds[1..], d);
    }
  }

  /** Only the empty list of data lines leaves the buffer empty, once leading empty ones are gone. */
  lemma {:induction false} BufferEmptyIff(ds: seq<string>)
    ensures JoinLines(DropEmpty(ds)) == "" <==> DropEmpty(ds) == []
  {
    if ds != [] {
      var before, d := ds[..|ds| - 1], ds[|ds| - 1];
      BufferEmptyIff(before);
      DropEmptySnoc(before, d);
      assert ds == before + [d];
    }
  }

  /** One more data line: a separator only when the buffer is nonempty. */
  lemma BufferSnoc(ds: seq<string>, d: string)
    ensures var buf := JoinLines(DropEmpty(ds));
            JoinLines(DropEmpty(ds + [d])) == (if |buf| > 0 then buf + "\n" else buf) + d
  {
    DropEmptySnoc(ds, d);
    BufferEmptyIff(ds);
    var kept := DropEmpty(ds);
    assert (kept + [d])[..|kept|] == kept;
  }

  // ---------- The reader ----------

  lemma LineRead(lines: seq<string>, line: string)
    ensures Unfinished(lines + [line]) == if line == "" then [] else Unfinished(lines) + [line]
    ensures ClosedEvents(lines + [line])
         == if line == "" then ClosedEvents(lines) + EventOf(Unfinished(lines)) else ClosedEvents(lines)
  {
    BlockSnoc(lines, "", line);
    EventsOfSnoc(ClosedBlocks(lines, ""), Unfinished(lines));
  }

  /** What a nonempty line changes in the block it belongs to. */
  lemma LineInBlock(block: seq<string>, line: string)
    ensures var v := ValueIn(line, "event"); NameOf(block + [line]) == if v.Some? then v.value else NameOf(block)
    ensures var v := ValueIn(line, "data");
            DataOf(block + [line]) == if v.None? then DataOf(block)
                                      else (if |DataOf(block)| > 0 then DataOf(block) + "\n" else DataOf(block)) + v.value
  {
    CollectSnoc(block, line, Giver("event"));
    CollectSnoc(block, line, Giver("data"));
    var data := ValueIn(line, "data");
    if data.Some? { BufferSnoc(Values(block, "data"), data.value); }
  }

  /** The reader's variables are what the lines read so far give. */
  ghost predicate HasRead(eventName: string, dataBuf: string, dispatched: seq<Event>, lines: seq<string>)
  {
    && eventName == NameOf(Unfinished(lines)) && dataBuf == DataOf(Unfinished(lines))
    && dispatched == ClosedEvents(lines)
  }

  /** The body of the read loop. */
  method ReadLine(eventName0: string, dataBuf0: string, sent: seq<Event>, line: string, ghost before: seq<string>)
      returns (eventName: string, dataBuf: string, dispatched: seq<Event>)
    requires HasRead(eventName0, dataBuf0, sent, before)
    ensures HasRead(eventName, dataBuf, dispatched, before + [line])
  {
    eventName, dataBuf, dispatched := eventName0, dataBuf0, sent;
    LineRead(before, line);
    LineInBlock(Unfinished(before), line);
    if line == "" {
      if |dataBuf| > 0 {
        dispatched := dispatched + [Event(eventName, dataBuf)];
      }
      eventName, dataBuf := "", "";
      return;
    }
    if line[0] == ':' { return; }
    var colon := IndexOf(line, ':');
    if colon == |line| { return; }
    var value := TrimSpace1(line[colon + 1..]);
    if line[..colon] == "event" {
      eventName := value;
    } else if line[..colon] == "data" {
      if |dataBuf| > 0 {
        dataBuf := dataBuf + "\n";
      }
      dataBuf := dataBuf + value;
    }
  }

  /** On every input, the reader dispatches the events of its closed blocks, in order. */
  method ReadSse(input: string) returns (dispatched: seq<Event>)
    ensures dispatched == ClosedEvents(Lines(input))
  {
    var eventName, dataBuf := "", "";
    dispatched := [];
    var rest := input;
    ghost var before: seq<string> := [];
    while rest != ""
      invariant Lines(input) == before + Lines(rest) && HasRead(eventName, dataBuf, dispatched, before)
      decreases |rest|
    {
      var end := IndexOf(rest, '\n');
      var line := StripCr(rest[..end]);
      var after := if end < |rest| then rest[end + 1..] else "";
      assert before + Lines(rest) == (before + [line]) + Lines(after);
      eventName, dataBuf, dispatched := ReadLine(eventName, dataBuf, dispatched, line, before);
      before, rest := before + [line], after;
    }
    assert before + Lines("") == before;
  }

  // ---------- Lines that are passed over ----------

  /** Not empty, and before its first colon, if it has one, stands neither field name. */
  ghost predicate PassedOver(line: string)
  {
    line != "" && forall i :: 0 <= i < |line| && line[i] == ':' && ':' !in line[..i] ==> line[..i] != "event" && line[..i] != "data"
  }

  lemma PassedOverGivesNothing(line: string)
    requires PassedOver(line)
    ensures ValueIn(line, "event") == None && ValueIn(line, "data") == None
  {
    var i := IndexOf(line, ':');
    assert ':' !in line[..i];
  }

  /** Comment lines, used to keep the stream alive, are among them. */
  lemma CommentsPassedOver(line: string)
    requires line != "" && line[0] == ':'
    ensures PassedOver(line)
  {
    forall i | 0 < i < |line| ensures ':' in line[..i] {
      assert line[..i][0] == ':';
    }
  }

  ghost function WithoutPassed(lines: seq<string>): seq<string>
  {
    if lines == [] then []
    else
      var last := lines[|lines| - 1];
      WithoutPassed(lines[..|lines| - 1]) + if PassedOver(last) then [] else [last]
  }

  /** Both are read alike: the same events, and the same values in the block still open. */
  ghost predicate ReadAlike(a: seq<string>, b: seq<string>)
  {
    && ClosedEvents(a) == ClosedEvents(b)
    && Values(Unfinished(a), "event") == Values(Unfinished(b), "event")
    && Values(Unfinished(a), "data") == Values(Unfinished(b), "data")
  }

  lemma ReadAlikeSnoc(a: seq<string>, b: seq<string>, line: string)
    requires ReadAlike(a, b)
    ensures ReadAlike(a + [line], b + [line])
  {
    LineRead(a, line);
    LineRead(b, line);
    if line != "" {
      CollectSnoc(Unfinished(a), line, Giver("event"));
      CollectSnoc(Unfinished(a), line, Giver("data"));
      CollectSnoc(Unfinished(b), line, Giver("event"));
      CollectSnoc(Unfinished(b), line, Giver("data"));
    }
  }

  lemma ReadAlikePassed(a: seq<string>, b: seq<string>, line: string)
    requires ReadAlike(a, b) && PassedOver(line)
    ensures ReadAlike(a, b + [line])
  {
    PassedOverGivesNothing(line);
    LineRead(b, line);
    CollectSnoc(Unfinished(b), line, Giver("event"));
    CollectSnoc(Unfinished(b), line, Giver("data"));
  }

  /** Comments, lines without a colon and unknown fields are invisible wherever they stand. */
  lemma {:induction false} PassedOverIgnored(lines: seq<string>)
    ensures ReadAlike(WithoutPassed(lines), lines)
  {
    if lines != [] {
      var before, last := lines[..|lines| - 1], lines[|lines| - 1];
      PassedOverIgnored(before);
      assert lines == before + [last];
      if PassedOver(last) {
        ReadAlikePassed(WithoutPassed(before), before, last);
        assert WithoutPassed(lines) == WithoutPassed(before);
      } else {
        ReadAlikeSnoc(WithoutPassed(before), before, last);
      }
    }
  }

  // ---------- Serialisation and what comes back ----------

  /** An event as sent: a name and its data lines. */
  datatype Sent = Sent(name: string, lines: seq<string>)

  function DataLines(ds: seq<string>): (lines: seq<string>)
    ensures |lines| == |ds| && forall i :: 0 <= i < |ds| ==> lines[i] == "data: " + ds[i]
  {
    if ds == [] then [] else ["data: " + ds[0]] + DataLines(ds[1..])
  }

  /** The lines of an event before the empty one. */
  function Head(e: Sent): seq<string>
  {
    ["event: " + e.name] + DataLines(e.lines)
  }

  function Frame(e: Sent): seq<string>
  {
    Head(e) + [""]
  }

  function Frames(es: seq<Sent>): seq<string>
  {
    if es == [] then [] else Frames(es[..|es| - 1]) + Frame(es[|es| - 1])
  }

  function Payload(e: Sent): string
  {
    JoinLines(DropEmpty(e.lines))
  }

  /** What is dispatched for a list of events: nothing for an event whose payload is empty. */
  function Received(es: seq<Sent>): seq<Event>
  {
    if es == [] then []
    else
      var e := es[|es| - 1];
      Received(es[..|es| - 1]) + if Payload(e) != "" then [Event(e.name, Payload(e))] else []
  }

  lemma FieldValues(v: string)
    ensures ValueIn("event: " + v, "event") == Some(v) && ValueIn("event: " + v, "data") == None
    ensures ValueIn("data: " + v, "data") == Some(v) && ValueIn("data: " + v, "event") == None
  {
    var e, d := "event: " + v, "data: " + v;
    assert e[5] == ':' && IndexOf(e, ':') == 5 && e[..5] == "event" && e[6..] == " " + v;
    assert d[4] == ':' && IndexOf(d, ':') == 4 && d[..4] == "data" && d[5..] == " " + v;
  }

  lemma DataValues(ds: seq<string>)
    ensures "" !in DataLines(ds) && Values(DataLines(ds), "event") == [] && Values(DataLines(ds), "data") == ds
  {
    var lines := DataLines(ds);
    forall i | 0 <= i < |ds| ensures ValueIn(lines[i], "data") == Some(ds[i]) && ValueIn(lines[i], "event") == None {
      FieldValues(ds[i]);
    }
    CollectAll(lines, Giver("data"), ds);
    CollectNone(lines, Giver("event"));
  }

  lemma HeadValues(e: Sent)
    ensures "" !in Head(e) && Values(Head(e), "event") == [e.name] && Values(Head(e), "data") == e.lines
  {
    var line := ["event: " + e.name];
    FieldValues(e.name);
    CollectAll(line, Giver("event"), [e.name]);
    CollectNone(line, Giver("data"));
    DataValues(e.lines);
    CollectConcat(line, DataLines(e.lines), Giver("event"));
    CollectConcat(line, DataLines(e.lines), Giver("data"));
  }

  lemma {:induction false} FramesClosed(es: seq<Sent>)
    ensures Unfinished(Frames(es)) == [] && ClosedEvents(Frames(es)) == Received(es)
  {
    if es != [] {
      var before, e := es[..|es| - 1], es[|es| - 1];
      FramesClosed(before);
      HeadValues(e);
      BlockCloses(Frames(before), "", Head(e));
      EventsOfSnoc(ClosedBlocks(Frames(before), ""), Head(e));
    }
  }

  /** For any stream of single lines that is, passed-over lines aside, a serialised list of events. */
  lemma StreamReceives(lines: seq<string>, es: seq<Sent>)
    requires WithoutPassed(lines) == Frames(es)
    requires forall l :: l in lines ==> OneLine(l)
    ensures ClosedEvents(Lines(Unlines(lines))) == Received(es)
  {
    LinesUnlines(lines);
    PassedOverIgnored(lines);
    FramesClosed(es);
  }

  // ---------- When the round trip is exact ----------

  function Original(es: seq<Sent>): seq<Event>
  {
    if es == [] then [] else Original(es[..|es| - 1]) + [Event(es[|es| - 1].name, JoinLines(es[|es| - 1].lines))]
  }

  ghost predicate StartsNonEmpty(e: Sent)
  {
    e.lines != [] && e.lines[0] != ""
  }

  lemma {:induction false} JoinLinesLength(ds: seq<string>)
    ensures ds != [] ==> |JoinLines(ds)| >= |JoinLines(ds[1..])| + |ds[0]| + if |ds| > 1 then 1 else 0
  {
    if |ds| > 1 {
      JoinLinesLength(ds[..|ds| - 1]);
      assert ds[1..][..|ds| - 2] == ds[..|ds| - 1][1..];
      if |ds| > 2 { assert ds[1..][|ds| - 2] == ds[|ds| - 1]; }
      else { assert ds[1..] == [ds[1]] && ds[..1] == [ds[0]] && ds[..1][1..] == []; }
    }
  }

  lemma {:induction false} DropEmptyShorter(ds: seq<string>)
    ensures |JoinLines(DropEmpty(ds))| <= |JoinLines(ds)|
    ensures |ds| > 1 && ds[0] == "" ==> |JoinLines(DropEmpty(ds))| < |JoinLines(ds)|
  {
    if ds != [] && ds[0] == "" {
      DropEmptyShorter(ds[1..]);
      JoinLinesLength(ds);
    }
  }

  lemma PayloadExactIff(e: Sent)
    ensures Payload(e) != "" && Payload(e) == JoinLines(e.lines) <==> StartsNonEmpty(e)
  {
    if StartsNonEmpty(e) {
      BufferEmptyIff(e.lines);
    } else {
      DropEmptyShorter(e.lines);
      if |e.lines| == 1 { assert e.lines == [""] && DropEmpty(e.lines) == []; }
    }
  }

  lemma {:induction false} ReceivedAtMost(es: seq<Sent>)
    ensures |Received(es)| <= |es| && |Original(es)| == |es|
  {
    if es != [] { ReceivedAtMost(es[..|es| - 1]); }
  }

  /** The events come back unchanged exactly when each has a nonempty first data line. */
  lemma {:induction false} RoundTripIff(es: seq<Sent>)
    ensures Received(es) == Original(es) <==> forall e :: e in es ==> StartsNonEmpty(e)
  {
    if es != [] {
      var before, e := es[..|es| - 1], es[|es| - 1];
      RoundTripIff(before);
      PayloadExactIff(e);
      ReceivedAtMost(before);
      assert es == before + [e];
      if Received(es) == Original(es) {
        assert |Received(es)| == |before| + 1;
        assert Received(before) == Received(es)[..|before|] == Original(before);
      }
    }
  }
}
