/**
 The logger's consumer task (`manager`): it receives events from the
 channel one at a time, decodes every value of a chat batch, and writes one
 transcript line per decoded message. The channel is a finite sequence of
 events whose end stands for every sender having gone; the log file is the
 sequence of strings successfully written to it. The JSON decoder is a
 parameter `decode`; the logger's own is `Messages.Decode`.
 */
module Consumer {
  import opened Wrappers
  import opened Messages
  import Text
  import Team

  /** What the transport callbacks send the consumer. */
  datatype Event = Chat(values: seq<RawValue>) | Disconnect | Terminate

  /** Why the consumer stopped: a `Terminate` event, or the channel running dry. */
  datatype Exit = Terminated | ChannelClosed

  /** What `write!(file, "{}\n", chat)` writes for a message. */
  function Line(m: ChatMessage): string {
    Display(m) + "\n"
  }

  /**
   A written line is the transcript line and a newline, and that newline is
   its only one when no field of the message holds one.
   */
  lemma LineIsOneLine(m: ChatMessage)
    ensures |Line(m)| > 0 && Line(m)[|Line(m)| - 1] == '\n' && Line(m)[..|Line(m)| - 1] == Display(m)
    ensures '\n' !in Team.Display(m.msg.team) && '\n' !in m.username && '\n' !in m.msg.text
            ==> Text.IndexOf(Line(m), '\n') == |Line(m)| - 1
  {
    var d := Display(m);
    assert Line(m)[..|d|] == d;
    if '\n' !in Team.Display(m.msg.team) && '\n' !in m.username && '\n' !in m.msg.text {
      var time := Text.Decimal(m.time);
      assert '\n' !in time by {
        forall k | 0 <= k < |time| ensures time[k] != '\n' {
          assert Text.IsDigit(time[k]);
        }
      }
      assert d == time + "\t" + Team.Display(m.msg.team) + "\t" + m.username + "\t" + m.msg.text;
      assert '\n' !in d;
      Text.IndexOfAfter(d, '\n', []);
      assert d + ['\n'] + [] == Line(m);
    }
  }

  // Reference reading of the consumer.

  /** A JSON decoder for chat messages. */
  type Decoder = RawValue -> Result<ChatMessage, DecodeError>

  /** The line a value asks to write: one if it decodes, none otherwise. */
  function LinesOf(v: RawValue, decode: Decoder): seq<string> {
    match decode(v)
    case Ok(m) => [Line(m)]
    case Err(_) => []
  }

  /** The lines a chat batch asks to write, in batch order. */
  function BatchLines(values: seq<RawValue>, decode: Decoder): seq<string> {
    if |values| == 0 then []
    else BatchLines(values[..|values| - 1], decode) + LinesOf(values[|values| - 1], decode)
  }

  /** The lines the consumer tries to write for `events`: every chat batch before the first `Terminate`. */
  function Attempted(events: seq<Event>, decode: Decoder): seq<string> {
    if |events| == 0 then []
    else match events[0]
      case Chat(values) => BatchLines(values, decode) + Attempted(events[1..], decode)
      case Disconnect => Attempted(events[1..], decode)
      case Terminate => []
  }

  /**
   The lines that reach the file when the write attempts numbered in
   `failures` fail; `base` is the number of the first attempt in `lines`.
   A failed write leaves the file as it was.
   */
  function Survivors(lines: seq<string>, failures: set<nat>, base: nat): seq<string> {
    if |lines| == 0 then []
    else (if base in failures then [] else [lines[0]]) + Survivors(lines[1..], failures, base + 1)
  }

  predicate NoTerminate(events: seq<Event>) {
    forall k :: 0 <= k < |events| ==> !events[k].Terminate?
  }

  // The consumer loop.

  lemma {:induction false} SurvivorsAppend(a: seq<string>, b: seq<string>, failures: set<nat>, base: nat)
    ensures Survivors(a + b, failures, base) == Survivors(a, failures, base) + Survivors(b, failures, base + |a|)
    decreases |a|
  {
    if |a| > 0 {
      assert (a + b)[1..] == a[1..] + b;
      SurvivorsAppend(a[1..], b, failures, base + 1);
    } else {
      assert a + b == b;
    }
  }

  /** One more attempt reaches the file exactly when its number is not a failure. */
  lemma SurvivorsSnoc(lines: seq<string>, line: string, failures: set<nat>, base: nat)
    ensures Survivors(lines + [line], failures, base) ==
            Survivors(lines, failures, base) + (if base + |lines| in failures then [] else [line])
  {
    SurvivorsAppend(lines, [line], failures, base);
    assert Survivors([line], failures, base + |lines|) ==
           (if base + |lines| in failures then [] else [line]) + Survivors([], failures, base + |lines| + 1);
  }

  /** An attempt that fails adds nothing to the file. */
  lemma SurvivorsSnocFailed(lines: seq<string>, line: string, failures: set<nat>, base: nat)
    requires base + |lines| in failures
    ensures Survivors(lines + [line], failures, base) == Survivors(lines, failures, base)
  {
    SurvivorsSnoc(lines, line, failures, base);
    assert Survivors(lines, failures, base) + [] == Survivors(lines, failures, base);
  }

  lemma {:induction false} AttemptedAppend(a: seq<Event>, b: seq<Event>, decode: Decoder)
    requires NoTerminate(a)
    ensures Attempted(a + b, decode) == Attempted(a, decode) + Attempted(b, decode)
    decreases |a|
  {
    if |a| > 0 {
      assert (a + b)[0] == a[0];
      assert (a + b)[1..] == a[1..] + b;
      AttemptedAppend(a[1..], b, decode);
    } else {
      assert a + b == b;
    }
  }

  /** The lines of a batch's first `j + 1` values, and which of them reach the file. */
  lemma BatchStep(values: seq<RawValue>, j: nat, decode: Decoder, failures: set<nat>, base: nat)
    requires j < |values|
    ensures |BatchLines(values[..j + 1], decode)| == |BatchLines(values[..j], decode)| + |LinesOf(values[j], decode)|
    ensures Survivors(BatchLines(values[..j + 1], decode), failures, base) ==
            Survivors(BatchLines(values[..j], decode), failures, base)
            + Survivors(LinesOf(values[j], decode), failures, base + |BatchLines(values[..j], decode)|)
  {
    BatchLinesPrefix(values, j, decode);
    SurvivorsAppend(BatchLines(values[..j], decode), LinesOf(values[j], decode), failures, base);
  }

  /**
   One turn of the loop over a chat batch: the value is decoded; a value
   that fails is reported and skipped, a message gets one write attempt.
   `attempts` counts the attempts made so far; attempt number `n` fails
   exactly when `n` is in `failures`, and a failure is only reported.
   */
  method WriteValue(value: RawValue, decode: Decoder, failures: set<nat>, file: seq<string>, attempts: nat)
    returns (file': seq<string>, attempts': nat)
    ensures attempts' == attempts + |LinesOf(value, decode)|
    ensures file' == file + Survivors(LinesOf(value, decode), failures, attempts)
  {
    file', attempts' := file, attempts;
    match decode(value)
    case Err(_) =>
      // Reported and skipped.
    case Ok(chat) =>
      var line := Line(chat);
      assert Survivors([line], failures, attempts) ==
             (if attempts in failures then [] else [line]) + Survivors([], failures, attempts + 1);
      if attempts !in failures {
        file' := file' + [line];
      }
      attempts' := attempts' + 1;
  }

  /** The loop over the values of one chat batch, in batch order. */
  method WriteBatch(values: seq<RawValue>, decode: Decoder, failures: set<nat>, file: seq<string>, attempts: nat)
    returns (file': seq<string>, attempts': nat)
    ensures attempts' == attempts + |BatchLines(values, decode)|
    ensures file' == file + Survivors(BatchLines(values, decode), failures, attempts)
  {
    file', attempts' := file, attempts;
    var j := 0;
    assert values[..0] == [];
    while j < |values|
      invariant j <= |values|
      invariant attempts' == attempts + |BatchLines(values[..j], decode)|
      invariant file' == file + Survivors(BatchLines(values[..j], decode), failures, attempts)
    {
      ghost var kept := Survivors(BatchLines(values[..j], decode), failures, attempts);
      ghost var added := Survivors(LinesOf(values[j], decode), failures, attempts');
      BatchStep(values, j, decode, failures, attempts);
      file', attempts' := WriteValue(values[j], decode, failures, file', attempts');
      assert file' == (file + kept) + added;
      j := j + 1;
    }
    assert values[..j] == values;
  }

  /**
   The `manager` task's loop. Write attempt number `n` (counting from 0)
   fails exactly when `n` is in `failures`. The loop ends at the first
   `Terminate` or when the channel has no more events; `received` counts the
   events it took from the channel.
   */
  method Manage(events: seq<Event>, decode: Decoder, failures: set<nat>)
    returns (file: seq<string>, attempts: nat, received: nat, exit: Exit)
    ensures attempts == |Attempted(events, decode)|
    ensures file == Survivors(Attempted(events, decode), failures, 0)
    ensures exit == Terminated <==> !NoTerminate(events)
    ensures exit == Terminated ==>
              0 < received <= |events| && events[received - 1].Terminate? && NoTerminate(events[..received - 1])
    ensures exit == ChannelClosed ==> received == |events|
  {
    file, attempts, received, exit := [], 0, 0, ChannelClosed;
    while received < |events|
      invariant received <= |events|
      invariant NoTerminate(events[..received])
      invariant attempts == |Attempted(events[..received], decode)|
      invariant file == Survivors(Attempted(events[..received], decode), failures, 0)
      decreases |events| - received
    {
      var event := events[received];
      ghost var before := events[..received];
      assert events[..received + 1] == before + [event];
      AttemptedAppend(before, [event], decode);
      assert [event][1..] == [];
      received := received + 1;
      match event
      case Chat(values) =>
        assert Attempted([event], decode) == BatchLines(values, decode) + Attempted([], decode);
        ghost var kept := file;
        file, attempts := WriteBatch(values, decode, failures, file, attempts);
        SurvivorsAppend(Attempted(before, decode), BatchLines(values, decode), failures, 0);
        assert Attempted(events[..received], decode) == Attempted(before, decode) + BatchLines(values, decode);
        assert file == kept + Survivors(BatchLines(values, decode), failures, |Attempted(before, decode)|);
      case Disconnect =>
        // Reported only; the loop goes on.
        assert Attempted([event], decode) == [];
        assert Attempted(events[..received], decode) == Attempted(before, decode);
      case Terminate =>
        AttemptedAppend(before, events[received - 1..], decode);
        assert before + events[received - 1..] == events;
        assert Attempted(events[received - 1..], decode) == [];
        assert Attempted(events, decode) == Attempted(before, decode);
        exit := Terminated;
        break;
    }
    if exit == ChannelClosed {
      assert events[..received] == events;
    }
  }

  // Properties of the consumer.

  lemma {:induction false} BatchLinesAppend(a: seq<RawValue>, b: seq<RawValue>, decode: Decoder)
    ensures BatchLines(a + b, decode) == BatchLines(a, decode) + BatchLines(b, decode)
    decreases |b|
  {
    if |b| == 0 {
      assert a + b == a;
    } else {
      var b' := b[..|b| - 1];
      assert (a + b)[..|a + b| - 1] == a + b';
      assert (a + b)[|a + b| - 1] == b[|b| - 1];
      BatchLinesAppend(a, b', decode);
    }
  }

  /** A batch prefix one value longer asks for that value's lines after the shorter prefix's. */
  lemma BatchLinesPrefix(values: seq<RawValue>, j: nat, decode: Decoder)
    requires j < |values|
    ensures BatchLines(values[..j + 1], decode) == BatchLines(values[..j], decode) + LinesOf(values[j], decode)
  {
    assert values[..j + 1][..j] == values[..j];
  }

  /** A batch splits around any one of its values. */
  lemma BatchLinesAround(values: seq<RawValue>, j: nat, decode: Decoder)
    requires j < |values|
    ensures BatchLines(values, decode) ==
            BatchLines(values[..j], decode) + LinesOf(values[j], decode) + BatchLines(values[j + 1..], decode)
  {
    assert values == values[..j + 1] + values[j + 1..];
    BatchLinesAppend(values[..j + 1], values[j + 1..], decode);
    BatchLinesPrefix(values, j, decode);
  }

  /**
   A value that decodes asks for exactly its own line, at its own place in
   the batch: nothing that decodes is filtered out, server whispers included.
   */
  lemma DecodedValueWritten(values: seq<RawValue>, j: nat, decode: Decoder)
    requires j < |values| && decode(values[j]).Ok?
    ensures BatchLines(values, decode) ==
            BatchLines(values[..j], decode) + [Line(decode(values[j]).value)] + BatchLines(values[j + 1..], decode)
  {
    BatchLinesAround(values, j, decode);
  }

  /** A value that fails to decode is skipped and the rest of its batch still counts. */
  lemma UndecodableValueSkipped(values: seq<RawValue>, j: nat, decode: Decoder)
    requires j < |values| && decode(values[j]).Err?
    ensures BatchLines(values, decode) == BatchLines(values[..j], decode) + BatchLines(values[j + 1..], decode)
  {
    BatchLinesAround(values, j, decode);
  }

  /** How many of `values` decode. */
  function CountDecoded(values: seq<RawValue>, decode: Decoder): nat {
    if |values| == 0 then 0
    else CountDecoded(values[1..], decode) + if decode(values[0]).Ok? then 1 else 0
  }

  /** A batch asks for one line per value that decodes. */
  lemma {:induction false} BatchLinesCount(values: seq<RawValue>, decode: Decoder)
    ensures |BatchLines(values, decode)| == CountDecoded(values, decode)
    decreases |values|
  {
    if |values| > 0 {
      assert values == [values[0]] + values[1..];
      BatchLinesAppend([values[0]], values[1..], decode);
      assert [values[0]][..0] == [];
      BatchLinesCount(values[1..], decode);
    }
  }

  /** Every value of every chat batch received before the first `Terminate`, in order. */
  function ReceivedValues(events: seq<Event>): seq<RawValue> {
    if |events| == 0 then []
    else match events[0]
      case Chat(values) => values + ReceivedValues(events[1..])
      case Disconnect => ReceivedValues(events[1..])
      case Terminate => []
  }

  /** Batch boundaries do not matter: the consumer asks for the lines of all received values, in order. */
  lemma {:induction false} AttemptedIsOneBatch(events: seq<Event>, decode: Decoder)
    ensures Attempted(events, decode) == BatchLines(ReceivedValues(events), decode)
    decreases |events|
  {
    if |events| > 0 {
      AttemptedIsOneBatch(events[1..], decode);
      if events[0].Chat? {
        BatchLinesAppend(events[0].values, ReceivedValues(events[1..]), decode);
      }
    }
  }

  /** One write attempt per received value that decodes: nothing is filtered. */
  lemma AttemptsCount(events: seq<Event>, decode: Decoder)
    ensures |Attempted(events, decode)| == CountDecoded(ReceivedValues(events), decode)
  {
    AttemptedIsOneBatch(events, decode);
    BatchLinesCount(ReceivedValues(events), decode);
  }

  /** Nothing after the first `Terminate` is looked at. */
  lemma {:induction false} TerminateEndsInput(before: seq<Event>, after: seq<Event>, decode: Decoder)
    ensures Attempted(before + [Terminate] + after, decode) == Attempted(before + [Terminate], decode)
    ensures ReceivedValues(before + [Terminate] + after) == ReceivedValues(before + [Terminate])
    decreases |before|
  {
    if |before| == 0 {
      assert before + [Terminate] + after == [Terminate] + after;
      assert before + [Terminate] == [Terminate];
    } else {
      assert (before + [Terminate] + after)[1..] == before[1..] + [Terminate] + after;
      assert (before + [Terminate])[1..] == before[1..] + [Terminate];
      TerminateEndsInput(before[1..], after, decode);
    }
  }

  /** A `Disconnect` neither writes nor stops anything. */
  lemma {:induction false} DisconnectChangesNothing(before: seq<Event>, after: seq<Event>, decode: Decoder)
    ensures Attempted(before + [Disconnect] + after, decode) == Attempted(before + after, decode)
    decreases |before|
  {
    if |before| == 0 {
      assert before + [Disconnect] + after == [Disconnect] + after;
      assert ([Disconnect] + after)[1..] == after;
      assert before + after == after;
    } else {
      assert (before + [Disconnect] + after)[1..] == before[1..] + [Disconnect] + after;
      assert (before + after)[1..] == before[1..] + after;
      assert (before + after)[0] == before[0];
      DisconnectChangesNothing(before[1..], after, decode);
    }
  }

  /**
   Every message decoded from a chat batch that arrives before any
   `Terminate` gets its write attempt.
   */
  lemma DecodedMessageAttempted(events: seq<Event>, k: nat, j: nat, decode: Decoder)
    requires k < |events| && NoTerminate(events[..k]) && events[k].Chat?
    requires j < |events[k].values| && decode(events[k].values[j]).Ok?
    ensures Line(decode(events[k].values[j]).value) in Attempted(events, decode)
  {
    var values := events[k].values;
    assert events == events[..k] + events[k..];
    AttemptedAppend(events[..k], events[k..], decode);
    DecodedValueWritten(values, j, decode);
    assert Attempted(events[k..], decode) == BatchLines(values, decode) + Attempted(events[k + 1..], decode) by {
      assert events[k..][1..] == events[k + 1..];
    }
    assert BatchLines(values, decode)[|BatchLines(values[..j], decode)|] == Line(decode(values[j]).value);
  }

  /**
   The logger's consumer writes server whispers too: it never consults
   `should_be_skipped`.
   */
  lemma WhispersAreWritten(events: seq<Event>, k: nat, j: nat)
    requires k < |events| && NoTerminate(events[..k]) && events[k].Chat?
    requires j < |events[k].values| && Decode(events[k].values[j]).Ok?
    requires ShouldBeSkipped(Decode(events[k].values[j]).value)
    ensures Line(Decode(events[k].values[j]).value) in Attempted(events, Decode)
  {
    DecodedMessageAttempted(events, k, j, Decode);
  }

  lemma {:induction false} SurvivorsLength(lines: seq<string>, failures: set<nat>, base: nat)
    ensures |Survivors(lines, failures, base)| <= |lines|
    ensures Survivors(lines, failures, base) == lines
            <==> forall n :: base <= n < base + |lines| ==> n !in failures
    decreases |lines|
  {
    if |lines| > 0 {
      SurvivorsLength(lines[1..], failures, base + 1);
      if base in failures {
        assert |Survivors(lines, failures, base)| < |lines|;
      } else {
        assert lines == [lines[0]] + lines[1..];
      }
    }
  }

  /** A failed write loses its own line and nothing else: later attempts still reach the file. */
  lemma FailedWriteLosesOnlyItsLine(lines: seq<string>, failures: set<nat>, k: nat)
    requires k < |lines| && k in failures
    ensures Survivors(lines, failures, 0) ==
            Survivors(lines[..k], failures, 0) + Survivors(lines[k + 1..], failures, k + 1)
  {
    var before, upTo, after := lines[..k], lines[..k + 1], lines[k + 1..];
    assert lines == upTo + after;
    assert upTo == before + [lines[k]];
    SurvivorsAppend(upTo, after, failures, 0);
    SurvivorsSnocFailed(before, lines[k], failures, 0);
  }
}
