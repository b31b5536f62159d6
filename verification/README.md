# Chat logger core, modelled in Dafny

This project models the message-handling core of a chat logger for a
livestream chat server. The logger receives chat events over Socket.IO. It
decodes each chat message, extracts the visible text and the team tag from
the message's markup, and appends one tab-separated line per message to a
transcript file. The model covers five parts:

- the team-tag recogniser and how a team is rendered (`team.dfy`, module `Team`);
- the walk over the top-level nodes of a parsed message body, with Rust's `str::trim` (`markup.dfy`, `text.dfy`);
- the chat message itself (`chat.dfy`, module `Messages`):
  - its JSON decoding, over an abstract view of the JSON value;
  - its transcript line and its short log form, each with a reader that recovers the fields;
  - the server-whisper test;
- the consumer task's event loop (`consumer.dfy`):
  - a method that mirrors the loop;
  - a pure reference reading of what it writes;
- the choice of the first configured server (`socket.dfy`).

`wrappers.dfy` holds `Option` and `Result`.

The event channel is a finite sequence of events. The end of that sequence
stands for the channel closing. The transcript file is the sequence of
strings that were written to it successfully. Whether a write succeeds is an
oracle: a set of write-attempt numbers that fail. The JSON decoder is a
parameter of the consumer, and the logger's own decoder is `Messages.Decode`.

The consumer loop here follows `src/main.rs:173-201`. It writes every message
that decodes. It keeps no last-timestamp state, so it has no ordering filter.
It never calls `should_be_skipped`, so it does not suppress server whispers.
It has no login event. `Consumer.WhispersAreWritten` proves that a server whisper gets its write attempt like any other message.

## Model

| member | source | states |
|---|---|---|
| `Team.NamedFromElement` | src/data.rs:113-125 | Returns a team exactly when the text starts with `-team`, ends with `-` and is longer than six characters. The name is non-empty, and the text is exactly `-team` + name + `-`. |
| `Team.TagChecksBoundLength` | src/data.rs:114-120 | Once both the prefix and the suffix checks pass, the text has at least six characters, so the slice `[5..len-1]` is in range. |
| `Team.NamedFromTag` | src/data.rs:113-125 | Round trip: for every non-empty name, `-team<name>-` is recognised as that name. |
| `Team.NamedFromElementExactly` | src/data.rs:113-125 | Both directions: the recogniser returns `Named(n)` if and only if `n` is non-empty and the text is `-team<n>-`. |
| `Team.BlankTagRejected` | src/data.rs:120-123 | `-team-` yields no team. |
| `Team.NamedFromElementExamples` | src/data.rs:396-405 | The unit-test cases: `-team1999-`, `-teama-` and `-teamhanny-` name teams; `-teamv` and `teamv` do not. |
| `Team.Display` | src/data.rs:102-108 | No team renders as `NULL`; a named team renders as exactly its name. |
| `Team.DisplayInjective` | src/data.rs:102-108 | Two teams that render the same are equal, or they are no team and a team named `NULL`. |
| `Text.Trim` | src/data.rs:90 | The result has no whitespace at either end, and it is the part of the input that starts right after the leading whitespace. |
| `Text.TrimRemovesWhitespace` | src/data.rs:90 | Everything the trim drops, before and after the kept part, is whitespace. |
| `Text.TrimSurrounded` | src/data.rs:90 | Wrap a string that starts and ends with non-whitespace in any whitespace on either side, and trimming gives back exactly that string. |
| `Text.TrimIdempotent` | src/data.rs:90 | Trimming twice equals trimming once. |
| `Text.Decimal` | src/data.rs:33-34 | The decimal rendering of the `u64` time is a non-empty string of digits with no superfluous leading zero. |
| `Text.DecimalRoundTrip` | src/data.rs:33-34 | Reading the rendered digits back gives the original number. |
| `Text.DecimalOfValue` | src/data.rs:33-34 | Every digit string with no superfluous leading zero is the rendering of its own value (the converse round trip). |
| `Text.DecimalInjective` | src/data.rs:33-34 | Distinct times render differently. |
| `Markup.Walk` | src/data.rs:67-88 | The child loop appends each node's contribution in child order: text verbatim, an element's source text, nothing for a team span or another node kind. The resulting team is the one from the last span with a valid tag, or the previous team if no span has one. |
| `Markup.DeserializeFrom` | src/data.rs:59-93 | A parse failure is a decode error. Otherwise the text is the trimmed concatenation of the contributions, and the team is the last valid tag's team or `Empty`. |
| `Markup.TeamSpanAddsNoText` | src/data.rs:72-80 | Inserting a `teamColorSpan` anywhere among the nodes leaves the text unchanged. |
| `Markup.TeamSpansIgnoredInText` | src/data.rs:72-80 | Removing every team span leaves the text unchanged. |
| `Markup.LastSpanTeamNone` | src/data.rs:66-80 | No team is found if and only if no top-level team span carries a valid tag. |
| `Markup.LastSpanTeamIsLastMatch` | src/data.rs:66-80 | A team that is found is the one from the last span with a valid tag; no later span carries one. |
| `Markup.TeamEmptyIffNoTag` | src/data.rs:66-80 | A parsed message has team `Empty` if and only if no top-level team span's first child is a text node holding a valid tag. |
| `Markup.GreentextExample` | src/data.rs:171-197 | `&gt;XD ` followed by a span holding `-teamwg-` decodes to text `&gt;XD` with team `wg`. |
| `Markup.ImageExample` | src/data.rs:145-169 | A linked image, which is an element that is not a team span, is kept verbatim as its source text, with no team. |
| `Messages.ShouldBeSkipped` | src/data.rs:20-26 | True exactly when `addClass` is present and equal to `server-whisper`; false when it is absent or holds any other class. |
| `Messages.WhisperIffAddClass` | src/data.rs:21-26 | A decoded message is a whisper exactly when the raw `meta.addClass` member is the string `server-whisper`. |
| `Messages.WhisperDecodes` | src/data.rs:247-278 | A value that decodes still decodes when its `addClass` is `server-whisper`, and the result is a whisper. |
| `Messages.Decode` | src/data.rs:5-12 | Decoding succeeds exactly when `time` is an integer JSON number in `u64` range, `username` is a string, `msg` is a string that the markup parser accepts, and `meta` is an object whose `addClass` is absent, null or a string. The message carries those members, with the body walked by `DeserializeFrom`. A failure names a real fault of the value. |
| `Messages.TimeRangeErrors` | src/data.rs:7 | When every other member is valid, a negative `time` that fits `i64` is an invalid value. An integer beyond both the `i64` and the `u64` range is held as a float and is an invalid type. `u64::MAX` is accepted. |
| `Messages.Display` | src/data.rs:29-36 | Renders time, team, user and text separated by tabs; what it promises is stated by `Messages.DisplayStartsWithTime`, `Messages.DisplayParses` and `Messages.DisplayExample`. |
| `Messages.DisplayStartsWithTime` | src/data.rs:29-36 | Whatever the team, user and text hold, the transcript line up to its first tab is all digits, and those digits read back to the message's time. |
| `Messages.DisplayParses` | src/data.rs:29-36 | Splitting the transcript line at its first three tabs gives back the time digits, the rendered team, the user and the text. This needs the team and the user to hold no tab. The digits read back to the exact time. |
| `Messages.DisplayDeterminesMessage` | src/data.rs:29-36 | Two tab-free messages with the same transcript line agree on time, user, text and rendered team. |
| `Messages.DisplayExample` | src/data.rs:280-292 | The unit-test case: time `1760634889806`, team `vg`, user `Dog` and text `5 &gt; 3` render as `1760634889806\tvg\tDog\t5 &gt; 3`. |
| `Messages.ShortFormat` | src/data.rs:15-18 | `<user> text` reads back into the user and the text when the user name holds no `>`. |
| `Messages.ShortFormatExample` | src/data.rs:294-306 | The unit-test case: user `Dog` with text `:carlos:` gives `<Dog> :carlos:`. |
| `Consumer.Line` | src/main.rs:185 | The string written for a message; what it promises is stated by `Consumer.LineIsOneLine`. |
| `Consumer.LineIsOneLine` | src/main.rs:185 | The written string is the message's transcript line followed by a newline. When no field of the message holds a newline, that newline is the first one, so each message takes exactly one line of the file. |
| `Consumer.WriteValue` | src/main.rs:177-188 | One value: a decode failure attempts no write. A message makes exactly one write attempt of its line, and the line reaches the file unless that attempt's number is a failure. |
| `Consumer.WriteBatch` | src/main.rs:176-189 | A chat batch makes one attempt per decodable value, in batch order. The file grows by exactly the lines whose attempts succeed. |
| `Consumer.Manage` | src/main.rs:173-201 | The loop makes one attempt per line of the reference reading, which covers every chat batch before the first `Terminate`, and the file holds exactly the successful ones. It stops at the first `Terminate`, right after receiving it, or otherwise once every event has been received. |
| `Consumer.BatchLinesAround` | src/main.rs:177-189 | A batch's lines are those of the values before any given value, then that value's own lines, then those of the values after it. |
| `Consumer.DecodedValueWritten` | src/main.rs:177-188 | A value that decodes asks for exactly `Display(chat) + "\n"`, at its own place in the batch. |
| `Consumer.UndecodableValueSkipped` | src/main.rs:178-184 | A value that fails to decode is skipped, and the rest of the batch is still processed. |
| `Consumer.BatchLinesCount` | src/main.rs:176-189 | A batch asks for as many lines as it has values that decode. |
| `Consumer.AttemptedIsOneBatch` | src/main.rs:174-199 | Batch boundaries and `Disconnect`s do not matter. The consumer asks for the lines of all values received before the first `Terminate`, in arrival order. |
| `Consumer.AttemptsCount` | src/main.rs:174-199 | The number of write attempts equals the number of values that decode in chat batches before the first `Terminate`. Nothing is filtered. |
| `Consumer.TerminateEndsInput` | src/main.rs:195-198 | Events after the first `Terminate` affect neither the lines nor the values received. |
| `Consumer.DisconnectChangesNothing` | src/main.rs:191-194 | Removing a `Disconnect` from anywhere in the stream leaves the output unchanged. |
| `Consumer.DecodedMessageAttempted` | src/main.rs:174-189 | Every message decoded from a chat batch that arrives before any `Terminate` gets its write attempt. |
| `Consumer.WhispersAreWritten` | src/main.rs:176-189 | With the logger's own decoder, a server whisper received before any `Terminate` has its line among the attempted writes, like every other message. |
| `Consumer.SurvivorsLength` | src/main.rs:185-188 | Write failures never add lines. Every attempted line reaches the file if and only if none of the attempts fails. |
| `Consumer.FailedWriteLosesOnlyItsLine` | src/main.rs:185-188 | A failed write loses its own line and nothing else. Every later attempt still reaches the file unless it fails too. |
| `Socket.LookupSocketAddress` | src/main.rs:59-77 | Returns the first listed server's URL when the list is non-empty and `NotFound` when it is empty. Request and parse failures pass through as `Request` and `Parse`. |

## Left out

- JSON decoding (serde). `Messages.RawValue` is an abstract view of the JSON value: a non-object, or an object whose four members are each absent, null, of the wrong type, or present. Members the struct does not name are ignored, as serde ignores them. serde's sequence form of a struct is not modelled.
- Messages.Decode: the JSON number forms are modelled only as serde_json holds them without its `arbitrary_precision` feature. A number written with a fraction or an exponent, and `-0`, are floats and count as `WrongType`. No other rounding is modelled.
- Messages.TimeRangeErrors: pins the `time` error only for values whose other members are all valid, because with several faults serde reports the first faulty key it meets in the object's key order.
- Messages.Decode: when a value has several faults, which one serde reports depends on the order of the object's keys, so the contract only promises that the reported error names a real fault.
- The markup parser. `Markup.Dom` is its result: the top-level nodes, or a parse failure. Other node kinds collapse into `Other`, which the walk ignores apart from a debug log.
- `str::trim` is modelled on characters, using the Unicode `White_Space` set that `char::is_whitespace` uses. Byte-level UTF-8 encoding is not modelled. The recogniser's byte slice `[5..len-1]` equals the character slice because `-team` and `-` are ASCII.
- Consumer.WriteValue: a failed write is modelled as writing nothing. A partial write before the error is not modelled.
- Consumer.Manage: it takes the decoder as a parameter, and `Consumer.WhispersAreWritten` instantiates it with `Messages.Decode`. Logging of decode failures, write failures and disconnects is not modelled, because it does not touch the transcript.
- The `Login` and `SocketConfig` structs are plain deserialisation targets with no logic. `Login` events are not produced by the code's event type.
- The channel (`src/channel.rs`): its capacity of 64, backpressure and the sender handles are concurrency with no logic of their own. FIFO order is the order of the event sequence.
- `parse_domain` (`src/utils.rs`) delegates to the `url` crate.
- Runtime plumbing in `src/main.rs` is I/O and concurrency and is not modelled:
  - the Socket.IO client and its handlers, including the chat handler that drops non-text payloads;
  - the connect timeout;
  - the `joinChannel` emit;
  - the Ctrl-C wait and the sending of `Terminate`;
  - awaiting the consumer;
  - the final disconnect;
  - the HTTP fetch and the socket-configuration URL format;
  - the transcript file's name, which comes from the UTC clock;
  - the process exit on lookup errors.
