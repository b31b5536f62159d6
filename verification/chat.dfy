/**
 A decoded chat message (`ChatMessage` in the logger) and the ways the
 logger renders it: the tab-separated transcript line, the short log form,
 and the server-whisper test. Decoding starts from an abstract view of the
 JSON value; the JSON and markup parsers themselves are foreign code.
 */
module Messages {
  import opened Wrappers
  import opened Text
  import Team
  import opened Markup

  /** Rust's `u64`. */
  type U64 = x: int | 0 <= x < 0x1_0000_0000_0000_0000

  /** The `meta` object: only `addClass` is read. */
  datatype ChatMeta = ChatMeta(addClass: Option<string>)

  datatype ChatMessage = ChatMessage(time: U64, username: string, msg: MessageContainer, meta: ChatMeta)

  // Rendering.

  /**
   `short_format`: `<user> text`, used only in diagnostics. It reads back
   into the user and the text whenever the user name holds no `>`.
   */
  function ShortFormat(m: ChatMessage): (r: string)
    ensures '>' !in m.username ==> ParseShort(r) == Some((m.username, m.msg.text))
  {
    var rest := " " + m.msg.text;
    var r := "<" + m.username + "> " + m.msg.text;
    assert r[1..] == m.username + ['>'] + rest;
    if '>' in m.username then r
    else
      SplitAtPlaced(m.username, '>', rest);
      assert rest[1..] == m.msg.text;
      r
  }

  /** `should_be_skipped`: the message is a server whisper. */
  function ShouldBeSkipped(m: ChatMessage): (r: bool)
    ensures r <==> m.meta.addClass == Some("server-whisper")
  {
    match m.meta.addClass
    case Some(addClass) => addClass == "server-whisper"
    case None => false
  }

  /** `Display for ChatMessage`: time, team, user and text separated by tabs. */
  function Display(m: ChatMessage): string {
    Decimal(m.time) + "\t" + Team.Display(m.msg.team) + "\t" + m.username + "\t" + m.msg.text
  }

  /**
   Whatever the other fields hold, the transcript line up to its first tab
   is the time's digits and reads back as the time.
   */
  lemma DisplayStartsWithTime(m: ChatMessage)
    ensures AllDigits(Display(m)[..IndexOf(Display(m), '\t')])
    ensures DecimalValue(Display(m)[..IndexOf(Display(m), '\t')]) == m.time
  {
    var time := Decimal(m.time);
    var rest := Team.Display(m.msg.team) + "\t" + m.username + "\t" + m.msg.text;
    assert '\t' !in time;
    assert Display(m) == time + ['\t'] + rest;
    IndexOfAfter(time, '\t', rest);
    assert Display(m)[..|time|] == time;
    DecimalRoundTrip(m.time);
  }

  // Reading the renderings back, as a reader of the transcript or the log would.

  /** The four fields of a transcript line, as text. */
  datatype LineFields = LineFields(time: string, team: string, username: string, text: string)

  /** Splits `s` at its first `c`. */
  function SplitAt(s: string, c: char): (r: Option<(string, string)>)
    ensures r.None? <==> c !in s
    ensures r.Some? ==> s == r.value.0 + [c] + r.value.1 && c !in r.value.0
  {
    var i := IndexOf(s, c);
    if i == |s| then None
    else
      assert s == s[..i] + [c] + s[i + 1..];
      Some((s[..i], s[i + 1..]))
  }

  /** The fields of a transcript line: up to the first tab, the second, the third, and the rest. */
  function ParseLine(line: string): Option<LineFields> {
    match SplitAt(line, '\t')
    case None => None
    case Some((time, rest)) =>
      match SplitAt(rest, '\t')
      case None => None
      case Some((team, rest')) =>
        match SplitAt(rest', '\t')
        case None => None
        case Some((username, text)) => Some(LineFields(time, team, username, text))
  }

  lemma SplitAtPlaced(a: string, c: char, b: string)
    requires c !in a
    ensures SplitAt(a + [c] + b, c) == Some((a, b))
  {
    IndexOfAfter(a, c, b);
    var s := a + [c] + b;
    assert s[..|a|] == a && s[|a| + 1..] == b;
  }

  /**
   A transcript line gives back every field of the message it was made from,
   the time as its exact number, provided neither the team nor the user name
   holds a tab. The text may hold tabs: it is the last field.
   */
  lemma DisplayParses(m: ChatMessage)
    requires '\t' !in Team.Display(m.msg.team) && '\t' !in m.username
    ensures ParseLine(Display(m)) ==
              Some(LineFields(Decimal(m.time), Team.Display(m.msg.team), m.username, m.msg.text))
    ensures DecimalValue(ParseLine(Display(m)).value.time) == m.time
  {
    var time := Decimal(m.time);
    var team := Team.Display(m.msg.team);
    assert '\t' !in time;
    var rest2 := m.username + "\t" + m.msg.text;
    var rest1 := team + "\t" + rest2;
    assert Display(m) == time + ['\t'] + rest1;
    SplitAtPlaced(time, '\t', rest1);
    assert rest1 == team + ['\t'] + rest2;
    SplitAtPlaced(team, '\t', rest2);
    assert rest2 == m.username + ['\t'] + m.msg.text;
    SplitAtPlaced(m.username, '\t', m.msg.text);
    DecimalRoundTrip(m.time);
  }

  /** Two messages with the same transcript line agree on time, user and text (team names aside). */
  lemma DisplayDeterminesMessage(m: ChatMessage, n: ChatMessage)
    requires '\t' !in Team.Display(m.msg.team) && '\t' !in m.username
    requires '\t' !in Team.Display(n.msg.team) && '\t' !in n.username
    requires Display(m) == Display(n)
    ensures m.time == n.time && m.username == n.username && m.msg.text == n.msg.text
    ensures Team.Display(m.msg.team) == Team.Display(n.msg.team)
  {
    DisplayParses(m);
    DisplayParses(n);
    DecimalInjective(m.time, n.time);
  }

  /** Reads `<user> text` back into the user and the text. */
  function ParseShort(s: string): Option<(string, string)> {
    if |s| == 0 || s[0] != '<' then None
    else match SplitAt(s[1..], '>')
      case None => None
      case Some((user, rest)) =>
        if |rest| == 0 || rest[0] != ' ' then None else Some((user, rest[1..]))
  }

  /** The time of the `chat_message_display` test case, digit by digit. */
  lemma DecimalExample()
    ensures Decimal(1760634889806) == "1760634889806"
  {
    assert Decimal(1) == "1";
    assert Decimal(17) == "17";
    assert Decimal(176) == "176";
    assert Decimal(1760) == "1760";
    assert Decimal(17606) == "17606";
    assert Decimal(176063) == "176063";
    assert Decimal(1760634) == "1760634";
    assert Decimal(17606348) == "17606348";
    assert Decimal(176063488) == "176063488";
    assert Decimal(1760634889) == "1760634889";
    assert Decimal(17606348898) == "17606348898";
    assert Decimal(176063488980) == "176063488980";
  }

  /** The transcript line of the `chat_message_display` test case. */
  lemma DisplayExample()
    ensures Display(ChatMessage(1760634889806, "Dog", MessageContainer("5 &gt; 3", Team.Named("vg")), ChatMeta(None)))
            == "1760634889806\tvg\tDog\t5 &gt; 3"
  {
    DecimalExample();
    assert Team.Display(Team.Named("vg")) == "vg";
    assert "1760634889806" + "\t" + "vg" + "\t" + "Dog" + "\t" + "5 &gt; 3" == "1760634889806\tvg\tDog\t5 &gt; 3";
  }

  /** The short form of the `chat_message_short_format` test case. */
  lemma ShortFormatExample()
    ensures ShortFormat(ChatMessage(1760634889806, "Dog", MessageContainer(":carlos:", Team.Named("m")), ChatMeta(None)))
            == "<Dog> :carlos:"
  {
    assert "<" + "Dog" + "> " + ":carlos:" == "<Dog> :carlos:";
  }

  // Decoding.

  /** A member of a JSON object, as the decoder sees it. */
  datatype Field<T> = Absent | Null | WrongType | Present(value: T)

  /** The `meta` object: its `addClass` member. */
  datatype RawMeta = RawMeta(addClass: Field<string>)

  /**
   A JSON value handed to the decoder. For an object, `time` is `Present`
   only for a JSON number written as an integer (no fraction, no exponent,
   not `-0`), holding that integer whatever its size; a number written any
   other way is read as a float and so is `WrongType`, like a string.
   `msg` holds the markup parser's verdict on the string it carries, and
   every other member is ignored.
   */
  datatype RawValue =
    | Object(time: Field<int>, username: Field<string>, msg: Field<Dom>, meta: Field<RawMeta>)
    | NotObject

  datatype DecodeError =
    | NotAnObject
    | MissingField(field: string)
    | InvalidType(field: string)
    | InvalidValue(field: string)
    | BadMarkup(reason: string)

  /** Error for a required member that is not present with the right type. */
  function RequiredError<T>(f: Field<T>, name: string): DecodeError
    requires !f.Present?
  {
    if f.Absent? then MissingField(name) else InvalidType(name)
  }

  /** An optional string member: absent or `null` is `None`. */
  function OptionalString(f: Field<string>): Result<Option<string>, DecodeError> {
    match f
    case Absent => Ok(None)
    case Null => Ok(None)
    case WrongType => Err(InvalidType("addClass"))
    case Present(s) => Ok(Some(s))
  }

  /**
   Whether serde_json keeps an integer as an integer (`u64` or `i64`); one
   outside both ranges is held as a float.
   */
  predicate HeldAsInteger(i: int) {
    -0x8000_0000_0000_0000 <= i < 0x1_0000_0000_0000_0000
  }

  /** Every member the message needs is present, has its type, and is in range. */
  predicate Decodable(v: RawValue) {
    && v.Object?
    && v.time.Present? && 0 <= v.time.value < 0x1_0000_0000_0000_0000
    && v.username.Present?
    && v.msg.Present? && v.msg.value.Parsed?
    && v.meta.Present? && !v.meta.value.addClass.WrongType?
  }

  /** Whether `e` is an error the decoder may report for `v`. */
  predicate Blames(v: RawValue, e: DecodeError) {
    match e
    case NotAnObject => v.NotObject?
    case MissingField(f) =>
      v.Object? && (
        || (f == "time" && v.time.Absent?)
        || (f == "username" && v.username.Absent?)
        || (f == "msg" && v.msg.Absent?)
        || (f == "meta" && v.meta.Absent?))
    case InvalidType(f) =>
      v.Object? && (
        || (f == "time" && (v.time.Null? || v.time.WrongType? || (v.time.Present? && !HeldAsInteger(v.time.value))))
        || (f == "username" && (v.username.Null? || v.username.WrongType?))
        || (f == "msg" && (v.msg.Null? || v.msg.WrongType?))
        || (f == "meta" && (v.meta.Null? || v.meta.WrongType?))
        || (f == "addClass" && v.meta.Present? && v.meta.value.addClass.WrongType?))
    case InvalidValue(f) =>
      v.Object? && f == "time" && v.time.Present? && HeldAsInteger(v.time.value) && v.time.value < 0
    case BadMarkup(reason) =>
      v.Object? && v.msg.Present? && v.msg.value == Unparsable(reason)
  }

  /**
   `serde_json::from_value::<ChatMessage>`: a message exactly when every
   member is usable, carrying those members unchanged and the walked message
   body; otherwise an error that names a real fault of the value (which of
   several faults is named is left open).
   */
  function Decode(v: RawValue): (r: Result<ChatMessage, DecodeError>)
    ensures r.Ok? <==> Decodable(v)
    ensures r.Err? ==> Blames(v, r.error)
    ensures r.Ok? ==> r.value.time == v.time.value && r.value.username == v.username.value
    ensures r.Ok? ==> Ok(r.value.msg) == DeserializeFrom(v.msg.value)
    ensures r.Ok? ==> r.value.meta.addClass == (if v.meta.value.addClass.Present? then Some(v.meta.value.addClass.value) else None)
  {
    match v
    case NotObject => Err(NotAnObject)
    case Object(time, username, msg, meta) =>
      if !time.Present? then Err(RequiredError(time, "time"))
      else if !HeldAsInteger(time.value) then Err(InvalidType("time"))
      else if time.value < 0 then Err(InvalidValue("time"))
      else if !username.Present? then Err(RequiredError(username, "username"))
      else if !msg.Present? then Err(RequiredError(msg, "msg"))
      else
        match DeserializeFrom(msg.value)
        case Err(reason) => Err(BadMarkup(reason))
        case Ok(container) =>
          if !meta.Present? then Err(RequiredError(meta, "meta"))
          else
            match OptionalString(meta.value.addClass)
            case Err(e) => Err(e)
            case Ok(addClass) =>
              Ok(ChatMessage(time.value, username.value, container, ChatMeta(addClass)))
  }

  /**
   For an object whose only possible fault is its `time`: a negative `i64`
   time is an invalid value for `u64`, and an integer beyond both integer
   ranges arrives as a float and is an invalid type.
   */
  lemma TimeRangeErrors(v: RawValue)
    requires v.Object? && Decodable(v.(time := Present(0)))
    ensures Decode(v.(time := Present(-1))) == Err(InvalidValue("time"))
    ensures Decode(v.(time := Present(-0x8000_0000_0000_0000))) == Err(InvalidValue("time"))
    ensures Decode(v.(time := Present(-0x8000_0000_0000_0001))) == Err(InvalidType("time"))
    ensures Decode(v.(time := Present(0x1_0000_0000_0000_0000))) == Err(InvalidType("time"))
    ensures Decode(v.(time := Present(0xFFFF_FFFF_FFFF_FFFF))).Ok?
  {
  }

  /** A decoded message is a server whisper exactly when its `addClass` member is `server-whisper`. */
  lemma WhisperIffAddClass(v: RawValue)
    requires Decodable(v)
    ensures Decode(v).Ok?
    ensures ShouldBeSkipped(Decode(v).value) <==> v.meta.value.addClass == Present("server-whisper")
  {
  }

  /** A whisper never stops a message from decoding: only the member's type matters. */
  lemma WhisperDecodes(v: RawValue)
    requires Decodable(v)
    ensures Decode(v.(meta := Present(RawMeta(Present("server-whisper"))))).Ok?
    ensures ShouldBeSkipped(Decode(v.(meta := Present(RawMeta(Present("server-whisper"))))).value)
  {
  }
}
