/** The browser side of the chat: the blank checks, the frame codec, and
    the component state that the event handlers change. */
module ChatClient {
  import opened Wrappers
  import opened Split

  // ---------------------------------------------------------------------
  // Blank checks

  /** The characters JavaScript's `String.prototype.trim` removes: the
      white space characters (tab, vertical tab, form feed, space, the
      no-break spaces, the other space separators and the byte order mark)
      and the line terminators. */
  predicate IsJsWhitespace(c: char)
  {
    || c == '\t' || c == '\n' || c == '\U{0B}' || c == '\U{0C}' || c == '\r' || c == ' '
    || c == '\U{A0}' || c == '\U{1680}' || ('\U{2000}' <= c <= '\U{200A}')
    || c == '\U{2028}' || c == '\U{2029}' || c == '\U{202F}' || c == '\U{205F}'
    || c == '\U{3000}' || c == '\U{FEFF}'
  }

  /** Every character is white space; `s.trim()` is then falsy. */
  predicate IsBlank(s: string)
  {
    forall i :: 0 <= i < |s| ==> IsJsWhitespace(s[i])
  }

  /** `s` with its leading white space removed. */
  function TrimStart(s: string): (r: string)
    ensures |r| <= |s| && r == s[|s| - |r|..]
    ensures IsBlank(s[..|s| - |r|])
    ensures r == [] || !IsJsWhitespace(r[0])
  {
    if s != [] && IsJsWhitespace(s[0]) then TrimStart(s[1..]) else s
  }

  /** `s` with its trailing white space removed. */
  function TrimEnd(s: string): (r: string)
    ensures |r| <= |s| && r == s[..|r|]
    ensures IsBlank(s[|r|..])
    ensures r == [] || !IsJsWhitespace(r[|r| - 1])
  {
    if s != [] && IsJsWhitespace(s[|s| - 1]) then TrimEnd(s[..|s| - 1]) else s
  }

  /** `s.trim()`. */
  function Trim(s: string): (r: string)
    ensures |r| <= |s|
    ensures r == [] || (!IsJsWhitespace(r[0]) && !IsJsWhitespace(r[|r| - 1]))
  {
    TrimEnd(TrimStart(s))
  }

  /** `s.trim()` is the empty string exactly when `s` is blank. */
  lemma TrimEmptyIffBlank(s: string)
    ensures Trim(s) == "" <==> IsBlank(s)
  {
    var t := TrimStart(s);
    if Trim(s) == "" {
      assert t[0..] == t;
      assert t == [];
      assert s[..|s|] == s;
    }
  }

  /** Whether `s.trim()` is truthy: whether `s` holds a character that is
      not white space. */
  function HasText(s: string): (b: bool)
    ensures b <==> !IsBlank(s)
  {
    TrimEmptyIffBlank(s);
    Trim(s) != ""
  }

  /** Trimming keeps the characters that are not white space: it removes
      only white space from both ends. */
  lemma TrimInside(s: string)
    ensures exists a, b :: 0 <= a <= b <= |s| && Trim(s) == s[a..b] && IsBlank(s[..a]) && IsBlank(s[b..])
  {
    var t := TrimStart(s);
    var a := |s| - |t|;
    var b := a + |Trim(s)|;
    assert Trim(s) == t[..|Trim(s)|];
    assert t[..|Trim(s)|] == s[a..b];
    assert t[|Trim(s)|..] == s[b..];
  }

  // ---------------------------------------------------------------------
  // Frames

  /** One entry of the message log. The name is field 0, the timestamp
      field 1 and the content field 3 of the frame; the last two are absent
      (JavaScript's `undefined`) when the frame has too few fields. */
  datatype Msg = Msg(name: string, content: Option<string>, timestamp: Option<string>)

  /** The frame `sendMessage` sends: `${displayName}|${timestamp}|TEXT|${message}`. */
  function Encode(displayName: string, timestamp: string, message: string): (frame: string)
    ensures Bar !in displayName && Bar !in timestamp && Bar !in message ==>
      SplitAll(frame) == [displayName, timestamp, "TEXT", message]
  {
    assert Bar !in displayName && Bar !in timestamp && Bar !in message ==>
      SplitAll(JoinFields([displayName, timestamp, "TEXT", message])) == [displayName, timestamp, "TEXT", message] by {
      if Bar !in displayName && Bar !in timestamp && Bar !in message {
        SplitJoin([displayName, timestamp, "TEXT", message]);
      }
    }
    JoinFields([displayName, timestamp, "TEXT", message])
  }

  /** The frame read by `onmessage`: JavaScript's `split('|')`, then fields
      0, 1 and 3; the type in field 2 and any later fields are dropped. */
  function Decode(data: string): (m: Msg)
    ensures Bar !in m.name && m.name <= data
    ensures m.name == data || data[|m.name|] == Bar
    ensures m.timestamp.Some? <==> Bar in data
    ensures m.content.Some? <==> multiset(data)[Bar] >= 3
  {
    var fields := SplitAll(data);
    NameIsPrefix(data);
    Msg(fields[0],
        if |fields| >= 4 then Some(fields[3]) else None,
        if |fields| >= 2 then Some(fields[1]) else None)
  }

  /** The first field is the text before the first separator. */
  lemma {:induction false} NameIsPrefix(data: string)
    ensures SplitAll(data)[0] <= data
    ensures SplitAll(data)[0] == data || data[|SplitAll(data)[0]|] == Bar
    decreases |data|
  {
    if data != [] && data[0] != Bar {
      NameIsPrefix(data[1..]);
      assert data == [data[0]] + data[1..];
    }
  }

  /** The frame is the four fields written out with bars between them,
      the type always `TEXT` and the message as typed, untrimmed. */
  lemma EncodeLayout(displayName: string, timestamp: string, message: string)
    ensures Encode(displayName, timestamp, message) == displayName + "|" + timestamp + "|TEXT|" + message
  {
    var fields := [displayName, timestamp, "TEXT", message];
    JoinFieldsCons(displayName, fields[1..]);
    JoinFieldsCons(timestamp, fields[2..]);
    JoinFieldsCons("TEXT", fields[3..]);
    assert fields == [displayName] + fields[1..];
    assert fields[1..] == [timestamp] + fields[2..];
    assert fields[2..] == ["TEXT"] + fields[3..];
    assert fields[3..] == [message];
    assert "|TEXT|" == [Bar] + ("TEXT" + [Bar]);
  }

  /** Decoding a frame of fields without separators in them keeps field 0
      as the name, field 1 (when there is one) as the timestamp and field 3
      (when there is one) as the content, and drops the rest. */
  lemma DecodeFields(fields: seq<string>)
    requires |fields| >= 1
    requires forall i :: 0 <= i < |fields| ==> Bar !in fields[i]
    ensures Decode(JoinFields(fields)) ==
      Msg(fields[0],
          if |fields| >= 4 then Some(fields[3]) else None,
          if |fields| >= 2 then Some(fields[1]) else None)
  {
    SplitJoin(fields);
  }

  /** Round trip: decoding an encoded frame gives back the name, the
      timestamp and the message, provided none of them contains a bar. */
  lemma DecodeEncode(displayName: string, timestamp: string, message: string)
    requires Bar !in displayName && Bar !in timestamp && Bar !in message
    ensures Decode(Encode(displayName, timestamp, message)) == Msg(displayName, Some(message), Some(timestamp))
  {
    DecodeFields([displayName, timestamp, "TEXT", message]);
  }

  /** Nothing escapes a bar typed in the message, so such a message never
      comes back whole: the decoded content stops at the bar, or is absent. */
  lemma BarInMessageGarbles(displayName: string, timestamp: string, message: string)
    requires Bar in message
    ensures Decode(Encode(displayName, timestamp, message)).content != Some(message)
  {
    var fields := SplitAll(Encode(displayName, timestamp, message));
    if |fields| >= 4 {
      assert Bar !in fields[3];
    }
  }

  // ---------------------------------------------------------------------
  // The component

  /** The `App` component's state. `socketPresent` says whether the
      WebSocket has been created. */
  class App {
    var displayName: Option<string>
    var tempDisplayName: string
    var message: string
    var messages: seq<Msg>
    var socketPresent: bool
    var showSettings: bool

    /** A display name, once set, is not blank. */
    ghost predicate Valid()
      reads this`displayName
    {
      displayName.Some? ==> !IsBlank(displayName.value)
    }

    /** The initial state: no display name, empty inputs and log, settings
        hidden. */
    constructor(socketPresent: bool)
      ensures Valid()
      ensures displayName == None && tempDisplayName == "" && message == ""
      ensures messages == [] && this.socketPresent == socketPresent && !showSettings
    {
      displayName := None;
      tempDisplayName := "";
      message := "";
      messages := [];
      this.socketPresent := socketPresent;
      showSettings := false;
    }

    /** `onmessage`: the decoded frame is appended at the end of the log;
        earlier entries and everything else stay as they were. */
    method OnMessage(data: string)
      modifies this`messages
      ensures messages == old(messages) + [Decode(data)]
    {
      var entry := Decode(data);
      messages := messages + [entry];
    }

    /** `sendMessage`, given the time as `timestamp`: with a socket, a
        message that is not blank and a display name, exactly one frame is
        sent, holding the message as typed, and the input is cleared;
        otherwise nothing is sent and nothing changes. The log is never
        touched. */
    method SendMessage(timestamp: string) returns (sent: Option<string>)
      requires Valid()
      modifies this`message
      ensures Valid()
      ensures old(socketPresent && !IsBlank(message) && displayName.Some?) ==>
        sent == Some(Encode(old(displayName).value, timestamp, old(message))) && message == ""
      ensures !old(socketPresent && !IsBlank(message) && displayName.Some?) ==>
        sent == None && message == old(message)
    {
      if socketPresent && HasText(message) && displayName.Some? && displayName.value != "" {
        var formattedMessage := Encode(displayName.value, timestamp, message);
        sent := Some(formattedMessage);
        message := "";
      } else {
        sent := None;
      }
    }

    /** `toggleSettings`: settings are always shown or hidden in turn; the
        display name becomes the typed one, untrimmed, only when that is
        not blank. */
    method ToggleSettings()
      requires Valid()
      modifies this`displayName, this`showSettings
      ensures Valid()
      ensures showSettings == !old(showSettings)
      ensures !IsBlank(old(tempDisplayName)) ==> displayName == Some(old(tempDisplayName))
      ensures IsBlank(old(tempDisplayName)) ==> displayName == old(displayName)
    {
      if HasText(tempDisplayName) {
        displayName := Some(tempDisplayName);
      }
      showSettings := !showSettings;
    }

    /** `handleDisplayNameSubmit`: Enter with a typed name that is not
        blank sets the display name and hides the settings; any other key,
        or a blank name, changes nothing. */
    method HandleDisplayNameSubmit(key: string)
      requires Valid()
      modifies this`displayName, this`showSettings
      ensures Valid()
      ensures key == "Enter" && !IsBlank(old(tempDisplayName)) ==>
        displayName == Some(old(tempDisplayName)) && !showSettings
      ensures !(key == "Enter" && !IsBlank(old(tempDisplayName))) ==>
        displayName == old(displayName) && showSettings == old(showSettings)
    {
      if key == "Enter" && HasText(tempDisplayName) {
        displayName := Some(tempDisplayName);
        showSettings := false;
      }
    }
  }
}
