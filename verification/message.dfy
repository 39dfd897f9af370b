/**
  `Message` and its frame codec. A frame is laid out as
    offset 0       1 byte    content tag
    offset 1       4 bytes   message id, big-endian u32
    offset 5       8 bytes   username length, big-endian usize
    offset 13      L bytes   username
    offset 13 + L  rest      content payload
 */
module Messages {
  import opened Primitives
  import opened BigEndian
  import opened Wrappers
  import opened Errors
  import opened Header
  import Contents

  datatype Message = Message(header: MessageHeader, contents: Contents.SpecificMessageContents)

  /** Offset of the message id: right after the tag byte. */
  const ID_OFFSET: nat := 1

  /** Offset of the username length field. */
  const LENGTH_OFFSET: nat := ID_OFFSET + U32_WIDTH

  /** Offset of the username: the tag, id and length fields come first. */
  const USERNAME_OFFSET: nat := LENGTH_OFFSET + USIZE_WIDTH

  /** `Message::to_bytes`: tag, message id, username length, username, then the payload. */
  function ToBytes(m: Message): (r: seq<byte>)
    ensures |r| == USERNAME_OFFSET + |m.header.username| + |Contents.ToBytes(m.contents)|
    ensures r[0] == Contents.GetMessageType(m.contents)
    ensures Value(r[ID_OFFSET..LENGTH_OFFSET]) == m.header.messageId
    ensures Value(r[LENGTH_OFFSET..USERNAME_OFFSET]) == |m.header.username|
    ensures r[USERNAME_OFFSET..USERNAME_OFFSET + |m.header.username|] == m.header.username
    ensures r[USERNAME_OFFSET + |m.header.username|..] == Contents.ToBytes(m.contents)
  {
    Pow256Widths();
    var tag := [Contents.GetMessageType(m.contents)];
    var id := Encode(MessageId(m.header), U32_WIDTH);
    var nameLength := Encode(|Username(m.header)|, USIZE_WIDTH);
    var r := tag + id + nameLength + Username(m.header) + Contents.ToBytes(m.contents);
    assert r[ID_OFFSET..LENGTH_OFFSET] == id;
    assert r[LENGTH_OFFSET..USERNAME_OFFSET] == nameLength;
    r
  }

  /** The username length `from_bytes` reads; only meaningful once the fixed fields are present. */
  function UsernameLength(bytes: seq<byte>): usize
    requires |bytes| >= USERNAME_OFFSET
  {
    Pow256Widths();
    Value(bytes[LENGTH_OFFSET..USERNAME_OFFSET])
  }

  /**
    The inputs on which `from_bytes` does not panic. An empty buffer or an unknown
    tag is rejected before any slicing; otherwise the fixed fields and the username
    must lie inside the buffer, since the source slices them without a bounds check.
   */
  predicate WithinSliceBounds(bytes: Str)
  {
    || bytes == []
    || !Contents.IsValidMessageType(bytes[0])
    || (|bytes| >= USERNAME_OFFSET && USERNAME_OFFSET + UsernameLength(bytes) <= |bytes|)
  }

  /** `Message::from_bytes`. */
  function FromBytes(bytes: Str): (r: Result<Message, MessageErrors>)
    requires WithinSliceBounds(bytes)
    ensures bytes == [] || !Contents.IsValidMessageType(bytes[0]) ==> r == Err(InvalidMessageData)
    ensures bytes != [] && Contents.IsValidMessageType(bytes[0]) ==>
              var rest := bytes[USERNAME_OFFSET + UsernameLength(bytes)..];
              && (r.Ok? <==> Contents.FromBytes(bytes[0], rest).Ok?)
              && (r.Ok? ==> r.value.contents == Contents.FromBytes(bytes[0], rest).value)
    ensures r.Ok? ==> MessageId(r.value.header) == Value(bytes[ID_OFFSET..LENGTH_OFFSET])
    ensures r.Ok? ==> Username(r.value.header) == bytes[USERNAME_OFFSET..USERNAME_OFFSET + UsernameLength(bytes)]
  {
    if bytes == [] || !Contents.IsValidMessageType(bytes[0]) then Err(InvalidMessageData)
    else
      Pow256Widths();
      var messageId := Value(bytes[ID_OFFSET..LENGTH_OFFSET]);
      var usernameLength := UsernameLength(bytes);
      var username := bytes[USERNAME_OFFSET..USERNAME_OFFSET + usernameLength];
      var contentsIndex := USERNAME_OFFSET + usernameLength;
      match Contents.FromBytes(bytes[0], bytes[contentsIndex..])
      case Err(e) => Err(e)
      case Ok(contents) => Ok(Message(New(messageId, username), contents))
  }

  /** `Message::username`. */
  function GetUsername(m: Message): Str
  {
    Username(m.header)
  }

  /** `Message::message_contents`; the `None` arm is unreachable while `Message` is the only variant. */
  function MessageContents(m: Message): (r: Option<Str>)
    ensures r == Some(m.contents.text)
  {
    match m.contents
    case Message(text) => Some(text)
  }

  /** `Message::new_message`. */
  function NewMessage(header: MessageHeader, contents: Str): Message
  {
    Message(header, Contents.NewMessage(contents))
  }

  /** A message built by `new_message` hands back its header's username and exactly its text. */
  lemma NewMessageAccessors(header: MessageHeader, text: Str)
    ensures MessageContents(NewMessage(header, text)) == Some(text)
    ensures GetUsername(NewMessage(header, text)) == Username(header)
    ensures NewMessage(header, text).header == header
  {
  }

  /** Every encoded frame passes the slicing guard of `from_bytes`. */
  lemma EncodedWithinSliceBounds(m: Message)
    requires |ToBytes(m)| <= ISIZE_MAX
    ensures WithinSliceBounds(ToBytes(m))
  {
  }

  /** An empty buffer, or one that opens with an unknown tag, is rejected whatever follows. */
  lemma RejectsUnknownTag(tag: byte, rest: seq<byte>)
    requires !Contents.IsValidMessageType(tag)
    requires |[tag] + rest| <= ISIZE_MAX
    ensures FromBytes([tag] + rest) == Err(InvalidMessageData)
    ensures FromBytes([]) == Err(InvalidMessageData)
  {
  }

  /**
    Decoding an encoded frame gives back the header and the first |text| mod 2^32
    bytes of the text.
   */
  lemma DecodeOfEncode(m: Message)
    requires |ToBytes(m)| <= ISIZE_MAX
    ensures FromBytes(ToBytes(m))
         == Ok(Message(m.header, Contents.Message(m.contents.text[..|m.contents.text| % U32_MODULUS])))
  {
    var bytes := ToBytes(m);
    var name := m.header.username;
    var payload := Contents.ToBytes(m.contents);
    assert bytes[USERNAME_OFFSET + |name|..] == payload + [];
    Contents.DecodeOfEncode(m.contents, []);
  }

  /** The `simple_round_trip` property for every message whose text is shorter than 2^32 bytes. */
  lemma RoundTrip(m: Message)
    requires |m.contents.text| < U32_MODULUS
    requires |ToBytes(m)| <= ISIZE_MAX
    ensures FromBytes(ToBytes(m)) == Ok(m)
  {
    DecodeOfEncode(m);
    assert m.contents.text[..|m.contents.text|] == m.contents.text;
  }

  /** A text of 2^32 bytes or more is cut short by the wrapping `as u32` length prefix. */
  lemma LongTextDoesNotRoundTrip(m: Message)
    requires |m.contents.text| >= U32_MODULUS
    requires |ToBytes(m)| <= ISIZE_MAX
    ensures FromBytes(ToBytes(m)) != Ok(m)
  {
    DecodeOfEncode(m);
  }

  /** Distinct messages have distinct frames: the text follows its length prefix verbatim, so even a wrapped prefix loses nothing. */
  lemma ToBytesInjective(m1: Message, m2: Message)
    requires ToBytes(m1) == ToBytes(m2)
    ensures m1 == m2
  {
    var frame := ToBytes(m1);
    var n := |m1.header.username|;
    assert n == |m2.header.username|;
    assert m1.header.username == frame[USERNAME_OFFSET..USERNAME_OFFSET + n] == m2.header.username;
    var p1, p2 := Contents.ToBytes(m1.contents), Contents.ToBytes(m2.contents);
    assert p1 == frame[USERNAME_OFFSET + n..] == p2;
    assert m1.contents.text == p1[U32_WIDTH..] == m2.contents.text;
  }

  /** A buffer long enough for a frame is the concatenation of its five fields. */
  lemma FrameFields(s: seq<byte>, nameLength: nat)
    requires USERNAME_OFFSET + nameLength <= |s|
    ensures s == [s[0]] + s[ID_OFFSET..LENGTH_OFFSET] + s[LENGTH_OFFSET..USERNAME_OFFSET]
                 + s[USERNAME_OFFSET..USERNAME_OFFSET + nameLength] + s[USERNAME_OFFSET + nameLength..]
  {
  }

  /**
    The other direction: whatever `from_bytes` accepts, re-encoding the result gives
    back a prefix of the buffer. Only bytes after the payload's text are ignored.
   */
  lemma EncodeOfDecode(bytes: Str)
    requires WithinSliceBounds(bytes)
    requires FromBytes(bytes).Ok?
    ensures |ToBytes(FromBytes(bytes).value)| <= |bytes|
    ensures ToBytes(FromBytes(bytes).value) == bytes[..|ToBytes(FromBytes(bytes).value)|]
  {
    var m := FromBytes(bytes).value;
    var len := UsernameLength(bytes);
    var rest := bytes[USERNAME_OFFSET + len..];
    Contents.EncodeOfDecode(bytes[0], rest);
    var payload := Contents.ToBytes(m.contents);
    var frame := ToBytes(m);
    assert |frame| == USERNAME_OFFSET + len + |payload|;
    var prefix := bytes[..|frame|];
    assert frame[0] == prefix[0];
    assert prefix[ID_OFFSET..LENGTH_OFFSET] == bytes[ID_OFFSET..LENGTH_OFFSET];
    ValueInjective(frame[ID_OFFSET..LENGTH_OFFSET], prefix[ID_OFFSET..LENGTH_OFFSET]);
    assert prefix[LENGTH_OFFSET..USERNAME_OFFSET] == bytes[LENGTH_OFFSET..USERNAME_OFFSET];
    ValueInjective(frame[LENGTH_OFFSET..USERNAME_OFFSET], prefix[LENGTH_OFFSET..USERNAME_OFFSET]);
    assert frame[USERNAME_OFFSET..USERNAME_OFFSET + len] == prefix[USERNAME_OFFSET..USERNAME_OFFSET + len];
    assert frame[USERNAME_OFFSET + len..] == prefix[USERNAME_OFFSET + len..];
    FrameFields(frame, len);
    FrameFields(prefix, len);
  }
}

/** The `test` module of `message.rs`, as lemmas about concrete frames. */
module MessageTests {
  import opened Primitives
  import opened BigEndian
  import opened Wrappers
  import opened Header
  import opened Messages
  import Contents

  /** The UTF-8 bytes of an ASCII string literal. */
  function AsciiBytes(s: string): (r: Str)
    requires |s| <= ISIZE_MAX
    requires forall i :: 0 <= i < |s| ==> s[i] as int < 0x80
    ensures |r| == |s|
    ensures forall i :: 0 <= i < |s| ==> r[i] == s[i] as int
  {
    seq(|s|, i requires 0 <= i < |s| => s[i] as int)
  }

  /** The first 13 bytes of any buffer that `from_bytes` would read as tag 1, id 9001 and username length 6. */
  lemma FixedFieldsOf9001(frame: seq<byte>)
    requires |frame| >= USERNAME_OFFSET
    requires frame[0] == 1
    requires Value(frame[ID_OFFSET..LENGTH_OFFSET]) == 9001
    requires Value(frame[LENGTH_OFFSET..USERNAME_OFFSET]) == 6
    ensures frame[..USERNAME_OFFSET] == [1, 0x00, 0x00, 0x23, 0x29, 0, 0, 0, 0, 0, 0, 0, 6]
  {
    var id := frame[ID_OFFSET..LENGTH_OFFSET];
    assert id == [0x00, 0x00, 0x23, 0x29] by {
      ValueOfFour(id);
      assert id[0] == 0 && id[1] == 0;
      assert id[2] as int * 0x100 + id[3] as int == 9001;
      assert id[2] == 0x23 && id[3] == 0x29;
    }
    var nameLength := frame[LENGTH_OFFSET..USERNAME_OFFSET];
    assert nameLength == [0, 0, 0, 0, 0, 0, 0, 6] by {
      var high, low := nameLength[..4], nameLength[4..];
      Pow256Widths();
      ValueOfEight(nameLength);
      assert Value(high) == 0 && Value(low) == 6;
      ValueOfFour(high);
      ValueOfFour(low);
      assert high == [0, 0, 0, 0] && low == [0, 0, 0, 6];
      assert nameLength == high + low;
    }
    assert frame[..USERNAME_OFFSET] == [frame[0]] + id + nameLength;
  }

  /** The payload of a 22-byte text, after a 6-byte username, opens with the length 22. */
  lemma TextPrefixOf22(m: Message)
    requires |Username(m.header)| == 6
    requires |m.contents.text| == 22
    ensures ToBytes(m)[USERNAME_OFFSET + 6..USERNAME_OFFSET + 10] == [0, 0, 0, 22]
  {
    var textLength := Contents.ToBytes(m.contents)[..U32_WIDTH];
    ValueOfFour(textLength);
    assert ToBytes(m)[USERNAME_OFFSET + 6..USERNAME_OFFSET + 10] == textLength;
  }

  /** The repository's `simple_round_trip` test, with the frame's fixed fields spelled out. */
  lemma SimpleRoundTrip()
    ensures var m := NewMessage(New(9001, AsciiBytes("jackma")), AsciiBytes("This is a test message"));
            && ToBytes(m)[..USERNAME_OFFSET] == [1, 0x00, 0x00, 0x23, 0x29, 0, 0, 0, 0, 0, 0, 0, 6]
            && ToBytes(m)[USERNAME_OFFSET + 6..USERNAME_OFFSET + 10] == [0, 0, 0, 22]
            && FromBytes(ToBytes(m)) == Ok(m)
  {
    var m := NewMessage(New(9001, AsciiBytes("jackma")), AsciiBytes("This is a test message"));
    RoundTrip(m);
    FixedFieldsOf9001(ToBytes(m));
    TextPrefixOf22(m);
  }
}
