/**
  `SpecificMessageContents`: the payload after a frame's header.
  The only variant is `Message(String)`. It is written as a 4-byte big-endian length,
  computed with a wrapping `as u32` cast, followed by the text bytes.

  Three helpers are called by `message.rs` but defined in none of the modelled files,
  so they are defined here:
  the tag byte of `Message` is 1; a tag is valid exactly when it is that byte; and
  the decoder reads a 4-byte big-endian length, then that many text bytes, ignores
  whatever follows, and fails with `InvalidMessageData` on a short buffer or a foreign tag.
 */
module Contents {
  import opened Primitives
  import opened BigEndian
  import opened Wrappers
  import opened Errors

  datatype SpecificMessageContents = Message(text: Str)

  /** The tag byte of the `Message` variant. */
  const MESSAGE_TYPE: byte := 1

  /** `SpecificMessageContents::message`: wraps the text unchanged. */
  function NewMessage(message: Str): (c: SpecificMessageContents)
    ensures c.Message? && c.text == message
  {
    Message(message)
  }

  /** `SpecificMessageContents::get_message_type`. */
  function GetMessageType(c: SpecificMessageContents): (tag: byte)
    ensures IsValidMessageType(tag)
  {
    match c
    case Message(_) => MESSAGE_TYPE
  }

  /** `SpecificMessageContents::is_valid_message_type`. */
  predicate IsValidMessageType(tag: byte)
  {
    tag == MESSAGE_TYPE
  }

  /** A tag is valid exactly when some contents are written with it. */
  lemma ValidTagsAreUsedTags(tag: byte)
    ensures IsValidMessageType(tag) <==> exists c :: GetMessageType(c) == tag
  {
    if IsValidMessageType(tag) {
      assert GetMessageType(Message([])) == tag;
    }
  }

  /**
    `SpecificMessageContents::to_bytes`. The length prefix decodes to the text
    length modulo 2^32, because `len() as u32` wraps; the text follows unchanged.
   */
  function ToBytes(c: SpecificMessageContents): (r: seq<byte>)
    ensures |r| == U32_WIDTH + |c.text|
    ensures Value(r[..U32_WIDTH]) == |c.text| % U32_MODULUS
    ensures |c.text| < U32_MODULUS ==> Value(r[..U32_WIDTH]) == |c.text|
    ensures r[U32_WIDTH..] == c.text
  {
    Pow256Widths();
    var prefix := Encode(|c.text| % U32_MODULUS, U32_WIDTH);
    assert (prefix + c.text)[..U32_WIDTH] == prefix;
    prefix + c.text
  }

  /** `SpecificMessageContents::from_bytes`, given the frame's tag byte and everything after the username. */
  function FromBytes(tag: byte, bytes: Str): (r: Result<SpecificMessageContents, MessageErrors>)
    ensures r.Ok? <==>
              && IsValidMessageType(tag)
              && |bytes| >= U32_WIDTH
              && U32_WIDTH + Value(bytes[..U32_WIDTH]) <= |bytes|
    ensures r.Ok? ==> GetMessageType(r.value) == tag
    ensures r.Ok? ==> r.value.text == bytes[U32_WIDTH..U32_WIDTH + Value(bytes[..U32_WIDTH])]
  {
    if !IsValidMessageType(tag) || |bytes| < U32_WIDTH then Err(InvalidMessageData)
    else
      var len := Value(bytes[..U32_WIDTH]);
      if U32_WIDTH + len > |bytes| then Err(InvalidMessageData)
      else Ok(Message(bytes[U32_WIDTH..U32_WIDTH + len]))
  }

  /**
    Decoding what `ToBytes` wrote, followed by anything at all, gives back the
    first |text| mod 2^32 bytes of the text: the whole text when it is shorter than 2^32.
   */
  lemma DecodeOfEncode(c: SpecificMessageContents, rest: seq<byte>)
    requires |ToBytes(c) + rest| <= ISIZE_MAX
    ensures FromBytes(MESSAGE_TYPE, ToBytes(c) + rest) == Ok(Message(c.text[..|c.text| % U32_MODULUS]))
  {
    var bytes := ToBytes(c) + rest;
    assert bytes[..U32_WIDTH] == ToBytes(c)[..U32_WIDTH];
    var len := |c.text| % U32_MODULUS;
    assert bytes[U32_WIDTH..U32_WIDTH + len] == c.text[..len];
  }

  /** The round trip the `Message` frame relies on: texts shorter than 2^32 bytes come back unchanged. */
  lemma RoundTrip(c: SpecificMessageContents, rest: seq<byte>)
    requires |c.text| < U32_MODULUS
    requires |ToBytes(c) + rest| <= ISIZE_MAX
    ensures FromBytes(MESSAGE_TYPE, ToBytes(c) + rest) == Ok(c)
  {
    DecodeOfEncode(c, rest);
    assert c.text[..|c.text|] == c.text;
  }

  /** A text of 2^32 bytes or more does not survive the wrapping length prefix. */
  lemma LongTextIsCut(c: SpecificMessageContents, rest: seq<byte>)
    requires |c.text| >= U32_MODULUS
    requires |ToBytes(c) + rest| <= ISIZE_MAX
    ensures FromBytes(MESSAGE_TYPE, ToBytes(c) + rest) != Ok(c)
  {
    DecodeOfEncode(c, rest);
  }

  /** What `FromBytes` accepts starts with the encoding of what it returns; the bytes after the text are ignored. */
  lemma EncodeOfDecode(tag: byte, bytes: Str)
    requires FromBytes(tag, bytes).Ok?
    ensures |ToBytes(FromBytes(tag, bytes).value)| <= |bytes|
    ensures ToBytes(FromBytes(tag, bytes).value) == bytes[..|ToBytes(FromBytes(tag, bytes).value)|]
  {
    var c := FromBytes(tag, bytes).value;
    var payload := ToBytes(c);
    var prefix := bytes[..|payload|];
    Pow256Widths();
    assert prefix[..U32_WIDTH] == bytes[..U32_WIDTH];
    ValueInjective(payload[..U32_WIDTH], prefix[..U32_WIDTH]);
    assert payload == payload[..U32_WIDTH] + payload[U32_WIDTH..];
    assert prefix == prefix[..U32_WIDTH] + prefix[U32_WIDTH..];
  }
}
