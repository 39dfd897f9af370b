/** `MessageHeader`: a numeric message id and the sender's name. */
module Header {
  import opened Primitives

  datatype MessageHeader = MessageHeader(messageId: u32, username: Str)

  /** `MessageHeader::new`: stores both fields as given; an empty or odd username is accepted. */
  function New(messageId: u32, username: Str): (h: MessageHeader)
    ensures MessageId(h) == messageId
    ensures Username(h) == username
  {
    MessageHeader(messageId, username)
  }

  function MessageId(h: MessageHeader): u32
  {
    h.messageId
  }

  function Username(h: MessageHeader): Str
  {
    h.username
  }

  /** The derived `PartialEq` is field-wise: headers are equal exactly when both accessors agree. */
  lemma EqualityIsFieldwise(a: MessageHeader, b: MessageHeader)
    ensures a == b <==> MessageId(a) == MessageId(b) && Username(a) == Username(b)
  {
  }

  /** Every header is the one `new` builds from its own accessors. */
  lemma NewFromAccessors(h: MessageHeader)
    ensures New(MessageId(h), Username(h)) == h
  {
  }
}
