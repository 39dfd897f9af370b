# uChat wire codec in Dafny

uChat is a peer-to-peer chat program that multicasts chat lines over UDP. This
project models its message codec: the `Message` frame, its `MessageHeader`,
the `SpecificMessageContents` payload and the `MessageErrors` error value.
The model states and proves the byte layout, the rejection rules and the
round trip of the codec. It covers `src/messages/` and `src/errors/`.

A frame is laid out as follows. All integers are big-endian.

| offset | size | field |
|---|---|---|
| 0 | 1 | content tag (`1` for `Message`) |
| 1 | 4 | `message_id`, a `u32` |
| 5 | 8 | username length, a `usize` on a 64-bit target |
| 13 | L | username bytes |
| 13 + L | 4 + T | text length as `u32` (wrapping cast), then the T text bytes |

Modules, one per source file plus three for shared pieces:

- `Primitives` holds the byte, `u32` and `usize` types. It also defines `Str`, the bytes of a Rust `String` or slice; such a value is at most `isize::MAX` bytes long.
- `BigEndian` holds `to_be_bytes` (`Encode`) and `from_be_bytes` (`Value`), with lemmas proving they are inverse at a fixed width.
- `Errors` models `src/errors/message_errors.rs`.
- `Header` models `src/messages/message_header.rs`.
- `Contents` models `src/messages/specific_message_contents.rs`.
- `Messages` models `src/messages/message.rs`. Its `test` module becomes `MessageTests`.
- `Wrappers` holds `Option` and `Result`.

Three helpers are called by `message.rs` but defined in none of the modelled
files, so the model defines them. These are assumptions, and the round trip
depends on them:

- `get_message_type` returns the constant tag `1` (`Contents.MESSAGE_TYPE`).
- `is_valid_message_type` accepts exactly that tag.
- `SpecificMessageContents::from_bytes` reads a 4-byte big-endian length L and returns the next L bytes as the text. It ignores any bytes after them. It fails with `InvalidMessageData` when the tag is foreign or fewer than 4 + L bytes remain.

Strings are byte sequences. `String::from_utf8_lossy` is taken to be the
identity, which it is on the valid UTF-8 that Rust `String`s hold.

Two facts about the code shape the model:

- The text length prefix is 4 bytes (a `u32`).
- `from_bytes` has no truncation error. It slices without a bounds check, so a short buffer with a valid tag panics. The model makes this the precondition `Messages.WithinSliceBounds`. It is stated only for buffers that pass the tag check, since empty and foreign-tag buffers are rejected before any slicing.

## Model

| member | source | states |
|---|---|---|
| BigEndian.Value | src/messages/message.rs:39-40 | `from_be_bytes`: the value of an n-byte big-endian string is below 256^n |
| BigEndian.Encode | src/messages/message.rs:17-18 | `to_be_bytes`: the encoding has exactly the requested width and decodes back to the number encoded |
| BigEndian.EncodeValue | src/messages/message.rs:39-40 | the converse: at a fixed width, every byte string is the encoding of its own value |
| BigEndian.ValueInjective | src/messages/message.rs:39-40 | two byte strings of one width with the same big-endian value are equal |
| BigEndian.ValueConcat | src/messages/message.rs:40 | the value of a concatenation is the first part shifted up by one byte per byte of the second, plus the second |
| BigEndian.ValueOfFour | src/messages/message.rs:39 | `u32::from_be_bytes` written positionally: b0·2^24 + b1·2^16 + b2·2^8 + b3 |
| BigEndian.ValueOfEight | src/messages/message.rs:40 | an 8-byte `usize` field is its high four bytes times 2^32 plus its low four bytes |
| Errors.OnlyInvalidMessageData | src/errors/message_errors.rs:1-3 | `MessageErrors` has exactly one value, `InvalidMessageData` |
| Errors.Reporting | src/errors/message_errors.rs:5-31 | `Display` and `Debug` both render `InvalidMessageData`; `source()` is `None`; `cause()` returns what `source()` returns; the deprecated description differs from the display text |
| Header.New | src/messages/message_header.rs:9-22 | `new` stores the id and the username unchanged, with no check on the name, as the `message_id()` and `username()` accessors read them |
| Header.EqualityIsFieldwise | src/messages/message_header.rs:2-6 | the derived equality holds exactly when both ids and both usernames are equal |
| Header.NewFromAccessors | src/messages/message_header.rs:9-22 | every header is the one `new` builds from its own accessor values |
| Contents.NewMessage | src/messages/specific_message_contents.rs:6-8 | `message(s)` is the `Message` variant holding `s` unchanged |
| Contents.GetMessageType | src/messages/message.rs:19 | the tag written for any contents passes the tag check |
| Contents.ValidTagsAreUsedTags | src/messages/message.rs:34 | a tag is valid exactly when some contents are written with it |
| Contents.ToBytes | src/messages/specific_message_contents.rs:10-20 | the payload is 4 + \|text\| bytes; its first 4 bytes decode to \|text\| mod 2^32, which is \|text\| when the text is under 2^32 bytes; dropping them leaves exactly the text |
| Contents.FromBytes | src/messages/message.rs:44 | the content decoder succeeds exactly on the `Message` tag with a 4-byte length L and at least L bytes after it; on success the text is those L bytes and the tag is the one given |
| Contents.DecodeOfEncode | src/messages/specific_message_contents.rs:13-15 | decoding an encoded payload, whatever trails it, yields the first \|text\| mod 2^32 bytes of the text |
| Contents.RoundTrip | src/messages/specific_message_contents.rs:13-15 | a text shorter than 2^32 bytes decodes back unchanged, whatever trails it |
| Contents.LongTextIsCut | src/messages/specific_message_contents.rs:14 | a text of 2^32 bytes or more does not decode back to itself, because the `as u32` cast wraps |
| Contents.EncodeOfDecode | src/messages/message.rs:44 | whatever the content decoder accepts begins with the encoding of what it returns |
| Messages.ToBytes | src/messages/message.rs:15-30 | byte 0 is the content tag; bytes 1..5 decode to the message id; bytes 5..13 decode to the username length; then come the username bytes and the payload; total length is 13 + \|username\| + \|payload\| |
| Messages.FromBytes | src/messages/message.rs:32-49 | an empty buffer or a foreign tag gives `InvalidMessageData` whatever follows. Otherwise the id is the value of bytes 1..5 and the username is bytes 13..13+L, where L is the value of bytes 5..13. The payload decoder gets the original tag byte and the bytes from offset 13 + L, and its result decides success and the contents. Requires only that a valid-tag buffer holds the fixed fields and the username |
| Messages.MessageContents | src/messages/message.rs:55-60 | `message_contents` returns `Some` of the message's text; the `None` arm is unreachable, since `Message` is the only variant |
| Messages.NewMessageAccessors | src/messages/message.rs:51-67 | a message from `new_message(h, s)` keeps `h` as its header, `message_contents` returns `Some(s)`, and `username` returns the header's username |
| Messages.EncodedWithinSliceBounds | src/messages/message.rs:39-44 | every encoded frame passes the slicing precondition of `from_bytes` |
| Messages.RejectsUnknownTag | src/messages/message.rs:34-36 | an empty buffer, or one whose first byte is not a valid tag, is rejected for every possible rest of the buffer |
| Messages.DecodeOfEncode | src/messages/message.rs:15-49 | decoding an encoded frame returns the same header and the first \|text\| mod 2^32 bytes of the text |
| Messages.RoundTrip | src/messages/message.rs:75-87 | `from_bytes(to_bytes(m)) == Ok(m)` for every message whose text is shorter than 2^32 bytes |
| Messages.LongTextDoesNotRoundTrip | src/messages/message.rs:20 | a message whose text is 2^32 bytes or longer does not survive the round trip |
| Messages.ToBytesInjective | src/messages/message.rs:15-30 | distinct messages have distinct frames, long texts included, because the text follows its length prefix verbatim |
| Messages.EncodeOfDecode | src/messages/message.rs:32-49 | re-encoding whatever `from_bytes` accepts gives back a prefix of the input; only bytes after the text are ignored |
| MessageTests.FixedFieldsOf9001 | src/messages/message.rs:76-81 | a frame with tag 1, id 9001 and a 6-byte username begins `01 00 00 23 29 00 00 00 00 00 00 00 06` |
| MessageTests.TextPrefixOf22 | src/messages/message.rs:79-81 | after a 6-byte username, a 22-byte text's payload begins with the length bytes `00 00 00 16` |
| MessageTests.SimpleRoundTrip | src/messages/message.rs:74-87 | the repository's `simple_round_trip` test: message 9001 from "jackma" with text "This is a test message" has the fixed fields above and decodes to itself |

## Left out

- `src/main.rs`, `src/app.rs` and `src/network_details.rs` are left out. They hold UDP multicast sockets, threads, channels, atomics and the egui UI, which are I/O and concurrency with no codec logic.
- Lossy UTF-8 replacement is left out: `from_utf8_lossy` is the identity here, so buffers holding invalid UTF-8 decode to their raw bytes.
- The `Box<dyn Error>` wrapping and the `try_into()?` conversions are left out. The result is `Result<Message, MessageErrors>`, and `try_into` on fixed-width slices cannot fail.
- Errors.Source and Errors.Cause: the `&dyn Error` a source could point at is narrowed to `MessageErrors`; both functions return `None`, so nothing is lost.
- Messages.ToBytes has no bound on the frame length. In Rust, a frame longer than `isize::MAX` bytes would make `concat` panic. The round-trip lemmas assume the frame fits instead.
- The width of `usize` is fixed at 8 bytes, as on a 64-bit target.
- A `Message` is compared with Dafny's structural equality, which is what the derived `PartialEq` gives.
