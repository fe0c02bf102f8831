/**
  The part of Rust's `std::string::String` that the URI builder uses. A `String` owns a
  growable byte vector whose contents must always be well-formed UTF-8, that is, the
  encoding of the characters the string holds; the safe operations keep that invariant
  by themselves, while writing to the vector through `as_mut_vec` leaves it to the caller.
 */
module Strings {
  import opened Utf8

  class StringBuf {
    /** The vector of bytes behind the string (`as_mut_vec` exposes it). */
    var bytes: seq<byte>
    /** The characters the string holds. */
    ghost var text: seq<char>

    /** The `String` invariant: the bytes are the UTF-8 encoding of the text. */
    ghost predicate Valid()
      reads this
    {
      bytes == Encode(text)
    }

    /** `String::new()`. */
    constructor ()
      ensures Valid() && text == [] && bytes == []
    {
      bytes := [];
      text := [];
    }

    /**
      `push_str(s)`, and equally `write!(buf, "{}", x)` where `s` is what `x` displays
      as: writing into a `String` appends and never fails.
     */
    method PushStr(s: seq<char>)
      requires Valid()
      modifies this
      ensures Valid() && text == old(text) + s
    {
      EncodeConcat(text, s);
      bytes := bytes + Encode(s);
      text := text + s;
    }

    /** `push(c)`: appends one character. */
    method Push(c: char)
      requires Valid()
      modifies this
      ensures Valid() && text == old(text) + [c]
    {
      EncodeConcat(text, [c]);
      assert Encode([c]) == EncodeChar(c) + Encode([]);
      bytes := bytes + EncodeChar(c);
      text := text + [c];
    }

    /**
      `unsafe { self.as_mut_vec().extend(extra) }`: appends raw bytes without any check.
      Rust's caller promises that the string stays UTF-8. Here that promise is the
      precondition that `extra` encodes some text `chars`; under it the effect is that
      of `PushStr(chars)`, and the bytes appended are `extra` itself, unaltered.
     */
    method ExtendBytes(extra: seq<byte>, ghost chars: seq<char>)
      requires Valid()
      requires extra == Encode(chars)
      modifies this
      ensures Valid() && text == old(text) + chars
      ensures bytes == old(bytes) + extra
    {
      EncodeConcat(text, chars);
      bytes := bytes + extra;
      text := text + chars;
    }
  }
}
