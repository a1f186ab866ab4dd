/** Text as it travels on the wire: the UTF-8 bytes of a Rust `&str`.

    `std::str::from_utf8`, which the reader uses to turn string bytes back into text, accepts
    exactly the well-formed UTF-8 byte sequences of RFC 3629, section 4 (shortest forms only, no
    surrogates, nothing above U+10FFFF). */
module Utf8 {
  import opened Bytes

  predicate IsContinuation(b: uint8) {
    0x80 <= b <= 0xBF
  }

  /** The length of the form a lead byte starts: 1 for ASCII, 2 for 0xC2..0xDF, 3 for
      0xE0..0xEF, 4 for 0xF0..0xF4, and 0 for a byte that starts no form (a continuation byte,
      0xC0, 0xC1 or 0xF5..0xFF). */
  function LeadWidth(b: uint8): (w: nat)
    ensures w <= 4
  {
    if b < 0x80 then 1
    else if 0xC2 <= b <= 0xDF then 2
    else if 0xE0 <= b <= 0xEF then 3
    else if 0xF0 <= b <= 0xF4 then 4
    else 0
  }

  /** The byte allowed right after a lead byte: any continuation byte, narrowed after 0xE0 (no
      overlong form), 0xED (no surrogate), 0xF0 (no overlong form) and 0xF4 (nothing above
      U+10FFFF). */
  predicate SecondOk(lead: uint8, b: uint8) {
    if lead == 0xE0 then 0xA0 <= b <= 0xBF
    else if lead == 0xED then 0x80 <= b <= 0x9F
    else if lead == 0xF0 then 0x90 <= b <= 0xBF
    else if lead == 0xF4 then 0x80 <= b <= 0x8F
    else IsContinuation(b)
  }

  /** Byte `i` of `s` fits the grammar: a byte that starts a form is followed by the whole form,
      its second byte allowed by `SecondOk` and the rest continuation bytes; a continuation byte
      lies inside the form of a lead byte at most three bytes before it. */
  predicate ByteOk(s: seq<uint8>, i: nat)
    requires i < |s|
  {
    if IsContinuation(s[i]) then
      (i >= 1 && LeadWidth(s[i - 1]) >= 2) || (i >= 2 && LeadWidth(s[i - 2]) >= 3) ||
      (i >= 3 && LeadWidth(s[i - 3]) == 4)
    else
      var w := LeadWidth(s[i]);
      w > 0 && i + w <= |s| && (w >= 2 ==> SecondOk(s[i], s[i + 1])) &&
      (w >= 3 ==> IsContinuation(s[i + 2])) && (w == 4 ==> IsContinuation(s[i + 3]))
  }

  /** Well-formed UTF-8: a sequence of the one- to four-byte forms of RFC 3629, section 4.
      Stated byte by byte: since the bytes inside a form are continuation bytes, no form can
      start inside another, so every byte fitting `ByteOk` is the same as the bytes splitting
      into whole forms. */
  predicate ValidUtf8(s: seq<uint8>) {
    forall i | 0 <= i < |s| :: ByteOk(s, i)
  }

  /** The bytes of a Rust string slice. */
  type Text = s: seq<uint8> | ValidUtf8(s) witness []

  /** `std::str::from_utf8(bytes).unwrap_or("")`. */
  function FromUtf8OrEmpty(bytes: seq<uint8>): (t: Text)
    ensures ValidUtf8(bytes) ==> t == bytes
    ensures !ValidUtf8(bytes) ==> t == []
  {
    if ValidUtf8(bytes) then bytes else []
  }

  /** Every ASCII string is valid UTF-8. */
  lemma AsciiIsValid(s: seq<uint8>)
    requires forall k :: 0 <= k < |s| ==> s[k] < 0x80
    ensures ValidUtf8(s)
  {
  }
}
