/** The characters and names the parsers compare with, as bytes. */
module Ascii {
  import opened Bytes

  const START: Byte := 0x10  // first byte of a command
  const NEWLINE: Byte := 0x0A
  const SPACE: Byte := 0x20
  const QUOTE: Byte := 0x22
  const CLOSE: Byte := 0x29  // ')'
  const PLUS: Byte := 0x2B
  const MINUS: Byte := 0x2D
  const ZERO: Byte := 0x30
  const GB_OPEN: Text := [0x47, 0x42, 0x28]  // GB(
  const ATOB: Text := [0x61, 0x74, 0x6F, 0x62, 0x28, 0x22]  // atob("
  const SET_TIME: Text := [0x73, 0x65, 0x74, 0x54, 0x69, 0x6D, 0x65, 0x28]  // setTime(
  const SET_TIME_ZONE: Text :=  // setTimeZone(
    [0x73, 0x65, 0x74, 0x54, 0x69, 0x6D, 0x65, 0x5A, 0x6F, 0x6E, 0x65, 0x28]
  const UTC: Text := [0x55, 0x54, 0x43]

  /** The bytes of a string of one-byte characters. */
  function Chars(s: string): Text
    requires forall i :: 0 <= i < |s| ==> s[i] as int < 256
  {
    seq(|s|, i requires 0 <= i < |s| => s[i] as int)
  }

  lemma Spelling()
    ensures [START] == [0x10] && [NEWLINE] + [SPACE] + [QUOTE] + [CLOSE] == Chars("\n \")")
    ensures [PLUS, MINUS, ZERO] == Chars("+-0") && UTC == Chars("UTC")
    ensures GB_OPEN == Chars("GB(") && ATOB == Chars("atob(\"")
    ensures SET_TIME == Chars("setTime(") && SET_TIME_ZONE == Chars("setTimeZone(")
  {
  }
}
