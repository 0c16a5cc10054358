/** The characters that the HTTP/1 text is punctuated with. */
module HttpChars {
  import opened Bytes

  const TAB: byte := 9
  const LF: byte := 10
  const CR: byte := 13
  const SP: byte := 32
  const COLON: byte := 58
  const DEL: byte := 127

  const CRLF: bytes := [CR, LF]
}
