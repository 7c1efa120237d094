/** C strings, as the bytes before their terminating NUL. */
module CStrings {

  /** A byte of a C string: each `char` stands for one byte, so a name
      that is several bytes long in UTF-8 is that many characters here. */
  predicate IsByte(c: char)
  {
    c < 256 as char
  }

  /** A C string's content never contains the terminator itself; the end of
      the sequence is where the C code would read `'\0'`. */
  type CString = s: seq<char> | '\0' !in s && forall i :: 0 <= i < |s| ==> IsByte(s[i])
}
