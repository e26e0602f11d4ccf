/** The character classes Python's `re` module and `str.lower` use on `str`
    values. ASCII is spelled out; for the rest of Unicode, letters, digits and
    case mappings come from a `UnicodeTable` supplied by the caller (Python
    reads them from its Unicode database). */
module Chars {

  /** Python's `str.isspace`, which is also what `\s` matches in a `str` pattern:
      tab through carriage return, the four ASCII separators, space, NEL,
      no-break space and the Unicode space separators. */
  predicate IsSpace(c: char) {
    || c == ' '
    || ('\t' <= c <= '\r')
    || ('\U{1c}' <= c <= '\U{1f}')
    || c == '\U{85}'
    || c == '\U{a0}'
    || c == '\U{1680}'
    || ('\U{2000}' <= c <= '\U{200a}')
    || c == '\U{2028}'
    || c == '\U{2029}'
    || c == '\U{202f}'
    || c == '\U{205f}'
    || c == '\U{3000}'
  }

  predicate IsAscii(c: char) {
    c < '\U{80}'
  }

  predicate IsAsciiUpper(c: char) {
    'A' <= c <= 'Z'
  }

  /** Unicode facts about one non-ASCII character: `c.isalnum()` and `c.lower()`. */
  datatype UnicodeTable = UnicodeTable(isAlnum: char -> bool, lower: char -> char)

  /** What `\w` matches in a `str` pattern: letters, digits and `_`.
      No whitespace character is alphanumeric, whatever the table says. */
  predicate IsWord(u: UnicodeTable, c: char) {
    if IsAscii(c) then
      ('a' <= c <= 'z') || IsAsciiUpper(c) || ('0' <= c <= '9') || c == '_'
    else
      !IsSpace(c) && u.isAlnum(c)
  }

  /** `str.lower` on one character. Only word characters reach it in the
      cleaner, so every other non-ASCII character is left as it is. */
  function Lower(u: UnicodeTable, c: char): (r: char)
    ensures IsAsciiUpper(c) ==> r as int == c as int + 32
    ensures IsAscii(c) && !IsAsciiUpper(c) ==> r == c
    ensures IsSpace(c) ==> r == c
  {
    if IsAsciiUpper(c) then (c as int + 32) as char
    else if IsAscii(c) || !IsWord(u, c) then c
    else u.lower(c)
  }

  /** A table that behaves like Unicode's: lowering a word character yields a
      word character that is already lower case. */
  ghost predicate ValidTable(u: UnicodeTable) {
    forall c :: IsWord(u, c) ==> IsWord(u, Lower(u, c)) && Lower(u, Lower(u, c)) == Lower(u, c)
  }

  /** The table of a text that is all ASCII: no other character is a letter. */
  function AsciiTable(): (u: UnicodeTable)
    ensures ValidTable(u)
  {
    UnicodeTable(c => false, c => c)
  }
}
