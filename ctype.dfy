/** The character classes of `<cctype>` in the "C" locale, on characters
    read as `unsigned char` values. */
module CType {

  /** `isspace`: space, tab, newline, vertical tab, form feed, carriage
      return. */
  predicate IsSpace(c: char)
  {
    c == ' ' || c == '\t' || c == '\n' || c == '\U{B}' || c == '\U{C}' || c == '\r'
  }

  predicate IsUpper(c: char)
  {
    'A' <= c <= 'Z'
  }

  predicate IsLower(c: char)
  {
    'a' <= c <= 'z'
  }

  /** `isalpha`: the 52 ASCII letters. */
  predicate IsAlpha(c: char)
  {
    IsUpper(c) || IsLower(c)
  }

  predicate IsDigit(c: char)
  {
    '0' <= c <= '9'
  }

  /** `tolower`: an upper-case letter becomes its lower-case partner, every
      other character is returned unchanged. */
  function ToLower(c: char): (r: char)
    ensures IsUpper(c) ==> IsLower(r) && r as int == c as int + 32
    ensures !IsUpper(c) ==> r == c
    ensures IsAlpha(r) <==> IsAlpha(c)
  {
    if IsUpper(c) then (c as int + 32) as char else c
  }
}
