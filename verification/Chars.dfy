/** C strings of characters: a text ends at its NUL, and what is read past its last character is that NUL. */
module Chars {
  const NUL: char := '\0'

  predicate NoNul(s: string) { NUL !in s }

  /** The character at `i`; past the end, the NUL that ends the text. */
  function At(s: string, i: nat): char { if i < |s| then s[i] else NUL }

  predicate Letter(c: char) { 'A' <= c <= 'Z' || 'a' <= c <= 'z' }

  predicate Digit(c: char) { '0' <= c <= '9' }
}
