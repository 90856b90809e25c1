/** Texts as the program reads them: behind the last character stands the terminator. */
module Texts {
  const NUL: char := 0 as char

  function At(s: string, i: nat): char {
    if i < |s| then s[i] else NUL
  }
}
