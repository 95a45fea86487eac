/** Strings as C has them; the terminating NUL is not an element. */
module CStrings {
  predicate CString(s: string) {
    forall i | 0 <= i < |s| :: s[i] != '\0'
  }

  /** Reading a string up to and including its NUL. */
  function Char(s: string, i: nat): char
    requires i <= |s|
  {
    if i < |s| then s[i] else '\0'
  }
}
