/** The string a NUL-terminated buffer holds. */
module CStrings {
  const NUL: char := '\0'

  /** The characters before the first NUL. */
  function CString(buf: string): string {
    if buf == [] || buf[0] == NUL then "" else [buf[0]] + CString(buf[1..])
  }

  lemma {:induction false} CStringIs(text: string, rest: string)
    requires NUL !in text
    ensures CString(text + [NUL] + rest) == text
  {
    if text == [] {
      assert text + [NUL] + rest == [NUL] + rest;
    } else {
      assert (text + [NUL] + rest)[1..] == text[1..] + [NUL] + rest;
      CStringIs(text[1..], rest);
    }
  }

  /** Writes s over the buffer from index i on. */
  method Overwrite(buf: array<char>, i: nat, s: string)
    requires i + |s| <= buf.Length
    modifies buf
    ensures buf[..] == old(buf[..])[..i] + s + old(buf[..])[i + |s|..]
  {
    forall k | 0 <= k < |s| {
      buf[i + k] := s[k];
    }
  }
}
