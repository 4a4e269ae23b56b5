/** Strings that end at a NUL character, as C keeps them in arrays. */
module CStrings {
  const NUL := '\0'

  /** The characters before the first NUL, or all of them. */
  function CStr(s: seq<char>): (r: string)
    ensures NUL !in r && r <= s
    ensures |r| < |s| ==> s[|r|] == NUL
  {
    if s == [] || s[0] == NUL then [] else [s[0]] + CStr(s[1..])
  }

  lemma {:induction false} CStrIs(s: seq<char>, n: nat)
    requires n <= |s| && NUL !in s[..n] && (n < |s| ==> s[n] == NUL)
    ensures CStr(s) == s[..n]
  {
    if n > 0 {
      assert s[0] in s[..n];
      assert s[..n] == [s[0]] + s[1..][..n - 1];
      CStrIs(s[1..], n - 1);
    }
  }

  /** What a C program reads at s[j] when s is followed by its terminator. */
  function At(s: string, j: nat): char
    requires j <= |s|
  {
    if j < |s| then s[j] else NUL
  }
}
