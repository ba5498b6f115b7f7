/** C strings.  A text is what stands before the NUL; reading behind it gives the NUL. */
module CText {
  function At(text: string, i: nat): char {
    if i < |text| then text[i] else '\0'
  }

  /** The C string at the start of a buffer. */
  function CString(buf: string): (s: string)
    ensures |s| <= |buf| && s == buf[..|s|] && '\0' !in s && (|s| < |buf| ==> buf[|s|] == '\0')
  {
    if buf == "" || buf[0] == '\0' then "" else [buf[0]] + CString(buf[1..])
  }

  lemma {:induction false} CStringIs(buf: string, n: nat)
    requires n <= |buf| && '\0' !in buf[..n] && (n < |buf| ==> buf[n] == '\0')
    ensures CString(buf) == buf[..n]
    decreases n
  {
    if n > 0 {
      assert buf[0] in buf[..n];
      assert forall c :: c in buf[1..][..n - 1] ==> c in buf[..n] by {
        assert buf[1..][..n - 1] == buf[..n][1..];
      }
      CStringIs(buf[1..], n - 1);
      assert buf[..n] == [buf[0]] + buf[1..][..n - 1];
    }
  }
}
