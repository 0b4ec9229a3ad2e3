/**
 * NUL-terminated character arrays. A C string is modelled by the bytes before
 * its terminator, so every string value here is NUL-free.
 */
module CString {
  import opened Bytes

  const Nul: Byte := 0

  predicate NulFree(s: seq<Byte>)
  {
    forall i :: 0 <= i < |s| ==> s[i] != Nul
  }

  /** The C string a raw byte array holds: everything before its first NUL. */
  function CStr(raw: seq<Byte>): (r: seq<Byte>)
    ensures NulFree(r)
    ensures |r| <= |raw| && r == raw[..|r|]
    ensures |r| < |raw| ==> raw[|r|] == Nul
    ensures NulFree(raw) ==> r == raw
  {
    if raw == [] then []
    else if raw[0] == Nul then []
    else
      var r := [raw[0]] + CStr(raw[1..]);
      assert raw == [raw[0]] + raw[1..];
      r
  }

  /** The string ends at the first NUL. */
  lemma {:induction false} CStrEndsAt(raw: seq<Byte>, k: nat)
    requires k < |raw| && raw[k] == Nul && NulFree(raw[..k])
    ensures CStr(raw) == raw[..k]
  {
    if k > 0 {
      assert raw[0] == raw[..k][0];
      assert raw[1..][..k - 1] == raw[..k][1..];
      CStrEndsAt(raw[1..], k - 1);
      assert raw[..k] == [raw[0]] + raw[1..][..k - 1];
    }
  }

  /**
   * `strncpy(dst, src, n)` into an array whose byte n is (or is then set to) NUL:
   * the stored string is src cut to at most n characters.
   */
  function StrNCopy(src: seq<Byte>, n: nat): (r: seq<Byte>)
    ensures |r| == if |src| <= n then |src| else n
    ensures r == src[..|r|]
  {
    if |src| <= n then src else src[..n]
  }
}
