/** C strings as the firmware hands them to `strncpy`: the bytes of a form
    value, read up to its first NUL. */
module CString {
  import opened Bytes

  function Min(a: nat, b: nat): nat { if a <= b then a else b }

  /** `strlen` of a buffer that is NUL-terminated just past its end. */
  function Length(s: seq<uint8>): (n: nat)
    ensures n <= |s|
    ensures forall i :: 0 <= i < n ==> s[i] != 0
    ensures n < |s| ==> s[n] == 0
  {
    if s == [] || s[0] == 0 then 0 else 1 + Length(s[1..])
  }

  /** `strncpy(dst, src, n)`: copies bytes of `src` until its terminator or
      until `n` bytes are written, then fills the rest of `dst` with zeros. */
  function StrNCpy(src: seq<uint8>, n: nat): (dst: seq<uint8>)
    ensures |dst| == n
    decreases n
  {
    if n == 0 then []
    else if src == [] || src[0] == 0 then Zeros(n)
    else [src[0]] + StrNCpy(src[1..], n - 1)
  }

  /** The copy is the string's first bytes, at most `n` of them, then zeros. */
  lemma {:induction false} StrNCpyPrefix(src: seq<uint8>, n: nat)
    ensures StrNCpy(src, n) == src[..Min(n, Length(src))] + Zeros(n - Min(n, Length(src)))
    decreases n
  {
    if n > 0 && src != [] && src[0] != 0 {
      StrNCpyPrefix(src[1..], n - 1);
      assert src[1..][..Min(n - 1, Length(src[1..]))] == src[1..Min(n, Length(src))];
    }
  }

  /** A value shorter than the field is copied whole and zero-padded, so the
      field holds a terminator. */
  lemma StrNCpyShort(src: seq<uint8>, n: nat)
    requires forall i :: 0 <= i < |src| ==> src[i] != 0
    requires |src| < n
    ensures StrNCpy(src, n) == src + Zeros(n - |src|)
    ensures StrNCpy(src, n)[|src|] == 0
  {
    StrNCpyPrefix(src, n);
    assert Length(src) == |src|;
  }

  /** A value at least as long as the field fills it with its first `n`
      bytes and leaves no terminator. */
  lemma StrNCpyLong(src: seq<uint8>, n: nat)
    requires forall i :: 0 <= i < |src| ==> src[i] != 0
    requires n <= |src|
    ensures StrNCpy(src, n) == src[..n]
    ensures forall i :: 0 <= i < n ==> StrNCpy(src, n)[i] != 0
  {
    StrNCpyPrefix(src, n);
    assert Length(src) == |src|;
    assert Zeros(0) == [];
  }
}
