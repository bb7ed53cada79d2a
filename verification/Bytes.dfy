/** Bytes and C strings, shared by every module of the project. */
module Bytes {

  type byte = x: int | 0 <= x < 256

  type Text = seq<byte>

  const INT_MAX: int := 0x7FFF_FFFF
  const INT_MIN: int := -0x8000_0000

  datatype Option<+T> = None | Some(value: T)

  /** No NUL byte: the text can be held in a C string without being cut. */
  predicate NulFree(s: Text)
  {
    forall i :: 0 <= i < |s| ==> s[i] != 0
  }

  /** What a C reader sees of a char array: the bytes in front of the first NUL. */
  function CString(s: Text): Text
  {
    if s == [] || s[0] == 0 then [] else [s[0]] + CString(s[1..])
  }

  lemma CStringOfNulFree(s: Text)
    requires NulFree(s)
    ensures CString(s) == s
  {
  }

  /** The longest prefix without a NUL. */
  lemma {:induction false} CStringExactly(s: Text)
    ensures var c := CString(s); NulFree(c) && c <= s && (c == s || s[|c|] == 0)
  {
    if s != [] && s[0] != 0 {
      CStringExactly(s[1..]);
    }
  }

  lemma NulFreeConcat(s: Text, t: Text)
    ensures NulFree(s + t) <==> NulFree(s) && NulFree(t)
  {
    if NulFree(s + t) {
      assert forall i :: 0 <= i < |s| ==> (s + t)[i] == s[i];
      assert forall i :: 0 <= i < |t| ==> (s + t)[|s| + i] == t[i];
    }
  }

  lemma Assoc(a: Text, b: Text, c: Text)
    ensures (a + b) + c == a + (b + c)
  {
  }
}
