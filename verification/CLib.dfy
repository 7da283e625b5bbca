// The C string and memory primitives of kernel/kernel.c, over byte memory.
// A `const char*` is the run of bytes from that address on: a sequence that
// holds a NUL somewhere.
module CLib {

  type byte = b: int | 0 <= b < 256

  ghost predicate NulFree(s: seq<byte>) {
    forall i :: 0 <= i < |s| ==> s[i] != 0
  }

  /** Index of the first NUL at or after `i`; the length when there is none. */
  function NulFrom(s: seq<byte>, i: nat): (n: nat)
    requires i <= |s|
    ensures i <= n <= |s|
    ensures n < |s| ==> s[n] == 0
    ensures forall j :: i <= j < n ==> s[j] != 0
    decreases |s| - i
  {
    if i == |s| || s[i] == 0 then i else NulFrom(s, i + 1)
  }

  /** The C string stored in `s`: the bytes before its first NUL. */
  function CStr(s: seq<byte>): (r: seq<byte>)
    ensures NulFree(r)
  {
    s[..NulFrom(s, 0)]
  }

  predicate Terminated(s: seq<byte>) {
    NulFrom(s, 0) < |s|
  }

  /** The bytes of a string literal. */
  function Ascii(s: string): (r: seq<byte>)
    ensures |r| == |s|
  {
    seq(|s|, i requires 0 <= i < |s| => if s[i] < 128 as char then s[i] as int else 63)
  }

  /** `s` with the bytes from `at` on overwritten by `t`. */
  function Splice<T>(s: seq<T>, at: nat, t: seq<T>): (r: seq<T>)
    requires at + |t| <= |s|
    ensures |r| == |s|
    ensures forall i {:trigger r[i]} :: 0 <= i < |s| ==> r[i] == if at <= i < at + |t| then t[i - at] else s[i]
  {
    s[..at] + t + s[at + |t|..]
  }

  /** What is stored as `t` and a NUL reads back as `t`. */
  lemma CStrOfTerminated(s: seq<byte>, t: seq<byte>)
    requires NulFree(t) && |t| < |s| && s[..|t|] == t && s[|t|] == 0
    ensures CStr(s) == t && Terminated(s)
  {
    assert forall i :: 0 <= i < |t| ==> s[i] == s[..|t|][i] != 0;
    assert NulFrom(s, 0) == |t|;
  }

  method MemSet(dest: array<byte>, val: byte)
    modifies dest
    ensures dest[..] == seq(dest.Length, _ => val)
  {
    for i := 0 to dest.Length
      invariant forall j :: 0 <= j < i ==> dest[j] == val
    {
      dest[i] := val;
    }
  }

  method MemCpy(dest: array<byte>, at: nat, src: seq<byte>, len: nat)
    requires at + len <= dest.Length && len <= |src|
    modifies dest
    ensures dest[..] == Splice(old(dest[..]), at, src[..len])
  {
    for i := 0 to len
      invariant forall j :: 0 <= j < dest.Length ==>
        dest[j] == if at <= j < at + i then src[j - at] else old(dest[j])
    {
      dest[at + i] := src[i];
    }
  }

  method StrLen(str: seq<byte>) returns (len: nat)
    requires Terminated(str)
    ensures len == |CStr(str)|
  {
    len := 0;
    while str[len] != 0
      invariant len <= NulFrom(str, 0)
      decreases |str| - len
    {
      len := len + 1;
    }
  }

  function Difference(a: byte, b: byte): int {
    var x: int, y: int := a, b; x - y
  }

  /** Zero exactly on equal strings; otherwise the difference of the first two
      bytes that differ (the NUL included). A first string without a NUL must be
      longer than the second, where the comparison then stops. */
  method StrCmp(str1: seq<byte>, str2: seq<byte>) returns (r: int)
    requires Terminated(str2) && (Terminated(str1) || |CStr(str2)| < |str1|)
    ensures r == 0 <==> CStr(str1) == CStr(str2)
    ensures exists k :: 0 <= k < |str1| && k < |str2| && str1[..k] == str2[..k] && r == Difference(str1[k], str2[k])
  {
    var i := 0;
    while str1[i] != 0 && str1[i] == str2[i]
      invariant i <= NulFrom(str1, 0) && i <= NulFrom(str2, 0)
      invariant str1[..i] == str2[..i]
      decreases |str1| - i
    {
      i := i + 1;
    }
    r := Difference(str1[i], str2[i]);
    if str1[i] == 0 || str2[i] == 0 {
      assert str1[i] == 0 ==> CStr(str1) == str1[..i];
      assert str2[i] == 0 ==> CStr(str2) == str2[..i];
    } else {
      assert CStr(str1)[i] == str1[i] && CStr(str2)[i] == str2[i];
    }
  }
}
