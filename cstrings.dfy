// NUL-terminated byte strings as the firmware handles them: strlcpy into a
// fixed buffer, and strcmp as the ordering of file names.
module CStrings {
  import opened Base

  /** True when s holds no NUL byte, i.e. s is the content of a C string. */
  predicate NoNul(s: seq<byte>)
  {
    forall i :: 0 <= i < |s| ==> s[i] != 0
  }

  /** The content of a C string (everything before its terminator). */
  type CStr = s: seq<byte> | NoNul(s)

  /** Size of every name buffer: SdEnumerator::MaxFileNameLength. */
  const MaxFileNameLength: nat := 256

  /** A name that fits a MaxFileNameLength buffer together with its terminator. */
  type Name = s: CStr | |s| < MaxFileNameLength

  /** A directory entry's name: FAT never stores an empty one. */
  type EntryName = s: Name | |s| > 0 witness [0x41]

  /** The C string stored in a buffer: the bytes before the first NUL
      (all of them when the buffer holds none). */
  function CString(buf: seq<byte>): (s: CStr)
    ensures |s| <= |buf| && s == buf[..|s|]
    ensures |s| < |buf| ==> buf[|s|] == 0
    ensures (exists i :: 0 <= i < |buf| && buf[i] == 0) ==> |s| < |buf|
  {
    if buf == [] || buf[0] == 0 then []
    else
      var rest := CString(buf[1..]);
      assert forall i :: 1 <= i < |buf| && buf[i] == 0 ==> buf[1..][i - 1] == 0;
      [buf[0]] + rest
  }

  /** A buffer whose first n bytes are free of NUL and whose byte n is NUL holds
      exactly those n bytes as its C string. */
  lemma {:induction false} CStringOfTerminated(buf: seq<byte>, n: nat)
    requires n < |buf| && buf[n] == 0 && NoNul(buf[..n])
    ensures CString(buf) == buf[..n]
  {
    if n > 0 {
      assert buf[0] == buf[..n][0];
      assert buf[1..][..n - 1] == buf[..n][1..];
      CStringOfTerminated(buf[1..], n - 1);
      assert buf[..n] == [buf[0]] + buf[1..][..n - 1];
    }
  }

  /** What strlcpy(dst, src, size) leaves in dst: at most size - 1 bytes of src. */
  function Truncate(src: CStr, size: nat): (s: CStr)
    requires size > 0
    ensures |s| < size && |s| <= |src| && s == src[..|s|]
    ensures |src| < size ==> s == src
    ensures |src| >= size ==> |s| == size - 1
  {
    src[..Min(|src|, size - 1)]
  }

  /** strlcpy(dst, src, size): copies what fits in size bytes and always
      terminates. */
  method StrlCpy(dst: array<byte>, src: CStr, size: nat)
    requires 0 < size <= dst.Length
    modifies dst
    ensures CString(dst[..]) == Truncate(src, size)
    ensures exists i :: 0 <= i < dst.Length && dst[i] == 0
  {
    var n := Min(|src|, size - 1);
    var i := 0;
    while i < n
      invariant 0 <= i <= n
      invariant dst[..i] == src[..i]
    {
      dst[i] := src[i];
      i := i + 1;
    }
    dst[n] := 0;
    assert dst[..n] == src[..n];
    CStringOfTerminated(dst[..], n);
    assert dst[..][..n] == dst[..n];
  }

  /** strcmp: compares byte by byte as unsigned char, where the end of a string
      counts as its NUL terminator. Only the sign of strcmp's result is used by
      the firmware, so the model returns -1, 0 or 1. */
  function Compare(a: seq<byte>, b: seq<byte>): int
    decreases |a|
  {
    var x: byte := if |a| == 0 then 0 else a[0];
    var y: byte := if |b| == 0 then 0 else b[0];
    if x != y then (if x < y then -1 else 1)
    else if x == 0 then 0
    else Compare(a[1..], b[1..])
  }

  /** strcmp(a, b) < 0. */
  predicate Less(a: seq<byte>, b: seq<byte>)
  {
    Compare(a, b) < 0
  }

  /** strcmp is antisymmetric: swapping the arguments flips the sign. */
  lemma {:induction false} CompareSwap(a: seq<byte>, b: seq<byte>)
    ensures Compare(b, a) == -Compare(a, b)
    decreases |a|
  {
    var x: byte := if |a| == 0 then 0 else a[0];
    var y: byte := if |b| == 0 then 0 else b[0];
    if x == y && x != 0 {
      CompareSwap(a[1..], b[1..]);
    }
  }

  /** On C-string contents strcmp reports equality exactly for equal strings. */
  lemma {:induction false} CompareZero(a: CStr, b: CStr)
    ensures Compare(a, b) == 0 <==> a == b
    decreases |a|
  {
    if a != [] && b != [] && a[0] == b[0] {
      CompareZero(a[1..], b[1..]);
      assert a == [a[0]] + a[1..] && b == [b[0]] + b[1..];
    }
  }

  /** Less is irreflexive. */
  lemma LessIrreflexive(a: CStr)
    ensures !Less(a, a)
  {
    CompareZero(a, a);
  }

  /** Less is asymmetric. */
  lemma LessAsymmetric(a: seq<byte>, b: seq<byte>)
    ensures Less(a, b) ==> !Less(b, a)
  {
    CompareSwap(a, b);
  }

  /** Any two distinct C strings are ordered one way or the other. */
  lemma LessTotal(a: CStr, b: CStr)
    ensures a == b || Less(a, b) || Less(b, a)
  {
    CompareZero(a, b);
    CompareSwap(a, b);
  }

  /** Less is transitive. */
  lemma {:induction false} LessTransitive(a: seq<byte>, b: seq<byte>, c: seq<byte>)
    requires Less(a, b) && Less(b, c)
    ensures Less(a, c)
    decreases |a|
  {
    var x: byte := if |a| == 0 then 0 else a[0];
    var y: byte := if |b| == 0 then 0 else b[0];
    var z: byte := if |c| == 0 then 0 else c[0];
    if x == y && y == z {
      LessTransitive(a[1..], b[1..], c[1..]);
    }
  }

  /** The empty cursor precedes every entry name. */
  lemma EmptyIsLeast(n: EntryName)
    ensures Less([], n)
  {
    assert n[0] != 0;
  }
}
