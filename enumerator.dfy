// SdEnumerator: the rotation cursor and the three ways of picking a file.
module Enumerator {
  import opened Base
  import opened CStrings
  import opened Storage
  import opened Rotation
  import opened Util

  class SdEnumerator {
    /** Size every rotation candidate must have (width * height / 2 bytes). */
    const expectedFileSize: nat
    /** The cursor buffer: char currentFileName[MaxFileNameLength]. */
    const currentFileName: array<byte>

    ghost predicate Valid()
      reads currentFileName
    {
      && currentFileName.Length == MaxFileNameLength
      && exists i :: 0 <= i < currentFileName.Length && currentFileName[i] == 0
    }

    /** The name in the cursor buffer; it always fits with its terminator. */
    function Cursor(): (c: CStr)
      requires Valid()
      reads currentFileName
      ensures |c| < MaxFileNameLength
    {
      CString(currentFileName[..])
    }

    /** Seeds the cursor from the previous run's last file name, truncated as
        strlcpy truncates it. */
    constructor (previousFileName: CStr, expectedFileSize: nat)
      ensures Valid() && fresh(currentFileName)
      ensures this.expectedFileSize == expectedFileSize
      ensures Cursor() == Truncate(previousFileName, MaxFileNameLength)
    {
      this.expectedFileSize := expectedFileSize;
      currentFileName := new byte[MaxFileNameLength];
      new;
      StrlCpy(currentFileName, previousFileName, ArraySize(currentFileName));
    }

    /** One pass over the root directory tracking the least suitable name and
        the least suitable name after the cursor; moves the cursor to the
        latter, or wraps to the former, or clears it. */
    method GetNextImage(root: seq<Entry>) returns (file: File)
      requires Valid()
      modifies currentFileName
      ensures Valid()
      ensures file == NextImage(root, expectedFileSize, old(Cursor()))
      ensures Cursor() == if file.Open? then file.entry.name else []
    {
      var cur := Cursor();
      var firstFileName: seq<byte> := [];
      var firstIndex: Option<nat> := None;
      var nextFileName: seq<byte> := [];
      var nextIndex: Option<nat> := None;

      var i := 0;
      while i < |root|
        invariant LeastSoFar(root, expectedFileSize, None, i, firstIndex)
        invariant LeastSoFar(root, expectedFileSize, Some(cur), i, nextIndex)
        invariant firstIndex.Some? ==> firstFileName == root[firstIndex.value].name
        invariant nextIndex.Some? ==> nextFileName == root[nextIndex.value].name
      {
        var candidate := Open(i, root[i]);
        LeastStep(root, expectedFileSize, None, i, firstIndex);
        LeastStep(root, expectedFileSize, Some(cur), i, nextIndex);
        if IsSuitable(candidate, expectedFileSize) {
          var candidateFileName := candidate.entry.name;
          if firstIndex.None? || Compare(candidateFileName, firstFileName) < 0 {
            firstFileName := candidateFileName;
            firstIndex := Some(i);
          }
          CompareSwap(candidateFileName, cur);
          if Compare(candidateFileName, cur) > 0 && (nextIndex.None? || Compare(candidateFileName, nextFileName) < 0) {
            nextFileName := candidateFileName;
            nextIndex := Some(i);
          }
        }
        i := i + 1;
      }

      if nextIndex.None? {
        if firstIndex.Some? {
          ScanWrapsAround(root, expectedFileSize, cur, firstIndex.value);
        } else {
          ScanFindsNothing(root, expectedFileSize, cur);
        }
        nextIndex := firstIndex;
      } else {
        ScanFindsSuccessor(root, expectedFileSize, cur, nextIndex.value);
      }

      if nextIndex.Some? {
        file := Open(nextIndex.value, root[nextIndex.value]);
        StrlCpy(currentFileName, file.entry.name, ArraySize(currentFileName));
      } else {
        file := NotOpen;
        currentFileName[0] := 0;
        CStringOfTerminated(currentFileName[..], 0);
      }
    }

    /** Reopens the cursor's file by name; only when that fails does it fall
        back to GetNextImage. */
    method GetCurrentImage(root: seq<Entry>) returns (file: File)
      requires Valid()
      modifies currentFileName
      ensures Valid()
      ensures OpenByName(root, old(Cursor())).Open? ==>
                file == OpenByName(root, old(Cursor())) && Cursor() == old(Cursor())
      ensures OpenByName(root, old(Cursor())).NotOpen? ==>
                && file == NextImage(root, expectedFileSize, old(Cursor()))
                && Cursor() == if file.Open? then file.entry.name else []
    {
      file := OpenByName(root, Cursor());
      if !file.Open? {
        file := GetNextImage(root);
      }
    }

    /** Opens a fixed image by exact name in the "system" directory; neither
        the size filter nor the cursor is involved. */
    method GetSystemImage(system: seq<Entry>, fileName: seq<byte>) returns (file: File)
      ensures file == OpenByName(system, fileName)
      ensures file.NotOpen? <==> forall k :: 0 <= k < |system| ==> system[k].name != fileName
      ensures file.Open? ==> file.dirIndex < |system| && file.entry == system[file.dirIndex]
                             && file.entry.name == fileName
    {
      file := OpenByName(system, fileName);
    }
  }
}
