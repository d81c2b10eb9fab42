// The slice of the SD card that the rotator sees: directory entries in
// directory order, and the file handles that opening them yields.
module Storage {
  import opened Base
  import opened CStrings

  /** One directory entry. `data` is what reading the opened entry yields;
      for a regular file its length is the file size. */
  datatype Entry = Entry(name: EntryName, isDir: bool, isHidden: bool, data: seq<byte>)
  {
    function FileSize(): nat { |data| }
  }

  /** A file handle: not open, or open on the entry at `dirIndex`. */
  datatype File = NotOpen | Open(dirIndex: nat, entry: Entry)

  /** A visible regular file of exactly the expected size. */
  predicate SuitableEntry(e: Entry, expectedFileSize: nat)
  {
    !e.isDir && !e.isHidden && e.FileSize() == expectedFileSize
  }

  /** SdEnumerator::isSuitable: the handle is open and its entry is suitable. */
  predicate IsSuitable(file: File, expectedFileSize: nat)
  {
    file.Open? && SuitableEntry(file.entry, expectedFileSize)
  }

  /** The names of the suitable entries: the only thing the rotation looks at. */
  function SuitableNames(dir: seq<Entry>, expectedFileSize: nat): set<EntryName>
  {
    set k | 0 <= k < |dir| && SuitableEntry(dir[k], expectedFileSize) :: dir[k].name
  }

  /** The first position in directory order whose entry satisfies p. */
  function FirstWhere(dir: seq<Entry>, p: Entry -> bool): (r: Option<nat>)
    ensures r.None? <==> forall k :: 0 <= k < |dir| ==> !p(dir[k])
    ensures r.Some? ==> r.value < |dir| && p(dir[r.value])
    ensures r.Some? ==> forall k :: 0 <= k < r.value ==> !p(dir[k])
  {
    if dir == [] then None
    else if p(dir[0]) then Some(0)
    else
      match FirstWhere(dir[1..], p)
      case None => None
      case Some(k) => Some(k + 1)
  }

  /** FsFile::open(&dir, name): opens the entry with exactly that name,
      whatever kind of entry it is; not open when there is none. */
  function OpenByName(dir: seq<Entry>, name: seq<byte>): (f: File)
    ensures f.NotOpen? <==> forall k :: 0 <= k < |dir| ==> dir[k].name != name
    ensures f.Open? ==> f.dirIndex < |dir| && f.entry == dir[f.dirIndex] && f.entry.name == name
  {
    match FirstWhere(dir, (e: Entry) => e.name == name)
    case None => NotOpen
    case Some(k) => Open(k, dir[k])
  }

  /** Reading up to `count` bytes into `buf` from a file whose contents are
      `data` and whose read position is `pos`: copies as many of the
      remaining bytes as fit and returns how many; 0 only at the end. */
  method Read(data: seq<byte>, pos: nat, buf: array<byte>, count: nat) returns (n: nat)
    requires pos <= |data| && count <= buf.Length
    modifies buf
    ensures n == Min(count, |data| - pos)
    ensures buf[..n] == data[pos..pos + n]
  {
    n := Min(count, |data| - pos);
    var i := 0;
    while i < n
      invariant 0 <= i <= n
      invariant buf[..i] == data[pos..pos + i]
    {
      buf[i] := data[pos + i];
      i := i + 1;
    }
  }
}
