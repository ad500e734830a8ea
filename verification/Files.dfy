/** The file table: flat records searched from the front, where a name may occur more than once. */
module Files {
  import opened Words
  import opened CStrings
  import opened FirstMatch
  import opened MemoryCopy
  import opened Shifting
  import opened Strings

  const MAX_FILES := 5000
  const FILENAME_LENGTH := 50
  const FILE_CONTENT_LENGTH := 256
  const DIRECTORY_FLAG := 306
  const RECORD_LENGTH := 307

  /** What a record stands for. */
  datatype File = File(name: seq<byte>, content: seq<byte>, isDirectory: bool)

  ghost predicate Live(r: seq<byte>) {
    && |r| == RECORD_LENGTH
    && Terminated(r[..FILENAME_LENGTH]) && Terminated(r[FILENAME_LENGTH..DIRECTORY_FLAG])
  }

  ghost function FileOf(r: seq<byte>): File
    requires Live(r)
  {
    File(CString(r[..FILENAME_LENGTH]), CString(r[FILENAME_LENGTH..DIRECTORY_FLAG]), r[DIRECTORY_FLAG] != 0)
  }

  ghost function FilesOf(rs: seq<seq<byte>>): (fs: seq<File>)
    requires forall i :: 0 <= i < |rs| ==> Live(rs[i])
  {
    seq(|rs|, i requires 0 <= i < |rs| => FileOf(rs[i]))
  }

  function NameOf(f: File): seq<byte> {
    f.name
  }

  /** The position of the first file with this name, or the length if there is none. */
  function Find(fs: seq<File>, name: seq<byte>): nat {
    Position(fs, NameOf, name)
  }

  predicate Has(fs: seq<File>, name: seq<byte>) {
    Find(fs, name) < |fs|
  }

  predicate CanCreate(fs: seq<File>, name: seq<byte>) {
    |fs| < MAX_FILES && 0 < |name| < FILENAME_LENGTH
  }

  function Created(fs: seq<File>, name: seq<byte>, isDirectory: bool): seq<File> {
    if CanCreate(fs, name) then fs + [File(name, [], isDirectory)] else fs
  }

  function Deleted(fs: seq<File>, name: seq<byte>): seq<File> {
    var i := Find(fs, name);
    if i < |fs| then fs[..i] + fs[i + 1..] else fs
  }

  predicate CanWrite(fs: seq<File>, name: seq<byte>) {
    Has(fs, name) && !fs[Find(fs, name)].isDirectory
  }

  /** Only the first file with the name changes, and only in its content. */
  function Written(fs: seq<File>, name: seq<byte>, text: seq<byte>): seq<File>
    requires Terminated(text)
  {
    if CanWrite(fs, name) then
      var i := Find(fs, name);
      fs[i := fs[i].(content := Truncated(text, FILE_CONTENT_LENGTH - 1))]
    else fs
  }

  class FileTable {
    const files: array<seq<byte>>
    var fileCount: nat

    ghost predicate Valid()
      reads this, files
    {
      && files.Length == MAX_FILES && fileCount <= MAX_FILES
      && (forall i :: 0 <= i < MAX_FILES ==> |files[i]| == RECORD_LENGTH)
      && (forall i :: 0 <= i < fileCount ==> Live(files[i]))
    }

    ghost function View(): seq<File>
      requires Valid()
      reads this, files
    {
      FilesOf(files[..fileCount])
    }

    constructor ()
      ensures Valid() && fresh(files) && View() == []
    {
      files := new seq<byte>[MAX_FILES](_ => Zeros(RECORD_LENGTH));
      fileCount := 0;
    }

    /** The search loop that every operation starts with. */
    method IndexOf(name: seq<byte>) returns (i: nat)
      requires Valid() && Terminated(name)
      ensures i == Find(View(), CString(name)) <= fileCount
    {
      ghost var fs := View();
      i := 0;
      while i < fileCount
        invariant i <= fileCount
        invariant forall j :: 0 <= j < i ==> fs[j].name != CString(name)
      {
        assert fs[i] == FileOf(files[i]);
        var order := Strcmp(files[i][..FILENAME_LENGTH], name);
        if order == 0 {
          break;
        }
        i := i + 1;
      }
      PositionIs(fs, NameOf, CString(name), i);
    }

    method CreateFile(name: seq<byte>, isDirectory: bool) returns (ok: bool)
      requires Valid() && Terminated(name)
      modifies this, files
      ensures Valid() && View() == Created(old(View()), CString(name), isDirectory)
      ensures ok <==> CanCreate(old(View()), CString(name))
    {
      hide FileOf, Live, Overlay;
      if fileCount >= MAX_FILES {
        return false;
      }
      var n := Strlen(name);
      if n == 0 {
        return false;
      }
      if n >= FILENAME_LENGTH {
        return false;
      }
      NewRecord(files[fileCount], name, isDirectory);
      var record := Buffer(files[fileCount]);
      Strcpy(record, 0, name);
      record[DIRECTORY_FLAG] := if isDirectory then 1 else 0;
      record[FILENAME_LENGTH] := 0;
      files[fileCount] := record[..];
      fileCount := fileCount + 1;
      return true;
    }

    method DeleteFile(name: seq<byte>) returns (ok: bool)
      requires Valid() && Terminated(name)
      modifies this, files
      ensures Valid() && View() == Deleted(old(View()), CString(name))
      ensures ok <==> Has(old(View()), CString(name))
    {
      hide Live, FileOf, Find;
      var i := IndexOf(name);
      if i == fileCount {
        return false;
      }
      ghost var was := files[..];
      ShiftDown(files, i, fileCount);
      Gap(was, i, fileCount, files[..]);
      fileCount := fileCount - 1;
      return true;
    }

    method WriteFile(name: seq<byte>, text: seq<byte>) returns (ok: bool)
      requires Valid() && Terminated(name) && Terminated(text)
      modifies files
      ensures Valid() && View() == Written(old(View()), CString(name), text)
      ensures ok <==> CanWrite(old(View()), CString(name))
    {
      hide Find, Live, FileOf, Padded;
      var i := IndexOf(name);
      if i == fileCount {
        return false;
      }
      DirectoryBit(files[i]);
      if files[i][DIRECTORY_FLAG] != 0 {
        return false;
      }
      var record := Buffer(files[i]);
      NewContent(files[i], text);
      Strncpy(record, FILENAME_LENGTH, text, FILE_CONTENT_LENGTH - 1);
      record[FILENAME_LENGTH + FILE_CONTENT_LENGTH - 1] := 0;
      files[i] := record[..];
      return true;
    }
  }

  lemma DirectoryBit(r: seq<byte>)
    requires Live(r)
    ensures |r| == RECORD_LENGTH && (FileOf(r).isDirectory <==> r[DIRECTORY_FLAG] != 0)
  {
  }

  /** The three writes of create_file make a live record with empty content. */
  lemma NewRecord(r: seq<byte>, name: seq<byte>, isDirectory: bool)
    requires |r| == RECORD_LENGTH && Terminated(name) && StrLen(name) < FILENAME_LENGTH
    ensures var flag: byte := if isDirectory then 1 else 0;
      var t: seq<byte> := Overlay(r, 0, CString(name) + [0])[DIRECTORY_FLAG := flag][FILENAME_LENGTH := 0];
      Live(t) && FileOf(t) == File(CString(name), [], isDirectory)
  {
    hide Overlay, CString, StrLen;
    var flag: byte := if isDirectory then 1 else 0;
    var t: seq<byte> := Overlay(r, 0, CString(name) + [0])[DIRECTORY_FLAG := flag][FILENAME_LENGTH := 0];
    NameHolds(t, name);
    StrLenIs(t[FILENAME_LENGTH..DIRECTORY_FLAG], 0);
  }

  lemma NameHolds(t: seq<byte>, name: seq<byte>)
    requires |t| == RECORD_LENGTH && Terminated(name) && StrLen(name) < FILENAME_LENGTH
    requires t[StrLen(name)] == 0 && forall k :: 0 <= k < StrLen(name) ==> t[k] == name[k]
    ensures Terminated(t[..FILENAME_LENGTH]) && CString(t[..FILENAME_LENGTH]) == CString(name)
  {
    StrLenIs(t[..FILENAME_LENGTH], StrLen(name));
  }

  /** The two writes of write_file change the content and neither neighbour. */
  lemma NewContent(r: seq<byte>, text: seq<byte>)
    requires Live(r) && Terminated(text)
    ensures FILENAME_LENGTH + |Padded(text, FILE_CONTENT_LENGTH - 1)| <= |r|
    ensures var t := Overlay(r, FILENAME_LENGTH, Padded(text, FILE_CONTENT_LENGTH - 1))[DIRECTORY_FLAG - 1 := 0];
      Live(t) && FileOf(t) == FileOf(r).(content := Truncated(text, FILE_CONTENT_LENGTH - 1))
  {
    hide Overlay, Padded, Truncated, CString;
    FieldHoldsString(r, FILENAME_LENGTH, text, FILE_CONTENT_LENGTH - 1);
    var t := Overlay(r, FILENAME_LENGTH, Padded(text, FILE_CONTENT_LENGTH - 1))[DIRECTORY_FLAG - 1 := 0];
    assert t[..FILENAME_LENGTH] == r[..FILENAME_LENGTH];
    assert Field(t, FILENAME_LENGTH, FILE_CONTENT_LENGTH - 1) == t[FILENAME_LENGTH..DIRECTORY_FLAG];
  }

  /** Closing the gap cuts the file out. */
  lemma Gap(was: seq<seq<byte>>, i: nat, n: nat, now: seq<seq<byte>>)
    requires i < n <= |was| == |now| && now[..n - 1] == was[..i] + was[i + 1..n] && now[n - 1..] == was[n - 1..]
    requires (forall k :: 0 <= k < |was| ==> |was[k]| == RECORD_LENGTH) && forall k :: 0 <= k < n ==> Live(was[k])
    ensures forall k :: 0 <= k < |now| ==> |now[k]| == RECORD_LENGTH
    ensures forall k :: 0 <= k < n - 1 ==> Live(now[k])
    ensures FilesOf(now[..n - 1]) == FilesOf(was[..n])[..i] + FilesOf(was[..n])[i + 1..]
  {
    hide Live, FileOf;
    forall k | 0 <= k < |now| ensures now[k] == was[if i <= k < n - 1 then k + 1 else k] {
      if k < n - 1 {
        assert now[k] == now[..n - 1][k];
      } else {
        assert now[k] == now[n - 1..][k - (n - 1)];
      }
    }
  }

  // ----- What a name refers to

  /**
   A delete undoes a create of a new name. For a name already there it takes the old file and leaves the new empty
   one, at the end.
   */
  lemma DeleteAfterCreate(fs: seq<File>, name: seq<byte>, isDirectory: bool)
    requires CanCreate(fs, name)
    ensures var gs := Deleted(Created(fs, name, isDirectory), name);
      gs == if Has(fs, name) then Deleted(fs, name) + [File(name, [], isDirectory)] else fs
  {
    hide Position;
    var f := File(name, [], isDirectory);
    PositionInConcat(fs, [f], NameOf, name);
    PositionIs([f], NameOf, name, 0);
    CutBefore(fs, f, Find(fs, name));
  }

  lemma CutBefore(fs: seq<File>, f: File, i: nat)
    requires i <= |fs|
    ensures (fs + [f])[..i] + (fs + [f])[i + 1..] == if i < |fs| then fs[..i] + fs[i + 1..] + [f] else fs
  {
  }

  /**
   Under a new name of 1 to 49 characters the file created is found: it is empty, what it was created as, and writable
   unless it is a directory. No other name is accepted, nor any file beyond 5000.
   */
  lemma CreatedIsFound(fs: seq<File>, name: seq<byte>, isDirectory: bool)
    ensures var gs := Created(fs, name, isDirectory);
      if |fs| < 5000 && 1 <= |name| <= 49 then
        && |gs| == |fs| + 1 && Has(gs, name)
        && (Has(fs, name) || gs[Find(gs, name)] == File(name, [], isDirectory))
        && (Has(fs, name) || (CanWrite(gs, name) <==> !isDirectory))
      else gs == fs
  {
    hide Position;
    if CanCreate(fs, name) {
      var f := File(name, [], isDirectory);
      PositionInConcat(fs, [f], NameOf, name);
      PositionIs([f], NameOf, name, 0);
    }
  }

  /** Creating a file hides nothing: a name that was there still means the same file. */
  lemma CreateKeepsMeanings(fs: seq<File>, name: seq<byte>, isDirectory: bool, other: seq<byte>)
    requires Has(fs, other)
    ensures var gs := Created(fs, name, isDirectory);
      Has(gs, other) && gs[Find(gs, other)] == fs[Find(fs, other)]
  {
    hide Position;
    PositionInConcat(fs, [File(name, [], isDirectory)], NameOf, other);
  }

  /** A write is read back cut to 255 characters, and no other name is affected. */
  lemma ReadAfterWrite(fs: seq<File>, name: seq<byte>, text: seq<byte>, other: seq<byte>)
    requires Terminated(text) && CanWrite(fs, name) && Has(fs, other)
    ensures var gs := Written(fs, name, text);
      && Has(gs, other)
      && gs[Find(gs, other)] == (if other == name then fs[Find(fs, name)].(content := Truncated(text, 255))
                                 else fs[Find(fs, other)])
  {
    hide Position;
    PositionIs(Written(fs, name, text), NameOf, other, Find(fs, other));
  }
}
