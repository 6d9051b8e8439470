// The file server as its clients see it: one bounded reply per request. Requests
// carry 32-bit lengths and offsets. A request may fail, and a reply may cover less
// than was asked; both are counted, so that contracts can say what holds without them.
module Fsd {
  import opened Bytes

  const MSG_MAX: int := 8192
  const READ_CHUNK: int := MSG_MAX - 4
  const WRITE_CHUNK: int := MSG_MAX - 108
  const OFFSET_APPEND: int := 0xFFFF_FFFF

  const LIST_PAGE: int := (MSG_MAX - 4) / 36

  datatype Entry = Entry(name: string, isDir: bool)

  class Server {
    var files: map<string, seq<byte>>
    var dirs: map<string, seq<Entry>>
    ghost var faults: nat
    ghost var shorts: nat

    // Sizes are 32-bit as well.
    ghost predicate Valid()
      reads this
    {
      forall p :: p in files ==> |files[p]| < TWO_32
    }

    // FS_READ_AT
    method ReadAt(path: string, len: nat, off: nat) returns (res: int, data: seq<byte>)
      requires Valid() && len < TWO_32 && off < TWO_32
      modifies this`faults, this`shorts
      ensures res == |data| || (res == -1 && data == [])
      ensures res == -1 <==> path !in files || faults == old(faults) + 1
      ensures faults == old(faults) || (faults == old(faults) + 1 && path in files)
      ensures shorts == old(shorts) || (shorts == old(shorts) + 1 && 0 < res < Min(len, READ_CHUNK))
      ensures res >= 0 ==>
                var full := Slice(files[path], off, Min(len, READ_CHUNK));
                data <= full && (full != [] ==> data != []) && (shorts == old(shorts) ==> data == full)
    {
      if path !in files {
        return -1, [];
      }
      if * {
        faults := faults + 1;
        return -1, [];
      }
      var full := Slice(files[path], off, Min(len, READ_CHUNK));
      var n: nat := |full|;
      if n > 1 {
        n :| 1 <= n <= |full|;
      }
      if n < |full| {
        shorts := shorts + 1;
      }
      return n, full[..n];
    }

    // FS_WRITE_AT: no holes; a missing file is created by a write at offset 0.
    method WriteAt(path: string, data: seq<byte>, off: nat) returns (res: int)
      requires Valid() && |data| <= WRITE_CHUNK && off < TWO_32
      modifies this`files, this`faults, this`shorts
      ensures Valid() && files.Keys == old(files.Keys) + (if res < 0 then {} else {path})
      ensures forall p :: p in old(files) && p != path ==> files[p] == old(files[p])
      ensures var f := if path in old(files) then old(files[path]) else [];
              var at := if off == OFFSET_APPEND then |f| else off;
              && (faults == old(faults) || (faults == old(faults) + 1 && res == -1))
              && (res == -1 <==> at > |f| || faults == old(faults) + 1)
              && (shorts == old(shorts) || (shorts == old(shorts) + 1 && 0 < res < |data|))
              && (res == -1 ==> files == old(files))
              && (res != -1 ==> 0 <= res <= |data| && (data != [] ==> res > 0) && files[path] == Splice(f, at, data[..res]))
              && (res != -1 && shorts == old(shorts) ==> res == |data|)
    {
      var f := if path in files then files[path] else [];
      var at := if off == OFFSET_APPEND then |f| else off;
      if at > |f| {
        return -1;
      }
      var n: nat := |data|;
      if n > 1 {
        n :| 1 <= n <= |data|;
      }
      if * {
        faults := faults + 1;
        return -1;
      }
      var g := Splice(f, at, data[..n]);
      if |g| >= TWO_32 {
        faults := faults + 1;
        return -1;
      }
      if n < |data| {
        shorts := shorts + 1;
      }
      files := files[path := g];
      return n;
    }

    // FS_STAT of a file; directories are not kept in `files`.
    method Stat(path: string) returns (size: int)
      requires Valid()
      modifies this`faults
      ensures size == -1 <==> path !in files || faults == old(faults) + 1
      ensures faults == old(faults) || (faults == old(faults) + 1 && path in files)
      ensures size != -1 ==> size == |files[path]|
    {
      if path !in files {
        return -1;
      }
      if * {
        faults := faults + 1;
        return -1;
      }
      return |files[path]|;
    }

    // FS_DELETE
    method Delete(path: string) returns (res: int)
      requires Valid()
      modifies this`files, this`faults
      ensures Valid()
      ensures res == -1 <==> path !in old(files) || faults == old(faults) + 1
      ensures faults == old(faults) || (faults == old(faults) + 1 && path in old(files))
      ensures files == if res == -1 then old(files) else old(files) - {path}
    {
      if path !in files {
        return -1;
      }
      if * {
        faults := faults + 1;
        return -1;
      }
      files := files - {path};
      return 0;
    }

    // FS_LIST: one page of entries from a running start index; only the last page
    // can be short.
    method List(path: string, start: nat) returns (res: int, page: seq<Entry>)
      modifies this`faults
      ensures res == |page| || (res == -1 && page == [])
      ensures res == -1 <==> path !in dirs || faults == old(faults) + 1
      ensures faults == old(faults) || (faults == old(faults) + 1 && path in dirs)
      ensures res != -1 ==> page == Page(dirs[path], start)
    {
      if path !in dirs {
        return -1, [];
      }
      if * {
        faults := faults + 1;
        return -1, [];
      }
      page := Page(dirs[path], start);
      res := |page|;
    }
  }

  function Page(entries: seq<Entry>, start: nat): seq<Entry> {
    if start >= |entries| then [] else entries[start..Min(start + LIST_PAGE, |entries|)]
  }
}
