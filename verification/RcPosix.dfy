// The file-descriptor table over the request layer: transfers are cut into
// requests, and an offset is kept per descriptor.
module RcPosix {
  import opened Bytes
  import Fsd
  import RcFs

  datatype Errno = ENOENT | EIO | EEXIST | EMFILE
  const FD_MAX: int := 64

  datatype Kind = Free | Console | File
  datatype FdEnt = FdEnt(kind: Kind, off: nat, path: string)
  datatype Whence = SeekSet | SeekCur | SeekEnd

  // What a read of `count` bytes at `off` delivers when nothing fails: the wire
  // carries both numbers modulo 2^32.
  function ReadSpan(f: seq<byte>, off: nat, count: nat): seq<byte> {
    Slice(f, off % TWO_32, count % TWO_32)
  }

  // A transfer of `done` bytes so far: descriptor fd has moved on by that much,
  // every other one is as in tab.
  ghost predicate Moved(now: seq<FdEnt>, fd: nat, tab: seq<FdEnt>, done: nat) {
    fd < |tab| && now == tab[fd := tab[fd].(off := tab[fd].off + done)]
  }

  lemma MovedAt(now: seq<FdEnt>, fd: nat, tab: seq<FdEnt>, done: nat)
    requires Moved(now, fd, tab, done)
    ensures fd < |tab| == |now| && now[fd] == tab[fd].(off := tab[fd].off + done)
  {}

  // A write so far: data[..done] lies in its file at the offset the descriptor
  // started from, and the descriptor stands right after it.
  ghost predicate Placed(now: seq<FdEnt>, files: map<string, seq<byte>>, fd: nat,
                         tab: seq<FdEnt>, before: map<string, seq<byte>>, data: seq<byte>, done: nat) {
    && done <= |data| && Moved(now, fd, tab, done)
    && tab[fd].off + |data| <= Fsd.OFFSET_APPEND
    && tab[fd].off <= |FileIn(before, tab[fd].path)|
    && FileIn(files, tab[fd].path) == Splice(FileIn(before, tab[fd].path), tab[fd].off, data[..done])
    && files == if done == 0 && tab[fd].path !in files then before else before[tab[fd].path := FileIn(files, tab[fd].path)]
  }

  lemma PlacedStart(tab: seq<FdEnt>, before: map<string, seq<byte>>, fd: nat, data: seq<byte>)
    requires fd < |tab| && tab[fd].off <= |FileIn(before, tab[fd].path)|
    requires tab[fd].off + |data| <= Fsd.OFFSET_APPEND
    ensures Placed(tab, before, fd, tab, before, data, 0)
  {
    SpliceNothing(FileIn(before, tab[fd].path), tab[fd].off);
  }

  lemma PlacedAt(now: seq<FdEnt>, files: map<string, seq<byte>>, fd: nat,
                 tab: seq<FdEnt>, before: map<string, seq<byte>>, data: seq<byte>, done: nat)
    requires Placed(now, files, fd, tab, before, data, done)
    ensures |now| == |tab| && fd < |now| && now[fd].path == tab[fd].path && now[fd].off == tab[fd].off + done
    ensures now[fd].off <= |FileIn(files, now[fd].path)| && now[fd].off + |data| - done <= Fsd.OFFSET_APPEND
  {
    SpliceTwice(FileIn(before, tab[fd].path), tab[fd].off, data[..done], []);
  }

  lemma PlacedMore(now: seq<FdEnt>, files: map<string, seq<byte>>, fd: nat, tab: seq<FdEnt>,
                   before: map<string, seq<byte>>, data: seq<byte>, done: nat, d: seq<byte>, w: nat)
    requires Placed(now, files, fd, tab, before, data, done) && w <= |d| && done + |d| <= |data|
    requires d == data[done..done + |d|] && fd < |now| && now[fd].off <= |FileIn(files, now[fd].path)|
    ensures Placed(now[fd := now[fd].(off := now[fd].off + w)],
                   files[now[fd].path := Splice(FileIn(files, now[fd].path), now[fd].off, d[..w])],
                   fd, tab, before, data, done + w)
  {
    assert data[..done] + d[..w] == data[..done + w];
    SpliceTwice(FileIn(before, tab[fd].path), tab[fd].off, data[..done], d[..w]);
  }

  predicate EndsLine(c: byte) {
    c == 10 || c == 13
  }

  lemma Restored(now: seq<FdEnt>, mid: seq<FdEnt>, fd: nat, tab: seq<FdEnt>, off: nat, n: nat)
    requires fd < |tab| && mid == tab[fd := tab[fd].(off := off)] && Moved(now, fd, mid, n)
    ensures |now| == |tab| && now[fd := now[fd].(off := tab[fd].off)] == tab
  {}

  class Posix {
    const srv: Fsd.Server
    const fdtab: array<FdEnt>
    var consoleOut: seq<byte>
    var consoleIn: seq<byte>

    // fd_init: descriptors 0, 1 and 2 are the console.
    constructor (srv: Fsd.Server)
      requires srv.Valid()
      ensures Valid() && this.srv == srv && fresh(fdtab) && consoleOut == [] && consoleIn == []
      ensures forall i :: 0 <= i < FD_MAX ==> fdtab[i].kind == if i < 3 then Console else Free
    {
      this.srv := srv;
      fdtab := new FdEnt[FD_MAX](i => FdEnt(if i < 3 then Console else Free, 0, ""));
      consoleOut, consoleIn := [], [];
    }

    ghost predicate Valid()
      reads this, srv, fdtab
    {
      srv.Valid() && fdtab.Length == FD_MAX
    }

    ghost predicate IsFile(fd: int)
      reads this, srv, fdtab
    {
      Valid() && 0 <= fd < FD_MAX && fdtab[fd].kind == File
    }

    // The bytes of the file fd names; none if it has been deleted meanwhile.
    ghost function FileOf(fd: int): seq<byte>
      requires IsFile(fd)
      reads this, srv, fdtab
    {
      FileIn(srv.files, fdtab[fd].path)
    }

    ghost predicate Exists(fd: int)
      requires IsFile(fd)
      reads this, srv, fdtab
    {
      fdtab[fd].path in srv.files
    }

    // One request of a read; `full` is what the whole read should deliver.
    method ReadMore(fd: nat, buf: array<byte>, at: nat, count: nat, done: nat,
                    ghost full: seq<byte>, ghost was: seq<byte>, ghost tab: seq<FdEnt>) returns (got: int)
      requires IsFile(fd) && at + count <= buf.Length && done < count && done <= |full|
      requires Moved(fdtab[..], fd, tab, done) && RcFs.Stored(buf[..], was, at, full[..done])
      requires full == ReadSpan(FileOf(fd), tab[fd].off, count)
      modifies srv`faults, srv`shorts, fdtab, buf
      ensures Valid() && -1 <= got
      ensures got == -1 <==> !old(Exists(fd)) || srv.faults == old(srv.faults) + 1
      ensures srv.faults == old(srv.faults) || srv.faults == old(srv.faults) + 1
      ensures var n := if got < 0 then 0 else got;
              done + n <= |full| && Moved(fdtab[..], fd, tab, done + n) && RcFs.Stored(buf[..], was, at, full[..done + n])
      ensures got == 0 ==> done == |full|
    {
      hide RcFs.Stored, Moved, Slice;
      ghost var mid := buf[..];
      MovedAt(fdtab[..], fd, tab, done);
      ReadAdvance(FileOf(fd), tab[fd].off, count, done);
      got := RcFs.ReadAt(srv, fdtab[fd].path, buf, at + done, count - done, fdtab[fd].off);
      if got >= 0 {
        StoredMore(buf[..], mid, was, at, full, done, got);
        Advance(fd, got, tab, done);
      }
    }

    method Advance(fd: nat, n: nat, ghost tab: seq<FdEnt>, ghost done: nat)
      requires Moved(fdtab[..], fd, tab, done)
      modifies fdtab
      ensures Moved(fdtab[..], fd, tab, done + n)
    {
      assert fdtab[..][fd] == tab[fd].(off := tab[fd].off + done);
      fdtab[fd] := fdtab[fd].(off := fdtab[fd].off + n);
      assert fdtab[..] == tab[fd := tab[fd].(off := tab[fd].off + (done + n))];
    }

    // read() on a file: requests until the buffer is full or the file ends.
    method ReadFile(fd: nat, buf: array<byte>, at: nat, count: nat) returns (r: int)
      requires IsFile(fd) && at + count <= buf.Length
      modifies srv`faults, srv`shorts, fdtab, buf
      ensures Valid() && -1 <= r
      ensures srv.faults == old(srv.faults) || srv.faults == old(srv.faults) + 1
      ensures r == -1 ==> srv.faults == old(srv.faults) + 1 || !old(Exists(fd))
      ensures !old(Exists(fd)) && count > 0 ==> r == -1
      ensures var full, n := ReadSpan(old(FileOf(fd)), old(fdtab[fd].off), count), if r < 0 then 0 else r;
              && n <= |full|
              && (srv.faults == old(srv.faults) ==> n == |full|)
              && RcFs.Stored(buf[..], old(buf[..]), at, full[..n])
              && Moved(fdtab[..], fd, old(fdtab[..]), n)
    {
      var done := 0;
      ghost var f, tab, was := FileOf(fd), fdtab[..], buf[..];
      ghost var full := ReadSpan(f, tab[fd].off, count);
      hide RcFs.Stored, Slice, ReadSpan;
      RcFs.StoredNothing(buf[..], at);
      assert full[..0] == [];
      while done < count
        invariant IsFile(fd) && FileOf(fd) == f && srv.faults == old(srv.faults) && Exists(fd) == old(Exists(fd))
        invariant !Exists(fd) ==> done == 0
        invariant done <= |full| && Moved(fdtab[..], fd, tab, done) && RcFs.Stored(buf[..], was, at, full[..done])
        decreases count - done
      {
        var got := ReadMore(fd, buf, at, count, done, full, was, tab);
        assert fdtab[..][fd].path == tab[fd].path;
        if got < 0 {
          if done > 0 {
            break;
          }
          return -1;
        }
        if got == 0 {
          break;
        }
        done := done + got;
      }
      SpanLength(f, tab[fd].off, count);
      return done;
    }

    // One request of a write.
    method WriteMore(fd: nat, data: seq<byte>, done: nat, ghost tab: seq<FdEnt>, ghost before: map<string, seq<byte>>)
      returns (w: int, chunk: nat)
      requires IsFile(fd) && done < |data|
      modifies srv, fdtab
      ensures IsFile(fd) && fdtab[fd].path == old(fdtab[fd].path) && -1 <= w <= chunk <= |data| - done && w != 0
      ensures srv.faults >= old(srv.faults) && srv.shorts >= old(srv.shorts)
      ensures chunk == Min(|data| - done, Fsd.WRITE_CHUNK)
      ensures srv.faults == old(srv.faults) || (srv.faults == old(srv.faults) + 1 && w == -1)
      ensures fdtab[..] == old(fdtab[..])[fd := old(fdtab[fd]).(off := fdtab[fd].off)]
      ensures old(Placed(fdtab[..], srv.files, fd, tab, before, data, done)) ==>
                && Placed(fdtab[..], srv.files, fd, tab, before, data, done + if w < 0 then 0 else w)
                && (srv.faults == old(srv.faults) ==> w > 0)
                && (srv.faults == old(srv.faults) && srv.shorts == old(srv.shorts) ==> w == chunk)
      ensures srv.files - {old(fdtab[fd].path)} == old(srv.files) - {old(fdtab[fd].path)}
      ensures |old(FileOf(fd))| < old(fdtab[fd].off) < Fsd.OFFSET_APPEND ==>
                w == -1 && srv.files == old(srv.files) && fdtab[..] == old(fdtab[..])
    {
      hide Splice, Moved, Placed;
      chunk := |data| - done;
      if chunk > Fsd.WRITE_CHUNK {
        chunk := Fsd.WRITE_CHUNK;
      }
      var d := data[done..done + chunk];
      ghost var placed := Placed(fdtab[..], srv.files, fd, tab, before, data, done);
      ghost var ent, path, files := fdtab[..], fdtab[fd].path, srv.files;
      if placed {
        PlacedAt(ent, files, fd, tab, before, data, done);
      }
      w := RcFs.WriteAt(srv, fdtab[fd].path, d, fdtab[fd].off);
      if w >= 0 {
        fdtab[fd] := fdtab[fd].(off := fdtab[fd].off + w);
        assert fdtab[..] == ent[fd := ent[fd].(off := ent[fd].off + w)];
        if placed {
          assert srv.files == files[path := Splice(FileIn(files, path), ent[fd].off, d[..w])];
          PlacedMore(ent, files, fd, tab, before, data, done, d, w);
        }
      }
    }

    // write() on a file, from where its descriptor stands.
    method WriteFile(fd: nat, data: seq<byte>) returns (r: int)
      requires IsFile(fd)
      modifies srv, fdtab
      ensures IsFile(fd) && -1 <= r <= |data|
      ensures srv.shorts >= old(srv.shorts) && srv.faults >= old(srv.faults)
      ensures srv.faults <= old(srv.faults) + 1 && (|data| <= Fsd.WRITE_CHUNK && srv.faults > old(srv.faults) ==> r == -1)
      ensures fdtab[..] == old(fdtab[..])[fd := old(fdtab[fd]).(off := fdtab[fd].off)]
      ensures var off0, f := old(fdtab[fd].off), old(FileOf(fd));
              off0 + |data| <= Fsd.OFFSET_APPEND && off0 <= |f| ==>
                && Placed(fdtab[..], srv.files, fd, old(fdtab[..]), old(srv.files), data, if r < 0 then 0 else r)
                && (srv.faults == old(srv.faults) ==> r >= 0 && (data != [] ==> r > 0))
                && (srv.faults == old(srv.faults) && srv.shorts == old(srv.shorts) ==> r == |data|)
      ensures srv.files - {old(fdtab[fd].path)} == old(srv.files) - {old(fdtab[fd].path)}
      ensures |old(FileOf(fd))| < old(fdtab[fd].off) < Fsd.OFFSET_APPEND && data != [] ==>
                r == -1 && srv.files == old(srv.files) && fdtab[..] == old(fdtab[..])
    {
      var done := 0;
      ghost var tab, before := fdtab[..], srv.files;
      ghost var placed := tab[fd].off + |data| <= Fsd.OFFSET_APPEND && tab[fd].off <= |FileOf(fd)|;
      ghost var hole := |FileOf(fd)| < tab[fd].off < Fsd.OFFSET_APPEND;
      if placed {
        PlacedStart(tab, before, fd, data);
      }
      hide Placed;
      while done < |data|
        invariant IsFile(fd) && done <= |data|
        invariant placed ==> Placed(fdtab[..], srv.files, fd, tab, before, data, done)
        invariant srv.faults >= old(srv.faults) && srv.shorts >= old(srv.shorts)
        invariant srv.faults == old(srv.faults) && (|data| <= Fsd.WRITE_CHUNK ==> done == 0 || done == |data|)
        invariant hole ==> done == 0 && srv.files == before && fdtab[..] == tab
        invariant fdtab[..] == tab[fd := tab[fd].(off := fdtab[fd].off)] && srv.files - {tab[fd].path} == before - {tab[fd].path}
        decreases |data| - done
      {
        var w, chunk := WriteMore(fd, data, done, tab, before);
        if w < 0 {
          if done > 0 {
            break;
          }
          return -1;
        }
        done := done + w;
        if w < chunk {
          break;
        }
      }
      return done;
    }

    // close(): 0, 1 and 2 stay open.
    method Close(fd: int) returns (r: int)
      requires Valid()
      modifies fdtab
      ensures Valid()
      ensures r == if 0 <= fd < FD_MAX && old(fdtab[fd].kind) != Free then 0 else -1
      ensures forall i :: 0 <= i < FD_MAX ==>
                fdtab[i] == if i == fd && fd >= 3 && r == 0 then old(fdtab[i]).(kind := Free) else old(fdtab[i])
    {
      if fd < 0 || fd >= FD_MAX || fdtab[fd].kind == Free {
        return -1;
      }
      if fd >= 3 {
        fdtab[fd] := fdtab[fd].(kind := Free);
      }
      return 0;
    }

    // A console line: up to and including the first newline or carriage return, as
    // far as the waiting input and the buffer go.
    method ConsoleRead(buf: array<byte>, at: nat, n: nat) returns (i: nat)
      requires at + n <= buf.Length
      modifies this`consoleIn, buf
      ensures i <= n && i <= |old(consoleIn)| && consoleIn == old(consoleIn)[i..]
      ensures RcFs.Stored(buf[..], old(buf[..]), at, old(consoleIn)[..i])
      ensures forall k :: 0 <= k < i - 1 ==> !EndsLine(old(consoleIn)[k])
      ensures i < n ==> consoleIn == [] || (i > 0 && EndsLine(old(consoleIn)[i - 1]))
    {
      hide RcFs.Stored;
      i := 0;
      ghost var was, input := buf[..], consoleIn;
      RcFs.StoredNothing(was, at);
      assert input[..0] == [];
      while i < n && consoleIn != []
        invariant i <= n && i <= |input| && consoleIn == input[i..]
        invariant RcFs.Stored(buf[..], was, at, input[..i])
        invariant forall k :: 0 <= k < i ==> !EndsLine(input[k])
      {
        var c := consoleIn[0];
        consoleIn := consoleIn[1..];
        ghost var mid := buf[..];
        buf[at + i] := c;
        assert input[..i + 1] == input[..i] + [c];
        RcFs.StoredNext(was, at, input[..i], mid, c, buf[..]);
        i := i + 1;
        if EndsLine(c) {
          break;
        }
      }
    }

    method Read(fd: int, buf: array<byte>, at: nat, count: nat) returns (r: int)
      requires Valid() && at + count <= buf.Length
      modifies srv`faults, srv`shorts, fdtab, buf, this`consoleIn
      ensures Valid() && -1 <= r <= count && srv.faults >= old(srv.faults)
      ensures !(0 <= fd < FD_MAX) || old(fdtab[fd].kind) == Free ==>
                r == -1 && buf[..] == old(buf[..]) && fdtab[..] == old(fdtab[..]) && consoleIn == old(consoleIn)
      ensures old(IsFile(fd)) ==>
                var full, n := ReadSpan(old(FileOf(fd)), old(fdtab[fd].off), count), if r < 0 then 0 else r;
                && n <= |full|
                && (srv.faults == old(srv.faults) ==> n == |full|)
                && (r == -1 ==> srv.faults == old(srv.faults) + 1 || !old(Exists(fd)))
                && RcFs.Stored(buf[..], old(buf[..]), at, full[..n])
                && Moved(fdtab[..], fd, old(fdtab[..]), n) && consoleIn == old(consoleIn)
      ensures 0 <= fd < FD_MAX && old(fdtab[fd].kind) == Console ==>
                && 0 <= r <= |old(consoleIn)| && consoleIn == old(consoleIn)[r..] && fdtab[..] == old(fdtab[..])
                && RcFs.Stored(buf[..], old(buf[..]), at, old(consoleIn)[..r])
                && (forall k :: 0 <= k < r - 1 ==> !EndsLine(old(consoleIn)[k]))
                && (r < count ==> consoleIn == [] || (r > 0 && EndsLine(old(consoleIn)[r - 1])))
    {
      if fd < 0 || fd >= FD_MAX || fdtab[fd].kind == Free {
        return -1;
      }
      if fdtab[fd].kind == Console {
        r := ConsoleRead(buf, at, count);
        return;
      }
      SpanLength(FileOf(fd), fdtab[fd].off, count);
      r := ReadFile(fd, buf, at, count);
    }

    method Write(fd: int, data: seq<byte>) returns (r: int)
      requires Valid()
      modifies srv, fdtab, this`consoleOut
      ensures Valid() && -1 <= r <= |data|
      ensures srv.shorts >= old(srv.shorts) && srv.faults >= old(srv.faults)
      ensures !(0 <= fd < FD_MAX) || old(fdtab[fd].kind) == Free ==>
                r == -1 && srv.files == old(srv.files) && fdtab[..] == old(fdtab[..])
      ensures consoleOut == if 0 <= fd < FD_MAX && old(fdtab[fd].kind) == Console then old(consoleOut) + data else old(consoleOut)
      ensures 0 <= fd < FD_MAX && old(fdtab[fd].kind) == Console ==>
                r == |data| && srv.files == old(srv.files) && fdtab[..] == old(fdtab[..])
      ensures old(IsFile(fd)) ==> srv.files - {old(fdtab[fd].path)} == old(srv.files) - {old(fdtab[fd].path)}
      ensures old(IsFile(fd)) ==>
                var off0, f := old(fdtab[fd].off), old(FileOf(fd));
                && IsFile(fd)
                && srv.faults <= old(srv.faults) + 1
                && (|data| <= Fsd.WRITE_CHUNK && srv.faults > old(srv.faults) ==> r == -1)
                && fdtab[..] == old(fdtab[..])[fd := old(fdtab[fd]).(off := fdtab[fd].off)]
                && (off0 + |data| <= Fsd.OFFSET_APPEND && off0 <= |f| ==>
                     && Placed(fdtab[..], srv.files, fd, old(fdtab[..]), old(srv.files), data, if r < 0 then 0 else r)
                     && (srv.faults == old(srv.faults) ==> r >= 0 && (data != [] ==> r > 0))
                     && (srv.faults == old(srv.faults) && srv.shorts == old(srv.shorts) ==> r == |data|))
                && (|f| < off0 < Fsd.OFFSET_APPEND && data != [] ==>
                     r == -1 && srv.files == old(srv.files) && fdtab[..] == old(fdtab[..]))
    {
      hide Placed;
      if fd < 0 || fd >= FD_MAX || fdtab[fd].kind == Free {
        return -1;
      }
      if fdtab[fd].kind == Console {
        consoleOut := consoleOut + data;
        return |data|;
      }
      r := WriteFile(fd, data);
    }

    method Lseek(fd: int, offset: int, whence: Whence) returns (np: int)
      requires Valid()
      modifies srv`faults, fdtab
      ensures Valid() && -1 <= np && srv.faults >= old(srv.faults)
      ensures !(0 <= fd < FD_MAX) || old(fdtab[fd].kind) != File ==> np == -1
      ensures np == -1 ==> fdtab[..] == old(fdtab[..])
      ensures np != -1 ==> old(IsFile(fd)) && fdtab[..] == old(fdtab[..])[fd := old(fdtab[fd]).(off := np)]
      ensures old(IsFile(fd)) && whence != SeekEnd ==>
                np == var p := offset + if whence == SeekSet then 0 else old(fdtab[fd].off); if p < 0 then -1 else p
      ensures old(IsFile(fd)) && whence == SeekEnd && srv.faults == old(srv.faults) ==>
                np == var p := offset + |FileOf(fd)|; if p < 0 || !Exists(fd) then -1 else p
    {
      if fd < 0 || fd >= FD_MAX || fdtab[fd].kind != File {
        return -1;
      }
      var base := 0;
      match whence {
        case SeekSet =>
        case SeekCur => base := fdtab[fd].off;
        case SeekEnd =>
          var size := srv.Stat(fdtab[fd].path);
          if size < 0 {
            return -1;
          }
          base := size;
      }
      np := base + offset;
      if np < 0 {
        return -1;
      }
      fdtab[fd] := fdtab[fd].(off := np);
    }

    // pread: the same transfer at an explicit offset; the descriptor's own stays.
    method Pread(fd: int, buf: array<byte>, at: nat, count: nat, off: int) returns (r: int)
      requires Valid() && at + count <= buf.Length
      modifies srv`faults, srv`shorts, fdtab, buf, this`consoleIn
      ensures Valid() && fdtab[..] == old(fdtab[..]) && consoleIn == old(consoleIn) && -1 <= r
      ensures !old(IsFile(fd)) || off < 0 ==> r == -1 && buf[..] == old(buf[..])
      ensures old(IsFile(fd)) && off >= 0 ==>
                var full, n := ReadSpan(old(FileOf(fd)), off, count), if r < 0 then 0 else r;
                && n <= |full|
                && (srv.faults == old(srv.faults) ==> n == |full|)
                && RcFs.Stored(buf[..], old(buf[..]), at, full[..n])
    {
      if fd < 0 || fd >= FD_MAX || fdtab[fd].kind != File || off < 0 {
        return -1;
      }
      ghost var tab := fdtab[..];
      var save := fdtab[fd].off;
      fdtab[fd] := fdtab[fd].(off := off);
      ghost var mid := fdtab[..];
      r := Read(fd, buf, at, count);
      hide ReadSpan, RcFs.Stored;
      Restored(fdtab[..], mid, fd, tab, off, if r < 0 then 0 else r);
      fdtab[fd] := fdtab[fd].(off := save);
    }

    // pwrite: the descriptor's own offset stays, whatever becomes of the transfer; past the end
    // of the file nothing is written.
    method Pwrite(fd: int, data: seq<byte>, off: int) returns (r: int)
      requires Valid()
      modifies srv, fdtab, this`consoleOut
      ensures Valid() && -1 <= r <= |data| && consoleOut == old(consoleOut)
      ensures fdtab[..] == old(fdtab[..])
      ensures !old(IsFile(fd)) || off < 0 ==> r == -1 && srv.files == old(srv.files)
      ensures old(IsFile(fd)) && |old(FileOf(fd))| < off < Fsd.OFFSET_APPEND && data != [] ==> r == -1 && srv.files == old(srv.files)
      ensures old(IsFile(fd)) && 0 <= off <= |old(FileOf(fd))| && off + |data| <= Fsd.OFFSET_APPEND ==>
                && FileOf(fd) == Splice(old(FileOf(fd)), off, data[..if r < 0 then 0 else r])
                && (srv.faults == old(srv.faults) && srv.shorts == old(srv.shorts) ==> r == |data|)
    {
      if fd < 0 || fd >= FD_MAX || fdtab[fd].kind != File || off < 0 {
        return -1;
      }
      ghost var tab, f := fdtab[..], FileOf(fd);
      var save := fdtab[fd].off;
      fdtab[fd] := fdtab[fd].(off := off);
      ghost var mid := fdtab[..];
      r := Write(fd, data);
      if 0 <= off <= |f| && off + |data| <= Fsd.OFFSET_APPEND {
        Restored(fdtab[..], mid, fd, tab, off, if r < 0 then 0 else r);
      }
      fdtab[fd] := fdtab[fd].(off := save);
    }

    method FdAlloc() returns (fd: int)
      requires Valid()
      ensures fd == -1 ==> forall i :: 3 <= i < FD_MAX ==> fdtab[i].kind != Free
      ensures fd != -1 ==> 3 <= fd < FD_MAX && fdtab[fd].kind == Free && forall i :: 3 <= i < fd ==> fdtab[i].kind != Free
    {
      for i := 3 to FD_MAX
        invariant forall k :: 3 <= k < i ==> fdtab[k].kind != Free
      {
        if fdtab[i].kind == Free {
          return i;
        }
      }
      return -1;
    }

    // open() of a regular file. The namespace maps each absolute path to itself.
    method Open(path: string, create: bool, excl: bool, trunc: bool, writing: bool, append: bool)
        returns (fd: int, errno: Errno)
      requires Valid()
      modifies srv, fdtab
      ensures Valid() && -1 <= fd < FD_MAX && srv.faults >= old(srv.faults)
      ensures forall p :: p in old(srv.files) && p != path ==> p in srv.files && srv.files[p] == old(srv.files[p])
      ensures fd == -1 ==> fdtab[..] == old(fdtab[..])
      ensures path !in old(srv.files) && !create ==> fd == -1 && errno == ENOENT && srv.files == old(srv.files)
      ensures path in old(srv.files) && create && excl && srv.faults == old(srv.faults) ==>
                fd == -1 && errno == EEXIST && srv.files == old(srv.files)
      ensures fd != -1 ==>
                && 3 <= fd && old(fdtab[fd].kind) == Free && (forall i :: 3 <= i < fd ==> old(fdtab[i].kind) != Free)
                && fdtab[..] == old(fdtab[..])[fd := fdtab[fd]] && fdtab[fd].kind == File && fdtab[fd].path == path
                && (srv.faults == old(srv.faults) ==> path in srv.files && fdtab[fd].off == if append then |srv.files[path]| else 0)
      ensures srv.faults == old(srv.faults) && (if path in old(srv.files) then !(create && excl) else create) ==>
                && (fd == -1 <==> forall i :: 3 <= i < FD_MAX ==> old(fdtab[i].kind) != Free) && (fd == -1 ==> errno == EMFILE)
                && srv.files == old(srv.files)[path := if path in old(srv.files) && !(trunc && writing) then old(srv.files[path]) else []]
    {
      var size;
      size, errno := Prepare(path, create, excl, trunc && writing);
      if size < 0 {
        return -1, errno;
      }
      fd := FdAlloc();
      if fd < 0 {
        return -1, EMFILE;
      }
      fdtab[fd] := FdEnt(File, if append then size else 0, path);
    }

    // The file open() is to name, created or emptied as the flags ask; its size, or -1 when the
    // flags refuse it.
    method Prepare(path: string, create: bool, excl: bool, emptied: bool) returns (size: int, errno: Errno)
      requires Valid()
      modifies srv
      ensures Valid() && size >= -1 && srv.faults >= old(srv.faults)
      ensures forall p :: p in old(srv.files) && p != path ==> p in srv.files && srv.files[p] == old(srv.files[p])
      ensures path !in old(srv.files) && !create ==> size == -1 && errno == ENOENT && srv.files == old(srv.files)
      ensures srv.faults == old(srv.faults) ==>
                if (if path in old(srv.files) then create && excl else !create) then
                  && size == -1 && srv.files == old(srv.files) && errno == if create then EEXIST else ENOENT
                else
                  && srv.files == old(srv.files)[path := if path in old(srv.files) && !emptied then old(srv.files[path]) else []]
                  && size == |srv.files[path]|
    {
      size := srv.Stat(path);
      errno := EIO;
      if size < 0 {
        if !create {
          return -1, ENOENT;
        }
        size := MakeEmpty(path);
      } else if create && excl {
        return -1, EEXIST;
      } else if emptied {
        var d := srv.Delete(path);
        size := MakeEmpty(path);
      }
    }

    // mkstemp, the names it makes of its template given: each is created exclusively, and only
    // one that is taken leads to another try.
    method Mkstemp(names: seq<string>) returns (fd: int, tried: nat)
      requires Valid() && names != []
      modifies srv, fdtab
      ensures Valid() && -1 <= fd < FD_MAX && tried < |names| && srv.faults >= old(srv.faults)
      ensures srv.faults == old(srv.faults) ==>
                && (forall k :: 0 <= k < tried ==> names[k] in old(srv.files))
                && (if names[tried] in old(srv.files) then fd == -1 && tried == |names| - 1 && srv.files == old(srv.files)
                    else srv.files == old(srv.files)[names[tried] := []])
                && (fd != -1 ==> fdtab[fd].path == names[tried] && fdtab[fd].kind == File && old(fdtab[fd].kind) == Free)
                && (fd == -1 ==> fdtab[..] == old(fdtab[..]))
    {
      tried := 0;
      while true
        invariant Valid() && tried < |names| && srv.faults >= old(srv.faults)
        invariant srv.faults == old(srv.faults) ==>
                    && srv.files == old(srv.files) && fdtab[..] == old(fdtab[..])
                    && forall k :: 0 <= k < tried ==> names[k] in old(srv.files)
        decreases |names| - tried
      {
        var errno;
        fd, errno := Open(names[tried], true, true, false, true, false);
        if fd >= 0 || errno != EEXIST || tried + 1 == |names| {
          return;
        }
        tried := tried + 1;
      }
    }

    method MakeEmpty(path: string) returns (size: int)
      requires Valid()
      modifies srv
      ensures Valid() && (size == 0 || size == -1) && srv.faults >= old(srv.faults)
      ensures forall p :: p in old(srv.files) && p != path ==> p in srv.files && srv.files[p] == old(srv.files[p])
      ensures path !in old(srv.files) && srv.faults == old(srv.faults) ==> size == 0 && srv.files == old(srv.files)[path := []]
    {
      var w := RcFs.WriteAt(srv, path, [], 0);
      return if w < 0 then -1 else 0;
    }
  }

  lemma SpanLength(f: seq<byte>, off: nat, count: nat)
    ensures |ReadSpan(f, off, count)| <= count
  {}

  lemma StoredMore(now: seq<byte>, mid: seq<byte>, was: seq<byte>, at: nat, full: seq<byte>, done: nat, got: nat)
    requires done + got <= |full|
    requires RcFs.Stored(mid, was, at, full[..done]) && RcFs.Stored(now, mid, at + done, full[done..][..got])
    ensures RcFs.Stored(now, was, at, full[..done + got])
  {
    RcFs.StoredTwice(was, at, full[..done], mid, full[done..][..got], now);
    assert full[..done] + full[done..][..got] == full[..done + got];
  }

  // After `done` bytes, what is left to read is what the next request asks for.
  lemma ReadAdvance(f: seq<byte>, off: nat, count: nat, done: nat)
    requires done <= |ReadSpan(f, off, count)| && |f| < TWO_32 && done <= count
    ensures ReadSpan(f, off + done, count - done) == ReadSpan(f, off, count)[done..]
  {
    var o, c := off % TWO_32, count % TWO_32;
    if done > 0 {
      assert o + done <= |f|;
      ModAdd(off, done);
      ModSub(count, done);
    }
    SliceSplit(f, o, c, done);
  }

  lemma ModAdd(a: nat, d: nat)
    requires a % TWO_32 + d < TWO_32
    ensures (a + d) % TWO_32 == a % TWO_32 + d
  {}

  lemma ModSub(a: nat, d: nat)
    requires d <= a % TWO_32
    ensures d <= a && (a - d) % TWO_32 == a % TWO_32 - d
  {}
}
