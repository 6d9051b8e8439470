// The Go runtime's client of the file server: transfers in fixed chunks over the
// same wire. A read reply shorter than asked is taken as the end of the file, and
// the count a write reply carries is not looked at.
module GoFs {
  import opened Bytes
  import Fsd
  import RcFs

  datatype Errno = EOK | ENOENT | EIO

  // What has been read so far is the start of what a single read would deliver.
  lemma ReadMore(f: seq<byte>, off: nat, len: nat, total: nat, want: nat, full: seq<byte>, data: seq<byte>)
    requires full == Slice(f, off % TWO_32, len) && total <= |full| && |f| < TWO_32 && total + want <= len && want > 0
    requires data <= Slice(f, (off + total) % TWO_32, want) && (Slice(f, (off + total) % TWO_32, want) != [] ==> data != [])
    ensures |data| <= want && data <= full[total..] && (data == [] ==> total == |full|)
    ensures data == Slice(f, (off + total) % TWO_32, want) && |data| < want ==> total + |data| == |full|
  {
    hide Slice;
    SliceLength(f, (off + total) % TWO_32, want);
    if total > 0 {
      SliceLength(f, off % TWO_32, len);
      SameBlock(off, total);
    }
    SliceWithin(f, off % TWO_32, len, total, want);
  }

  lemma SameBlock(off: nat, n: nat)
    requires off % TWO_32 + n < TWO_32
    ensures (off + n) % TWO_32 == off % TWO_32 + n
  {}

  lemma SliceWithin(f: seq<byte>, o: nat, len: nat, n: nat, k: nat)
    requires n <= |Slice(f, o, len)| && n + k <= len
    ensures Slice(f, o + n, k) <= Slice(f, o, len)[n..]
    ensures |Slice(f, o + n, k)| < k ==> Slice(f, o + n, k) == Slice(f, o, len)[n..]
  {
    if o + n < |f| {
      assert Slice(f, o, len)[n..] == f[o + n..Min(o + len, |f|)];
    }
  }

  // One request of a read: res as the server gave it, m bytes of it copied.
  method ReadChunk(srv: Fsd.Server, path: string, b: array<byte>, off: nat, n: nat, ghost full: seq<byte>, ghost was: seq<byte>)
    returns (res: int, m: nat, want: nat)
    requires srv.Valid() && n < b.Length == |was| && n <= |full| && b[..] == full[..n] + was[n..]
    requires full == Slice(FileIn(srv.files, path), off % TWO_32, b.Length) && |full| <= b.Length
    modifies srv`faults, srv`shorts, b
    ensures srv.faults >= old(srv.faults) && srv.shorts >= old(srv.shorts) && m <= want
    ensures srv.shorts == old(srv.shorts) || (srv.shorts == old(srv.shorts) + 1 && m < want)
    ensures (res == -1 && m == 0) || (res == m && srv.faults == old(srv.faults) && path in srv.files)
    ensures res == -1 <==> path !in srv.files || srv.faults > old(srv.faults)
    ensures n + m <= |full| && b[..] == full[..n + m] + was[n + m..]
    ensures res != -1 && (res == 0 || m < want) && srv.shorts == old(srv.shorts) ==> n + m == |full|
  {
    hide Slice;
    want := Min(b.Length - n, Fsd.READ_CHUNK);
    ghost var mid := b[..];
    var data;
    res, data := srv.ReadAt(path, want, (off + n) % TWO_32);
    m := 0;
    if res >= 0 {
      ReadMore(srv.files[path], off, b.Length, n, want, full, data);
    }
    if res > 0 {
      m := Min(res, want);
      RcFs.CopyIn(b, n, data[..m]);
      Extend(full, was, mid, b[..], n, data[..m]);
    }
  }

  method ReadAt(srv: Fsd.Server, path: string, b: array<byte>, off: nat) returns (n: nat, errno: Errno)
    requires srv.Valid()
    modifies srv`faults, srv`shorts, b
    ensures srv.faults >= old(srv.faults) && old(srv.shorts) <= srv.shorts <= old(srv.shorts) + 1
    ensures errno == EOK || errno == EIO
    ensures errno == EIO <==> n == 0 && b.Length > 0 && (path !in srv.files || srv.faults > old(srv.faults))
    ensures var full := Slice(FileIn(srv.files, path), off % TWO_32, b.Length);
            && n <= |full| && b[..] == full[..n] + old(b[..])[n..]
            && (srv.faults == old(srv.faults) && srv.shorts == old(srv.shorts) ==> n == |full|)
  {
    hide Slice;
    n := 0;
    ghost var full, was := Slice(FileIn(srv.files, path), off % TWO_32, b.Length), b[..];
    assert full[..0] + was[0..] == was;
    SliceLength(FileIn(srv.files, path), off % TWO_32, b.Length);
    while n < b.Length
      invariant n <= |full| <= b.Length && b[..] == full[..n] + was[n..]
      invariant srv.faults == old(srv.faults) && srv.shorts == old(srv.shorts)
      invariant path !in srv.files ==> n == 0
    {
      var res, m, want := ReadChunk(srv, path, b, off, n, full, was);
      if res < 0 {
        return n, if n == 0 then EIO else EOK;
      }
      n := n + m;
      if res == 0 || m < want {
        break;
      }
    }
    return n, EOK;
  }

  lemma SliceLength(f: seq<byte>, off: nat, n: nat)
    ensures |Slice(f, off, n)| <= n && (f == [] ==> Slice(f, off, n) == [])
    ensures Slice(f, off, n) != [] ==> off + |Slice(f, off, n)| <= |f|
  {}

  lemma Extend(full: seq<byte>, was: seq<byte>, mid: seq<byte>, now: seq<byte>, n: nat, d: seq<byte>)
    requires n <= |full| <= |was| && mid == full[..n] + was[n..] && d <= full[n..] && RcFs.Stored(now, mid, n, d)
    ensures n + |d| <= |full| && now == full[..n + |d|] + was[n + |d|..]
  {
    assert full[..n] + d == full[..n + |d|];
    assert mid[..n] == full[..n] && mid[n + |d|..] == was[n + |d|..];
  }

  // A write so far: b[..done] lies in the file at off, everything else as before.
  ghost predicate Placed(files: map<string, seq<byte>>, before: map<string, seq<byte>>, path: string, off: nat, b: seq<byte>, done: nat)
  {
    && done <= |b| && off + |b| <= Fsd.OFFSET_APPEND && off <= |FileIn(before, path)|
    && FileIn(files, path) == Splice(FileIn(before, path), off, b[..done])
    && files == if done == 0 && path !in files then before else before[path := FileIn(files, path)]
  }

  lemma PlacedStart(before: map<string, seq<byte>>, path: string, off: nat, b: seq<byte>)
    requires off + |b| <= Fsd.OFFSET_APPEND && off <= |FileIn(before, path)|
    ensures Placed(before, before, path, off, b, 0)
  {
    SpliceNothing(FileIn(before, path), off);
  }

  lemma PlacedMore(files: map<string, seq<byte>>, before: map<string, seq<byte>>, path: string, off: nat, b: seq<byte>, done: nat, n: nat)
    requires Placed(files, before, path, off, b, done) && done + n <= |b|
    ensures off + done <= |FileIn(files, path)|
    ensures Placed(files[path := Splice(FileIn(files, path), off + done, b[done..done + n])], before, path, off, b, done + n)
    ensures (off + done) % TWO_32 == off + done && (n > 0 ==> off + done < Fsd.OFFSET_APPEND)
  {
    SpliceTwice(FileIn(before, path), off, b[..done], b[done..done + n]);
    assert b[..done] + b[done..done + n] == b[..done + n];
  }

  // One request of a write.
  method WriteChunk(srv: Fsd.Server, path: string, b: seq<byte>, off: nat, done: nat, ghost before: map<string, seq<byte>>)
    returns (res: int, n: nat)
    requires srv.Valid() && done <= |b|
    modifies srv
    ensures srv.Valid() && srv.faults >= old(srv.faults) && srv.shorts >= old(srv.shorts)
    ensures done + n <= |b| && (done < |b| ==> n > 0)
    ensures old(Placed(srv.files, before, path, off, b, done)) && srv.shorts == old(srv.shorts) ==>
              if res < 0 then Placed(srv.files, before, path, off, b, done) && srv.faults > old(srv.faults)
              else Placed(srv.files, before, path, off, b, done + n) && path in srv.files
    ensures res < 0 ==> srv.files == old(srv.files)
    ensures res >= 0 ==> srv.faults == old(srv.faults)
    ensures done == 0 && |FileIn(old(srv.files), path)| < off < Fsd.OFFSET_APPEND ==> res < 0
    ensures n == Min(|b| - done, Fsd.WRITE_CHUNK) && res <= n
    ensures res >= 0 ==> if srv.shorts == old(srv.shorts) then res == n else res < n && srv.shorts == old(srv.shorts) + 1
    ensures done == 0 && off < Fsd.OFFSET_APPEND && res >= 0 ==>
              off <= |FileIn(old(srv.files), path)| && srv.files == old(srv.files)[path := Splice(FileIn(old(srv.files), path), off, b[..res])]
  {
    hide Placed, Splice;
    n := Min(|b| - done, Fsd.WRITE_CHUNK);
    ghost var placed, mid := Placed(srv.files, before, path, off, b, done), srv.files;
    if placed {
      PlacedMore(mid, before, path, off, b, done, n);
    }
    var d := b[done..done + n];
    ghost var was := srv.files;
    res := srv.WriteAt(path, d, (off + done) % TWO_32);
    if res >= 0 && done == 0 && off < Fsd.OFFSET_APPEND {
      assert d[..res] == b[..res];
      assert srv.files == was[path := Splice(FileIn(was, path), off, b[..res])];
    }
    if res >= 0 && placed && srv.shorts == old(srv.shorts) {
      assert d[..res] == d;
      assert srv.files == mid[path := Splice(FileIn(mid, path), off + done, d)];
    }
  }

  // A short reply to a write of one chunk loses the rest of it, and the caller is told that all
  // of it was written.
  method WriteAt(srv: Fsd.Server, path: string, b: seq<byte>, off: nat) returns (done: nat, errno: Errno, ghost kept: nat)
    requires srv.Valid()
    modifies srv
    ensures srv.Valid() && srv.faults >= old(srv.faults) && srv.shorts >= old(srv.shorts)
    ensures done <= |b| && (errno == EOK || (errno == EIO && done == 0)) && (errno == EOK && |b| > 0 ==> done > 0)
    ensures srv.faults > old(srv.faults) && done == 0 ==> errno == EIO
    ensures |FileIn(old(srv.files), path)| < off < Fsd.OFFSET_APPEND ==> done == 0 && errno == EIO && srv.files == old(srv.files)
    ensures old(off + |b| <= Fsd.OFFSET_APPEND && off <= |FileIn(srv.files, path)|) && srv.shorts == old(srv.shorts) ==>
              && Placed(srv.files, old(srv.files), path, off, b, done)
              && (srv.faults == old(srv.faults) ==> errno == EOK && done == |b| && path in srv.files)
    ensures |b| <= Fsd.WRITE_CHUNK && off < Fsd.OFFSET_APPEND && errno == EOK ==>
              && done == |b| && kept <= |b| && (kept == |b| <==> srv.shorts == old(srv.shorts))
              && off <= |FileIn(old(srv.files), path)|
              && srv.files == old(srv.files)[path := Splice(FileIn(old(srv.files), path), off, b[..kept])]
  {
    hide Placed, FileIn, Splice;
    done, kept := 0, 0;
    ghost var before, ok := srv.files, off + |b| <= Fsd.OFFSET_APPEND && off <= |FileIn(srv.files, path)|;
    ghost var hole := |FileIn(before, path)| < off < Fsd.OFFSET_APPEND;
    if ok {
      PlacedStart(before, path, off, b);
    }
    while done < |b| || (done == 0 && |b| == 0)
      invariant srv.Valid() && done <= |b| && srv.faults >= old(srv.faults) && srv.shorts >= old(srv.shorts)
      invariant ok && srv.shorts == old(srv.shorts) ==>
                  Placed(srv.files, before, path, off, b, done) && (done > 0 ==> path in srv.files)
      invariant srv.faults == old(srv.faults) && (hole ==> done == 0 && srv.files == before)
      invariant done == 0 ==> srv.files == before && srv.shorts == old(srv.shorts)
      invariant done > 0 && |b| <= Fsd.WRITE_CHUNK && off < Fsd.OFFSET_APPEND ==>
                  && done == |b| && kept <= |b| && (kept == |b| <==> srv.shorts == old(srv.shorts)) && off <= |FileIn(before, path)|
                  && srv.files == before[path := Splice(FileIn(before, path), off, b[..kept])]
      decreases |b| - done, if done == 0 then 1 else 0
    {
      var res, n := WriteChunk(srv, path, b, off, done, before);
      if res < 0 {
        return done, if done == 0 then EIO else EOK, kept;
      }
      kept := if done == 0 then res else kept;
      done := done + n;
      if |b| == 0 {
        break;
      }
    }
    return done, EOK, kept;
  }

  // The whole listing, page by page.
  method ListDir(srv: Fsd.Server, path: string) returns (entries: seq<Fsd.Entry>, errno: Errno)
    modifies srv`faults
    ensures errno == EOK || (errno == EIO && entries == [])
    ensures path in srv.dirs ==> entries <= srv.dirs[path]
    ensures errno == EIO <==> entries == [] && (path !in srv.dirs || srv.faults > old(srv.faults))
    ensures path in srv.dirs && srv.faults == old(srv.faults) ==> errno == EOK && entries == srv.dirs[path]
  {
    entries := [];
    while true
      invariant path in srv.dirs ==> entries <= srv.dirs[path]
      invariant path !in srv.dirs ==> entries == []
      invariant srv.faults == old(srv.faults)
      decreases (if path in srv.dirs then |srv.dirs[path]| else 0) - |entries|
    {
      var res, page := srv.List(path, |entries|);
      if res < 0 {
        return entries, if entries != [] then EOK else EIO;
      }
      entries := entries + page;
      if res < Fsd.LIST_PAGE {
        break;
      }
    }
    return entries, EOK;
  }

  function Zeros(n: nat): seq<byte> {
    seq(n, _ => 0)
  }

  // The file cut, or extended with zeros, to exactly `size` bytes.
  function Resized(f: seq<byte>, size: nat): seq<byte> {
    if size <= |f| then f[..size] else f + Zeros(size - |f|)
  }

  // A file written anew after it was deleted.
  lemma Rewritten(now: map<string, seq<byte>>, before: map<string, seq<byte>>, files: map<string, seq<byte>>,
                  path: string, d: seq<byte>)
    ensures before == files - {path} && path in now && Placed(now, before, path, 0, d, |d|) ==> now == files[path := d]
  {
    var none: seq<byte> := [];
    SpliceAtEnd(none, d);
    assert none + d == d == d[..|d|];
    assert (files - {path})[path := d] == files[path := d];
  }

  lemma Grown(now: map<string, seq<byte>>, before: map<string, seq<byte>>, path: string, d: seq<byte>)
    ensures path in before && Placed(now, before, path, |before[path]|, d, |d|) ==> now == before[path := before[path] + d]
  {
    if path in before {
      SpliceAtEnd(before[path], d);
    }
    assert d == d[..|d|];
  }

  // fsd has no truncate verb: shrinking deletes and rewrites, growing appends zeros.
  method Truncate(srv: Fsd.Server, path: string, size: int) returns (errno: Errno)
    requires srv.Valid()
    modifies srv
    ensures srv.Valid()
    ensures size < 0 ==> errno == EIO && srv.files == old(srv.files)
    ensures size >= 0 && path !in old(srv.files) ==> errno == ENOENT && srv.files == old(srv.files)
    ensures 0 <= size <= Fsd.OFFSET_APPEND && path in old(srv.files) &&
            srv.faults == old(srv.faults) && srv.shorts == old(srv.shorts) ==>
              && errno == EOK && srv.files == old(srv.files)[path := Resized(old(srv.files[path]), size)]
              && |srv.files[path]| == size
              && forall i :: 0 <= i < size ==> srv.files[path][i] == if i < |old(srv.files[path])| then old(srv.files[path])[i] else 0
  {
    hide Placed, Splice;
    if size < 0 {
      return EIO;
    }
    ghost var files, f := srv.files, FileIn(srv.files, path);
    var cur := srv.Stat(path);
    if cur < 0 {
      return ENOENT;
    }
    if size == cur {
      assert files == files[path := f] && Resized(f, size) == f;
      return EOK;
    }
    if size == 0 {
      var d := srv.Delete(path);
      ghost var before := srv.files;
      var n, we, kept := WriteAt(srv, path, [], 0);
      Rewritten(srv.files, before, files, path, []);
      return we;
    }
    if size < cur {
      var buf := new byte[size];
      var n, re := ReadAt(srv, path, buf, 0);
      if re != EOK || n != size {
        return EIO;
      }
      var keep := buf[..];
      assert keep == f[..size] == Resized(f, size);
      var d := srv.Delete(path);
      ghost var before := srv.files;
      var m, we, kept := WriteAt(srv, path, keep, 0);
      Rewritten(srv.files, before, files, path, keep);
      return we;
    }
    var pad := Zeros(size - cur);
    var n, we, kept := WriteAt(srv, path, pad, cur);
    Grown(srv.files, files, path, pad);
    return we;
  }
}
