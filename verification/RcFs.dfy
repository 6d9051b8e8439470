// One request to the file server, with the client's buffers and 32-bit fields.
module RcFs {
  import opened Bytes
  import Fsd

  // now[at..at + |d|] is d, everything else is as in `was`.
  ghost predicate Stored(now: seq<byte>, was: seq<byte>, at: nat, d: seq<byte>) {
    at + |d| <= |was| && now == was[..at] + d + was[at + |d|..]
  }

  lemma StoredTwice(was: seq<byte>, at: nat, d: seq<byte>, mid: seq<byte>, e: seq<byte>, now: seq<byte>)
    requires Stored(mid, was, at, d) && Stored(now, mid, at + |d|, e)
    ensures Stored(now, was, at, d + e)
  {
    assert mid[..at + |d|] == was[..at] + d;
    assert mid[at + |d| + |e|..] == was[at + |d| + |e|..];
  }

  lemma StoredNothing(was: seq<byte>, at: nat)
    requires at <= |was|
    ensures Stored(was, was, at, [])
  {
    assert was == was[..at] + [] + was[at + 0..];
  }

  lemma StoredNext(was: seq<byte>, at: nat, d: seq<byte>, mid: seq<byte>, c: byte, now: seq<byte>)
    requires Stored(mid, was, at, d) && at + |d| < |mid| && now == mid[at + |d| := c]
    ensures Stored(now, was, at, d + [c])
  {
    StoredTwice(was, at, d, mid, [c], now);
  }

  method CopyIn(buf: array<byte>, at: nat, d: seq<byte>)
    requires at + |d| <= buf.Length
    modifies buf
    ensures Stored(buf[..], old(buf[..]), at, d)
  {
    forall i | 0 <= i < |d| {
      buf[at + i] := d[i];
    }
  }

  // What a request of k bytes gives lies within what one of n bytes would.
  lemma ShorterSlice(f: seq<byte>, off: nat, k: nat, n: nat, d: seq<byte>)
    requires k <= n && (n > 0 ==> k > 0) && d <= Slice(f, off, k) && (Slice(f, off, k) != [] ==> d != [])
    ensures |d| <= |Slice(f, off, n)| <= n && d == Slice(f, off, n)[..|d|] && (Slice(f, off, n) != [] ==> d != [])
  {}

  // __rc_fs_read_at
  method ReadAt(srv: Fsd.Server, path: string, buf: array<byte>, at: nat, len: nat, off: nat) returns (r: int)
    requires srv.Valid() && at + len <= buf.Length
    modifies srv`faults, srv`shorts, buf
    ensures r == -1 <==> path !in srv.files || srv.faults == old(srv.faults) + 1
    ensures srv.faults == old(srv.faults) || (srv.faults == old(srv.faults) + 1 && path in srv.files)
    ensures r == -1 ==> buf[..] == old(buf[..])
    ensures r != -1 ==>
              var full := Slice(srv.files[path], off % TWO_32, len % TWO_32);
              0 <= r <= |full| && Stored(buf[..], old(buf[..]), at, full[..r]) && (full != [] ==> r > 0)
  {
    hide Slice;
    var res, data := srv.ReadAt(path, len % TWO_32, off % TWO_32);
    if res < 0 {
      return res;
    }
    ShorterSlice(srv.files[path], off % TWO_32, Min(len % TWO_32, Fsd.READ_CHUNK), len % TWO_32, data);
    if res > len {
      res := len;
    }
    CopyIn(buf, at, data);
    return res;
  }

  // __rc_fs_write_at
  method WriteAt(srv: Fsd.Server, path: string, data: seq<byte>, off: nat) returns (r: int)
    requires srv.Valid()
    modifies srv
    ensures srv.Valid() && srv.files.Keys == old(srv.files.Keys) + (if r < 0 then {} else {path})
    ensures forall p :: p in old(srv.files) && p != path ==> srv.files[p] == old(srv.files[p])
    ensures srv.faults == old(srv.faults) || (srv.faults == old(srv.faults) + 1 && r == -1)
    ensures srv.shorts == old(srv.shorts) || srv.shorts == old(srv.shorts) + 1
    ensures r == -1 ==> srv.files == old(srv.files)
    ensures -1 <= r <= Min(|data|, Fsd.WRITE_CHUNK) && (data != [] ==> r != 0)
    ensures srv.files - {path} == old(srv.files) - {path}
    ensures var f := FileIn(old(srv.files), path);
            var at := if off % TWO_32 == Fsd.OFFSET_APPEND then |f| else off % TWO_32;
            && (r == -1 <==> at > |f| || srv.faults == old(srv.faults) + 1)
            && (r != -1 ==> at <= |f| && srv.files[path] == Splice(f, at, data[..r]))
            && (r != -1 && srv.shorts == old(srv.shorts) ==> r == Min(|data|, Fsd.WRITE_CHUNK))
  {
    hide Splice;
    var len := |data|;
    if len > Fsd.WRITE_CHUNK {
      len := Fsd.WRITE_CHUNK;
    }
    r := srv.WriteAt(path, data[..len], off % TWO_32);
    assert r != -1 ==> data[..len][..r] == data[..r];
  }

  // __rc_fs_list: pages until a short one or a full buffer.
  method List(srv: Fsd.Server, path: string, maxEntries: nat) returns (total: int, out: seq<Fsd.Entry>)
    modifies srv`faults
    ensures total == |out| || (total == -1 && out == [])
    ensures total == -1 <==> out == [] && (path !in srv.dirs || srv.faults > old(srv.faults))
    ensures path in srv.dirs ==> out <= srv.dirs[path] && |out| <= maxEntries
    ensures path in srv.dirs && srv.faults == old(srv.faults) ==>
              total == Min(|srv.dirs[path]|, maxEntries) && out == srv.dirs[path][..total]
  {
    out := [];
    while true
      invariant path in srv.dirs ==> out <= srv.dirs[path] && |out| <= maxEntries
      invariant path !in srv.dirs ==> out == []
      invariant srv.faults == old(srv.faults)
      decreases (if path in srv.dirs then |srv.dirs[path]| else 0) - |out|
    {
      var res, page := srv.List(path, |out|);
      if res < 0 {
        return if out != [] then |out| else -1, out;
      }
      var take := res;
      if take > maxEntries - |out| {
        take := maxEntries - |out|;
      }
      out := out + page[..take];
      if res < Fsd.LIST_PAGE || |out| >= maxEntries {
        break;
      }
    }
    return |out|, out;
  }
}
