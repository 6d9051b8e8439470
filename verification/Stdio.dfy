// Buffered streams over the descriptor layer.
module Stdio {
  import opened Bytes
  import Fsd
  import RcFs
  import opened RcPosix

  const BUFSIZ: nat := 4096
  const EOF: int := -1

  datatype Mode = FullBuf | LineBuf | NoBuf

  class Stream {
    const px: Posix
    const ms: bool             // open_memstream(): bytes go to msbuf, not to a descriptor
    const fd: int
    ghost const path: string   // the file it was opened on
    var err: bool
    var eof: bool
    var bufmode: Mode
    var buf: array?<byte>
    var bufcap: nat
    var rpos: nat              // read buffer: buf[rpos..rlen] not yet delivered
    var rlen: nat
    var wlen: nat              // write buffer: buf[..wlen] not yet written
    var pos: int
    var ungot: int
    var msbuf: array<byte>     // *ms_bufp, *ms_sizep
    var mssize: nat
    var mslen: nat
    var mscap: nat
    ghost var base: nat        // where in its file the stream began writing

    // fdopen
    constructor Fdopen(px: Posix, fd: int, tty: bool, ghost path: string, ghost base: nat)
      ensures this.px == px && this.fd == fd && this.path == path && !ms && buf == null
      ensures rpos == rlen == wlen == 0 && pos == 0 && ungot == -1
      ensures fresh(msbuf) && bufmode == (if tty then LineBuf else FullBuf) && this.base == base && !err && !eof
    {
      this.px, this.fd, this.path, ms := px, fd, path, false;
      err, eof := false, false;
      bufmode, buf, bufcap := if tty then LineBuf else FullBuf, null, 0;
      rpos, rlen, wlen, pos, ungot := 0, 0, 0, 0, -1;
      msbuf := new byte[0];
      mssize, mslen, mscap := 0, 0, 0;
      this.base := base;
    }

    constructor OpenMemstream(px: Posix)
      requires px.Valid()
      ensures Writer() && Synced() && ms && Contents() == [] && bufmode == FullBuf && this.px == px && fresh(msbuf) && buf == null
    {
      this.px, fd, path, ms := px, -1, "", true;
      err, eof := false, false;
      bufmode, buf, bufcap := FullBuf, null, 0;
      rpos, rlen, wlen, pos, ungot := 0, 0, 0, 0, -1;
      var b := new byte[1];
      b[0] := 0;
      msbuf := b;
      mssize, mslen, mscap := 0, 0, 1;
      base := 0;
    }

    ghost function Objects(): set<object>
      reads this
    {
      var fixed: set<object> := {this, px, px.srv, px.fdtab, msbuf};
      if buf == null then fixed else var b: array<byte> := buf; fixed + {b}
    }

    // A stream that is only written to, its buffer not full.
    ghost predicate Writer()
      reads this, px, px.srv, px.fdtab, msbuf, buf
    {
      Buffered() && (buf != null ==> wlen < bufcap)
    }

    ghost predicate Buffered()
      reads this, px, px.srv, px.fdtab, msbuf, buf
    {
      && px.Valid() && rpos == rlen == 0 && ungot == -1
      && (buf == null || bufmode == NoBuf ==> wlen == 0)
      && (buf != null ==> buf != msbuf && 0 < bufcap && wlen <= bufcap <= buf.Length)
      && if ms then
           fd == -1 && mslen < mscap <= msbuf.Length && msbuf[mslen] == 0 && mssize == mslen && pos == mslen
         else
           px.IsFile(fd)
    }

    // Its descriptor stands at the end of its file.
    ghost predicate Synced()
      reads this, px, px.srv, px.fdtab
    {
      ms || (px.IsFile(fd) && px.Exists(fd) && px.fdtab[fd].off == |px.FileOf(fd)| == base + pos && px.fdtab[fd].path == path)
    }

    // What has reached the file, or the caller's growing buffer.
    ghost function Out(): seq<byte>
      requires Buffered()
      reads this, px, px.srv, px.fdtab, msbuf, buf
    {
      if ms then msbuf[..mslen] else px.FileOf(fd)
    }

    ghost function Pending(): seq<byte>
      requires Buffered()
      reads this, px, px.srv, px.fdtab, msbuf, buf
    {
      if buf == null then [] else buf[..wlen]
    }

    // Everything written to the stream so far, buffered or not.
    ghost function Contents(): seq<byte>
      requires Buffered()
      reads this, px, px.srv, px.fdtab, msbuf, buf
    {
      Out() + Pending()
    }

    // A line-buffered stream holds back no line that is complete.
    ghost predicate LinesOut()
      requires Buffered()
      reads this, px, px.srv, px.fdtab, msbuf, buf
    {
      bufmode == LineBuf ==> 10 !in Pending()
    }

    // What a call on the stream leaves alone: the other descriptors and files, and the console.
    ghost function Elsewhere(): (seq<FdEnt>, map<string, seq<byte>>, seq<byte>, seq<byte>)
      reads px, px.srv, px.fdtab
    {
      if px.IsFile(fd) then
        (px.fdtab[..][fd := px.fdtab[fd].(off := 0)], px.srv.files - {px.fdtab[fd].path}, px.consoleIn, px.consoleOut)
      else (px.fdtab[..], px.srv.files, px.consoleIn, px.consoleOut)
    }

    method EnsureBuf()
      modifies this`buf, this`bufcap
      ensures buf != null && (old(buf) != null ==> buf == old(buf) && bufcap == old(bufcap))
      ensures old(buf) == null ==> fresh(buf) && bufcap == BUFSIZ == buf.Length
    {
      if buf == null {
        buf := new byte[BUFSIZ];
        bufcap := BUFSIZ;
      }
    }

    // Append to the caller's buffer, doubling it as needed, NUL after the end.
    method MsAppend(src: seq<byte>)
      requires ms && mslen < mscap <= msbuf.Length
      modifies this`msbuf, this`mslen, this`mscap, this`mssize, msbuf
      ensures mslen == mssize == old(mslen) + |src| && mslen < mscap <= msbuf.Length && msbuf[mslen] == 0
      ensures msbuf[..mslen] == old(msbuf[..mslen]) + src
      ensures msbuf == old(msbuf) || fresh(msbuf)
    {
      ghost var was := msbuf[..mslen];
      if mslen + |src| + 1 > mscap {
        var nc := if mscap > 0 then mscap * 2 else 128;
        while nc < mslen + |src| + 1
          invariant nc > 0
          decreases mslen + |src| + 1 - nc
        {
          nc := nc * 2;
        }
        var nb := new byte[nc];
        forall i | 0 <= i < mslen {
          nb[i] := msbuf[i];
        }
        msbuf, mscap := nb, nc;
        assert msbuf[..mslen] == was;
      }
      forall i | 0 <= i < |src| {
        msbuf[mslen + i] := src[i];
      }
      assert msbuf[..mslen] == was;
      assert msbuf[..mslen + |src|] == was + src;
      mslen := mslen + |src|;
      msbuf[mslen] := 0;
      mssize := mslen;
    }

    // Offsets on the wire are 32-bit, and the last one means "append".
    ghost predicate Fits(n: nat)
      requires Buffered()
      reads this, px, px.srv, px.fdtab, msbuf, buf
    {
      Synced() && (ms || |Contents()| + n <= Fsd.OFFSET_APPEND)
    }

    // A descriptor at the end of its file, with room for n more bytes below the
    // 32-bit limit.
    ghost predicate AtEnd(n: nat)
      reads this, px, px.srv, px.fdtab
    {
      px.IsFile(fd) && px.Exists(fd) && px.fdtab[fd].off == |px.FileOf(fd)| && |px.FileOf(fd)| + n <= Fsd.OFFSET_APPEND
    }

    // The descriptor at the end of its file, k bytes of what is pending beyond where the stream
    // takes itself to be.
    ghost predicate Ahead(k: nat)
      reads this, px, px.srv, px.fdtab
    {
      px.IsFile(fd) && px.Exists(fd) && px.fdtab[fd].off == |px.FileOf(fd)| == base + pos + k && px.fdtab[fd].path == path
    }

    // Some, but not all, of what is still pending has reached the file, which held `was`.
    ghost predicate PartSent(was: seq<byte>)
      requires Buffered()
      reads this, px, px.srv, px.fdtab, msbuf, buf
    {
      exists k :: 0 <= k < wlen && Ahead(k) && Out() == was + Pending()[..k]
    }

    // One write after another until all of d is in the file, or one fails.
    method WriteAll(d: seq<byte>) returns (ok: bool, ghost sent: nat)
      requires px.IsFile(fd)
      modifies px.srv, px.fdtab, px`consoleOut
      ensures px.IsFile(fd) && px.srv.faults >= old(px.srv.faults) && Elsewhere() == old(Elsewhere())
      ensures px.srv.shorts >= old(px.srv.shorts) && sent <= |d| && (ok <==> sent == |d|)
      ensures |d| <= Fsd.WRITE_CHUNK && px.srv.faults > old(px.srv.faults) ==> !ok
      ensures |d| <= Fsd.WRITE_CHUNK && px.srv.shorts == old(px.srv.shorts) && old(AtEnd(|d|)) && !ok ==> sent == 0
      ensures old(AtEnd(|d|)) && !ok && sent == 0 ==> px.srv.faults == old(px.srv.faults) + 1
      ensures old(AtEnd(|d|)) ==>
                && (px.srv.faults == old(px.srv.faults) ==> ok)
                && AtEnd(|d| - sent) && px.FileOf(fd) == old(px.FileOf(fd)) + d[..sent] && px.fdtab[fd].path == old(px.fdtab[fd].path)
    {
      var done := 0;
      ghost var f, fits := px.FileOf(fd), AtEnd(|d|);
      while done < |d|
        invariant px.IsFile(fd) && done <= |d| && px.srv.faults >= old(px.srv.faults)
        invariant px.srv.shorts >= old(px.srv.shorts) && Elsewhere() == old(Elsewhere())
        invariant |d| <= Fsd.WRITE_CHUNK ==> px.srv.faults == old(px.srv.faults)
        invariant done == 0 ==> px.srv.faults == old(px.srv.faults)
        invariant fits && |d| <= Fsd.WRITE_CHUNK && px.srv.shorts == old(px.srv.shorts) ==> done == 0 || done == |d|
        invariant fits ==> AtEnd(|d| - done) && px.FileOf(fd) == f + d[..done] && px.fdtab[fd].path == old(px.fdtab[fd].path)
      {
        ghost var g, tab, files := px.FileOf(fd), px.fdtab[..], px.srv.files;
        var w := px.Write(fd, d[done..]);
        ghost var n := if w < 0 then 0 else w;
        OtherEntries(tab, px.fdtab[..], fd);
        assert px.fdtab[..][fd] == px.fdtab[fd];
        if fits {
          AppendPlaced(px.fdtab[..], px.srv.files, fd, tab, files, d[done..], n);
          SentMore(g, f, d, done, n);
        }
        if w <= 0 {
          return false, done;
        }
        done := done + w;
      }
      assert d[..done] == d;
      return true, done;
    }

    method FlushMemory()
      requires Buffered() && ms && wlen > 0
      modifies this`msbuf, this`mslen, this`mscap, this`mssize, this`pos, this`wlen, msbuf
      ensures Buffered() && wlen == 0 && Contents() == Out() == old(Contents())
      ensures msbuf == old(msbuf) || fresh(msbuf)
    {
      MsAppend(buf[..wlen]);
      pos := pos + wlen;
      wlen := 0;
    }

    // Every byte still waiting is written, or a failed write leaves the buffer as full as it was,
    // whatever of it has reached the file: the next flush sends all of it.
    method FlushWrite() returns (r: int)
      requires Buffered()
      modifies Objects()
      ensures px.Valid() && fresh(Objects() - old(Objects())) && bufmode == old(bufmode) && base == old(base)
      ensures Elsewhere() == old(Elsewhere())
      ensures msbuf == old(msbuf) || fresh(msbuf)
      ensures px.srv.faults >= old(px.srv.faults)
      ensures (r == EOF ==> err) && (r == 0 || r == EOF) && (r == 0 ==> Writer() && wlen == 0)
      ensures Buffered() && buf == old(buf) && bufcap == old(bufcap)
      ensures old(wlen) == 0 ==> r == 0 && err == old(err) && px.srv.faults == old(px.srv.faults)
      ensures r == EOF ==> !ms && wlen == old(wlen) > 0 && Pending() == old(Pending())
      ensures r == EOF && old(Fits(0)) ==> PartSent(old(Out()))
      ensures r == EOF && old(Fits(0)) && old(wlen) <= Fsd.WRITE_CHUNK && px.srv.shorts == old(px.srv.shorts) ==>
                Synced() && Out() == old(Out())
      ensures r == EOF && old(Fits(0)) && px.srv.faults > old(px.srv.faults) + 1 ==> Out() != old(Out())
      ensures old(!ms && AtEnd(wlen)) && px.srv.faults == old(px.srv.faults) ==>
                r == 0 && AtEnd(0) && wlen == 0 && Out() == old(Out() + Pending()) && px.fdtab[fd].path == old(px.fdtab[fd].path)
      ensures px.srv.shorts >= old(px.srv.shorts)
      ensures old(wlen) <= Fsd.WRITE_CHUNK && px.srv.faults > old(px.srv.faults) ==> r == EOF
      ensures old(Fits(0)) && px.srv.faults == old(px.srv.faults) ==>
                && r == 0 && err == old(err) && Writer() && Synced() && wlen == 0
                && Contents() == Out() == old(Contents()) && buf == old(buf) && bufcap == old(bufcap)
    {
      hide Elsewhere, LinesOut;
      if wlen == 0 {
        return 0;
      }
      if ms {
        FlushMemory();
        return 0;
      }
      ghost var all, out, fits := Contents(), Out(), Fits(0);
      var ok;
      ghost var sent;
      ok, sent := WriteAll(buf[..wlen]);
      if !ok {
        err := true;
        if fits {
          assert Ahead(sent) && Out() == out + Pending()[..sent];
        }
        return EOF;
      }
      assert buf[..wlen][..wlen] == buf[..wlen];
      pos := pos + wlen;
      wlen := 0;
      return 0;
    }

    // Unbuffered output to a memory stream goes to descriptor -1 and fails.
    ghost predicate Writable()
      reads this
    {
      !(ms && bufmode == NoBuf)
    }

    lemma MemorySynced()
      requires !Writable()
      ensures Synced()
    {
    }

    // fputc on a stream that is only written to: there is no read buffer to drop. When the
    // flush of a full buffer fails the buffer stays full, and the next call has no room.
    method Fputc(c: byte) returns (r: int)
      requires Writer()
      modifies Objects()
      ensures px.Valid() && fresh(Objects() - old(Objects())) && bufmode == old(bufmode) && base == old(base)
      ensures Elsewhere() == old(Elsewhere())
      ensures msbuf == old(msbuf) || fresh(msbuf)
      ensures px.srv.faults >= old(px.srv.faults)
      ensures r == EOF || r == c as int
      ensures if r == EOF then err else Writer()
      ensures Buffered() && (old(buf) != null ==> buf == old(buf) && bufcap == old(bufcap))
      ensures old(buf) == null && bufmode != NoBuf ==> buf != null && bufcap == BUFSIZ
      ensures Writer() <==> r != EOF || bufmode == NoBuf || old(wlen) + 1 < bufcap
      ensures r == EOF && bufmode != NoBuf ==> Pending() == old(Pending()) + [c]
      ensures r == EOF && bufmode != NoBuf && old(Fits(1)) ==> PartSent(old(Out()))
      ensures bufmode != NoBuf && r != EOF ==>
                wlen == if old(wlen) + 1 == bufcap || (bufmode == LineBuf && c == 10) then 0 else old(wlen) + 1
      ensures bufmode == LineBuf && c == 10 && old(Fits(1)) && px.srv.faults == old(px.srv.faults) ==>
                wlen == 0 && Out() == old(Contents()) + [c]
      ensures r != EOF && old(LinesOut()) ==> LinesOut()
      ensures old(wlen) < Fsd.WRITE_CHUNK && px.srv.faults > old(px.srv.faults) ==> r == EOF
      ensures old(Fits(1)) && old(Writable()) && px.srv.faults == old(px.srv.faults) ==>
                r == c as int && err == old(err) && Synced() && Contents() == old(Contents()) + [c]
      ensures !old(Writable()) ==> r == EOF && Writer() && Synced() && Contents() == old(Contents())
    {
      if bufmode == NoBuf {
        r := PutDirect(c);
      } else {
        Store(c);
        r := c as int;
        if wlen == bufcap || (bufmode == LineBuf && c == 10) {
          var f := FlushWrite();
          if f == EOF {
            r := EOF;
          }
        }
      }
    }

    method Store(c: byte)
      requires Writer() && bufmode != NoBuf
      modifies this`buf, this`bufcap, this`wlen, buf
      ensures Buffered() && Contents() == old(Contents()) + [c] && fresh(Objects() - old(Objects()))
      ensures buf != null && wlen == old(wlen) + 1 && Pending() == old(Pending()) + [c]
      ensures if old(buf) == null then bufcap == BUFSIZ else buf == old(buf) && bufcap == old(bufcap)
    {
      ghost var out := Out();
      EnsureBuf();
      buf[wlen] := c;
      wlen := wlen + 1;
      assert Out() == out;
    }

    method PutDirect(c: byte) returns (r: int)
      requires Writer() && bufmode == NoBuf
      modifies this`err, this`pos, px.srv, px.fdtab, px`consoleOut
      ensures px.Valid() && px.srv.faults >= old(px.srv.faults) && Elsewhere() == old(Elsewhere())
      ensures r == EOF || r == c as int
      ensures Writer() && (r == EOF ==> err) && (px.srv.faults > old(px.srv.faults) ==> r == EOF)
      ensures old(Fits(1)) && !ms && px.srv.faults == old(px.srv.faults) ==>
                r == c as int && err == old(err) && Synced() && Contents() == old(Contents()) + [c]
      ensures ms ==> r == EOF && Writer() && Synced() && Contents() == old(Contents())
    {
      ghost var fits := !ms && AtEnd(1);
      ghost var tab, files := px.fdtab[..], px.srv.files;
      var w := px.Write(fd, [c]);
      if 0 <= fd < FD_MAX {
        OtherEntries(tab, px.fdtab[..], fd);
        assert px.fdtab[..][fd] == px.fdtab[fd];
      }
      if w != 1 {
        err := true;
        return EOF;
      }
      pos := pos + 1;
      if fits {
        AppendPlaced(px.fdtab[..], px.srv.files, fd, tab, files, [c], 1);
        assert px.fdtab[..][fd] == px.fdtab[fd];
        assert [c][..1] == [c];
      }
      return c as int;
    }

    method Fputs(s: seq<byte>) returns (r: int)
      requires Writer()
      modifies Objects()
      ensures px.Valid() && fresh(Objects() - old(Objects())) && bufmode == old(bufmode) && base == old(base)
      ensures Elsewhere() == old(Elsewhere())
      ensures msbuf == old(msbuf) || fresh(msbuf)
      ensures px.srv.faults >= old(px.srv.faults) && (r == 0 || r == EOF) && Buffered() && (r == 0 ==> Writer())
      ensures r == 0 && old(LinesOut()) ==> LinesOut()
      ensures r == 0 && bufmode == FullBuf && old(buf) != null && old(wlen) + |s| < old(bufcap) ==>
                buf == old(buf) && bufcap == old(bufcap) && wlen == old(wlen) + |s|
      ensures old(Fits(|s|)) && old(Writable()) && px.srv.faults == old(px.srv.faults) ==>
                r == 0 && err == old(err) && Writer() && Synced() && Contents() == old(Contents()) + s
      ensures !old(Writable()) && s != [] ==> r == EOF && Writer() && Synced() && Contents() == old(Contents())
    {
      var put := PutBytes(s);
      r := if put < |s| then EOF else 0;
      assert s[..|s|] == s;
    }

    // The loop of fputs and fwrite: fputc until one fails.
    method PutBytes(s: seq<byte>) returns (put: nat)
      requires Writer()
      modifies Objects()
      ensures px.Valid() && fresh(Objects() - old(Objects())) && bufmode == old(bufmode) && base == old(base)
      ensures Elsewhere() == old(Elsewhere())
      ensures msbuf == old(msbuf) || fresh(msbuf)
      ensures px.srv.faults >= old(px.srv.faults) && put <= |s| && Buffered() && (put == |s| ==> Writer())
      ensures put == |s| && old(LinesOut()) ==> LinesOut()
      ensures put == |s| && bufmode == FullBuf && old(buf) != null && old(wlen) + |s| < old(bufcap) ==>
                buf == old(buf) && bufcap == old(bufcap) && wlen == old(wlen) + |s|
      ensures old(Fits(|s|)) && old(Writable()) && px.srv.faults == old(px.srv.faults) ==>
                put == |s| && err == old(err) && Synced() && Contents() == old(Contents()) + s
      ensures !old(Writable()) ==> put == 0 && Writer() && Synced() && Contents() == old(Contents())
    {
      hide PartSent, Ahead, AtEnd, Pending, Out, Contents, Synced, LinesOut, Elsewhere;
      put := 0;
      ghost var fits, all, stuck := Fits(|s|) && Writable(), Contents(), !Writable();
      if stuck { MemorySynced(); }
      assert all + s[..0] == all;
      while put < |s|
        invariant put <= |s| && px.Valid() && Elsewhere() == old(Elsewhere()) && px.srv.faults >= old(px.srv.faults)
        invariant fresh(Objects() - old(Objects())) && bufmode == old(bufmode) && base == old(base)
        invariant Writer() && (msbuf == old(msbuf) || fresh(msbuf))
        invariant old(buf) != null ==> buf == old(buf) && bufcap == old(bufcap)
        invariant bufmode == FullBuf && old(buf) != null && old(wlen) + |s| < old(bufcap) ==> wlen == old(wlen) + put
        invariant fits && px.srv.faults == old(px.srv.faults) ==>
                    err == old(err) && Contents() == all + s[..put] && Fits(|s| - put) && Writable()
        invariant stuck ==> put == 0 && Contents() == all && !Writable() && Synced()
        invariant old(LinesOut()) ==> LinesOut()
      {
        var r := Fputc(s[put]);
        if r == EOF {
          break;
        }
        assert all + s[..put] + [s[put]] == all + s[..put + 1];
        put := put + 1;
      }
      assert s[..|s|] == s;
    }

    method Fwrite(data: seq<byte>, size: nat, nmemb: nat) returns (items: nat)
      requires Writer() && size * nmemb <= |data|
      modifies Objects()
      ensures px.Valid() && fresh(Objects() - old(Objects())) && bufmode == old(bufmode) && base == old(base)
      ensures Elsewhere() == old(Elsewhere())
      ensures msbuf == old(msbuf) || fresh(msbuf)
      ensures px.srv.faults >= old(px.srv.faults) && items <= nmemb && Buffered() && (size > 0 && items == nmemb ==> Writer())
      ensures items == nmemb && old(LinesOut()) ==> LinesOut()
      ensures size == 0 || nmemb == 0 ==> items == 0 && Writer() && Contents() == old(Contents()) && Synced() == old(Synced())
      ensures size > 0 && old(Fits(size * nmemb)) && old(Writable()) && px.srv.faults == old(px.srv.faults) ==>
                items == nmemb && err == old(err) && Writer() && Synced() && Contents() == old(Contents()) + data[..size * nmemb]
      ensures size > 0 && !old(Writable()) ==> items == 0 && Writer() && Synced() && Contents() == old(Contents())
    {
      if size == 0 || nmemb == 0 {
        return 0;
      }
      var total := size * nmemb;
      var put := PutBytes(data[..total]);
      WholeItems(put, size, nmemb);
      return put / size;
    }

    // fflush. After one that failed it sends everything pending once more.
    method Fflush() returns (r: int)
      requires Buffered()
      modifies Objects()
      ensures px.Valid() && fresh(Objects() - old(Objects())) && bufmode == old(bufmode) && base == old(base)
      ensures Elsewhere() == old(Elsewhere())
      ensures msbuf == old(msbuf) || fresh(msbuf)
      ensures px.srv.faults >= old(px.srv.faults) && (r == 0 || r == EOF) && if r == EOF then err else Writer() && wlen == 0
      ensures Buffered() && buf == old(buf) && bufcap == old(bufcap) && (r == EOF ==> wlen == old(wlen) > 0 && Pending() == old(Pending()))
      ensures r == EOF && old(Fits(0)) ==> PartSent(old(Out()))
      ensures r == EOF && old(Fits(0)) && old(wlen) <= Fsd.WRITE_CHUNK && px.srv.shorts == old(px.srv.shorts) ==>
                Synced() && Out() == old(Out())
      ensures r == EOF && old(Fits(0)) && px.srv.faults > old(px.srv.faults) + 1 ==> Out() != old(Out())
      ensures old(!ms && AtEnd(wlen)) && px.srv.faults == old(px.srv.faults) ==>
                r == 0 && AtEnd(0) && Out() == old(Out() + Pending())
      ensures px.srv.shorts >= old(px.srv.shorts)
      ensures old(Fits(0)) && px.srv.faults == old(px.srv.faults) ==>
                r == 0 && err == old(err) && wlen == 0 && Writer() && Synced() && Contents() == Out() == old(Contents())
    {
      r := FlushWrite();
    }

    // The caller's buffer, if any, must hold what it is said to hold.
    method Setvbuf(own: array?<byte>, mode: Mode, size: nat) returns (r: int)
      requires Buffered()
      requires own != null ==> own != msbuf && (if size == 0 then BUFSIZ else size) <= own.Length
      modifies Objects()
      ensures px.Valid() && fresh(Objects() - old(Objects()) - (if own == null then {} else {own})) && base == old(base)
      ensures Elsewhere() == old(Elsewhere())
      ensures msbuf == old(msbuf) || fresh(msbuf)
      ensures px.srv.faults >= old(px.srv.faults) && r == 0 && bufmode == mode
      ensures buf == own && (own != null ==> bufcap == if size == 0 then BUFSIZ else size)
      ensures old(Fits(0)) && px.srv.faults == old(px.srv.faults) ==>
                err == old(err) && Writer() && Synced() && Contents() == Out() == old(Contents())
      ensures !err || old(wlen) == 0 ==> Writer()
      ensures old(wlen) == 0 ==> err == old(err) && wlen == 0 && px.srv.faults == old(px.srv.faults)
    {
      hide Elsewhere, PartSent, Ahead, AtEnd, LinesOut, Pending, Out, Contents, Synced, Fits;
      var f := FlushWrite();
      UseBuffer(own, mode, size);
      return 0;
    }

    method UseBuffer(own: array?<byte>, mode: Mode, size: nat)
      requires Buffered() && (own != null ==> own != msbuf && (if size == 0 then BUFSIZ else size) <= own.Length)
      modifies this`buf, this`bufcap, this`bufmode
      ensures buf == own && bufmode == mode && (own != null ==> bufcap == if size == 0 then BUFSIZ else size)
      ensures Elsewhere() == old(Elsewhere()) && Objects() <= old(Objects()) + (if own == null then {} else {own})
      ensures wlen == 0 ==> Writer() && Contents() == Out() == old(Out()) && Synced() == old(Synced())
    {
      hide Elsewhere;
      buf := own;
      bufcap := if size > 0 then size else BUFSIZ;
      bufmode := mode;
    }

    method Ftell() returns (r: int)
      requires Writer() || Reader()
      ensures Writer() && Synced() ==> r == |Contents()| - if ms then 0 else base
      ensures Reader() && ungot < 0 ==> r == pos + rpos
    {
      if wlen > 0 {
        return pos + wlen;
      }
      return pos + rpos;
    }

    // A stream that is only read from: the buffer is a window of the file and the
    // descriptor stands at its end.
    ghost predicate Reader()
      reads this, px, px.srv, px.fdtab, buf
    {
      && px.IsFile(fd) && px.Exists(fd) && px.fdtab[fd].path == path && !ms && wlen == 0 && 0 <= pos && -1 <= ungot < 256
      && rpos <= rlen && px.fdtab[fd].off == pos + rlen < TWO_32
      && (buf == null ==> rlen == 0)
      && (buf != null ==> 0 < bufcap < TWO_32 && rlen <= bufcap <= buf.Length)
      && (rlen > 0 ==> pos + rlen <= |px.FileOf(fd)| && buf[..rlen] == px.FileOf(fd)[pos..pos + rlen])
    }

    ghost function File(): seq<byte>
      requires Reader()
      reads this, px, px.srv, px.fdtab, buf
    {
      px.FileOf(fd)
    }

    // What is still to be read, a pushed-back byte first.
    ghost function Rest(): seq<byte>
      requires Reader()
      reads this, px, px.srv, px.fdtab, buf
    {
      (if ungot >= 0 then [ungot as byte] else []) + From(File(), pos + rpos)
    }

    // read() into the whole buffer.
    method ReadBuffer() returns (n: int)
      requires px.IsFile(fd) && px.Exists(fd) && px.fdtab[fd].off < TWO_32
      requires buf != null && 0 < bufcap < TWO_32 && bufcap <= buf.Length
      modifies px.srv`faults, px.srv`shorts, px.fdtab, px`consoleIn, buf
      ensures px.IsFile(fd) && px.Exists(fd) && px.FileOf(fd) == old(px.FileOf(fd)) && px.fdtab[fd].path == old(px.fdtab[fd].path)
      ensures Elsewhere() == old(Elsewhere())
      ensures px.srv.faults >= old(px.srv.faults) && -1 <= n <= bufcap
      ensures px.fdtab[fd].off == old(px.fdtab[fd].off) + (if n < 0 then 0 else n) < TWO_32
      ensures n > 0 ==> var off := old(px.fdtab[fd].off);
                        off + n <= |px.FileOf(fd)| && buf[..n] == px.FileOf(fd)[off..off + n]
      ensures n <= 0 && px.srv.faults == old(px.srv.faults) ==> n == 0 && old(px.fdtab[fd].off) >= |px.FileOf(fd)|
    {
      ghost var f, off, was := px.FileOf(fd), px.fdtab[fd].off, buf[..];
      hide ReadSpan, Slice, RcFs.Stored;
      ghost var tab := px.fdtab[..];
      n := px.Read(fd, buf, 0, bufcap);
      OtherEntries(tab, px.fdtab[..], fd);
      ReadWindow(f, off, bufcap, n, was, buf[..]);
      assert px.fdtab[..][fd] == px.fdtab[fd];
    }

    // A buffer, and nothing in it: the window moved to where the descriptor stands.
    method Emptied()
      requires Reader() && rpos == rlen
      modifies this`buf, this`bufcap, this`pos, this`rpos, this`rlen
      ensures Reader() && fresh(Objects() - old(Objects())) && rpos == rlen == 0 && buf != null && pos == old(pos + rpos)
      ensures buf == old(buf) || fresh(buf)
    {
      EnsureBuf();
      pos := pos + rlen;
      rpos, rlen := 0, 0;
    }

    // The next buffer-full.
    method Refill() returns (r: int)
      requires Reader() && rpos == rlen
      modifies this`buf, this`bufcap, this`pos, this`rpos, this`rlen, this`eof, this`err, px.srv`faults, px.srv`shorts, px.fdtab,
               px`consoleIn, buf
      ensures Reader() && fresh(Objects() - old(Objects())) && File() == old(File()) && Elsewhere() == old(Elsewhere())
      ensures pos + rpos == old(pos + rpos) && (r == 0 || r == EOF)
      ensures px.srv.faults >= old(px.srv.faults)
      ensures r == 0 ==> rpos < rlen
      ensures r == EOF ==> rpos == rlen && (err || eof)
      ensures r == EOF && px.srv.faults == old(px.srv.faults) ==> pos + rpos >= |px.FileOf(fd)| && eof
    {
      Emptied();
      var n := ReadBuffer();
      if n <= 0 {
        if n == 0 { eof := true; } else { err := true; }
        return EOF;
      }
      rlen := n;
      return 0;
    }

    method Fgetc() returns (r: int)
      requires Reader()
      modifies this`ungot, this`buf, this`bufcap, this`pos, this`rpos, this`rlen, this`eof, this`err, px.srv`faults, px.srv`shorts,
               px.fdtab, px`consoleIn, buf
      ensures Reader() && fresh(Objects() - old(Objects())) && File() == old(File()) && Elsewhere() == old(Elsewhere())
      ensures px.srv.faults >= old(px.srv.faults) && -1 <= r < 256
      ensures r != EOF ==> old(Rest()) != [] && r == old(Rest())[0] as int && Rest() == old(Rest())[1..]
      ensures r == EOF ==> Rest() == old(Rest()) && (err || eof) && ungot < 0
      ensures r == EOF && px.srv.faults == old(px.srv.faults) ==> Rest() == [] && eof
    {
      hide Elsewhere, Slice, LineLen;
      if ungot >= 0 {
        r := PushedBack();
        return;
      }
      if rpos >= rlen {
        var f := Refill();
        if f == EOF {
          return EOF;
        }
      }
      r := NextByte();
    }

    method PushedBack() returns (r: int)
      requires Reader() && ungot >= 0
      modifies this`ungot
      ensures Reader() && 0 <= r < 256 && Rest() == old(Rest())[1..] && ungot < 0
      ensures old(Rest()) != [] && r == old(Rest())[0] as int
    {
      r := ungot;
      ungot := -1;
    }

    method NextByte() returns (r: int)
      requires Reader() && rpos < rlen && ungot < 0
      modifies this`rpos
      ensures Reader() && 0 <= r < 256 && Rest() == old(Rest())[1..]
      ensures old(Rest()) != [] && r == old(Rest())[0] as int
    {
      assert buf[..rlen][rpos] == px.FileOf(fd)[pos + rpos];
      r := buf[rpos] as int;
      rpos := rpos + 1;
    }

    method Ungetc(c: int) returns (r: int)
      requires Reader() && -1 <= c < 256
      modifies this`ungot, this`eof
      ensures Reader() && File() == old(File())
      ensures c == EOF || old(ungot) >= 0 ==> r == EOF && Rest() == old(Rest()) && eof == old(eof)
      ensures c != EOF && old(ungot) < 0 ==> r == c && Rest() == [c as byte] + old(Rest()) && !eof
    {
      hide Elsewhere, LineLen, Slice, Splice, Objects;
      if c == EOF || ungot >= 0 {
        return EOF;
      }
      ungot := c;
      eof := false;
      return c;
    }

    method Fread(dst: array<byte>, size: nat, nmemb: nat) returns (items: nat, ghost got: nat)
      requires Reader() && dst !in Objects() && size * nmemb <= dst.Length
      modifies Objects(), dst
      ensures Reader() && fresh(Objects() - old(Objects())) && File() == old(File()) && Elsewhere() == old(Elsewhere())
      ensures px.srv.faults >= old(px.srv.faults)
      ensures got <= |old(Rest())| && got <= size * nmemb && dst[..got] == old(Rest())[..got] && Rest() == old(Rest())[got..]
      ensures items == if size == 0 then 0 else got / size
      ensures px.srv.faults == old(px.srv.faults) ==> got == Min(size * nmemb, |old(Rest())|)
    {
      hide Reader, Rest, File, LineLen, Elsewhere;
      got := 0;
      if size == 0 || nmemb == 0 {
        return 0, 0;
      }
      var total := size * nmemb;
      ghost var rest := Rest();
      var n := 0;
      while n < total
        invariant Reader() && fresh(Objects() - old(Objects())) && dst !in Objects() && File() == old(File()) && Elsewhere() == old(Elsewhere())
        invariant px.srv.faults >= old(px.srv.faults)
        invariant n <= |rest| && n <= total && dst[..n] == rest[..n] && Rest() == rest[n..]
      {
        var c := Fgetc();
        if c == EOF {
          break;
        }
        dst[n] := c as byte;
        assert rest[..n + 1] == rest[..n] + [rest[n]];
        n := n + 1;
      }
      return n / size, n;
    }

    // A line, or what fits of it, NUL-terminated; false at the end of the file.
    method Fgets(s: array<byte>, n: int) returns (ok: bool, ghost len: nat)
      requires Reader() && s !in Objects() && n <= s.Length
      modifies Objects(), s
      ensures Reader() && fresh(Objects() - old(Objects())) && File() == old(File()) && Elsewhere() == old(Elsewhere())
      ensures px.srv.faults >= old(px.srv.faults)
      ensures len <= |old(Rest())| && Rest() == old(Rest())[len..]
      ensures ok ==> len < n && s[..len] == old(Rest())[..len] && s[len] == 0
      ensures px.srv.faults == old(px.srv.faults) ==>
                && len == LineLen(old(Rest()), if n <= 0 then 0 else n - 1, 10)
                && (ok <==> n > 0 && (n == 1 || len > 0))
    {
      hide Reader, Rest, File, LineLen, LineRead, Elsewhere;
      ghost var rest := Rest();
      if n <= 0 {
        LineNone(rest, 0, 10);
        return false, 0;
      }
      ghost var max := n - 1;
      var i := 0;
      NothingRead(s[..], rest, max, 10);
      while i < n - 1
        invariant Reader() && fresh(Objects() - old(Objects())) && s !in Objects() && File() == old(File()) && Elsewhere() == old(Elsewhere())
        invariant px.srv.faults >= old(px.srv.faults)
        invariant i <= |rest| && i < n && LineRead(s[..], i, rest, max, 10) && Rest() == rest[i..]
      {
        var c := StoreByte(s, i, rest, max);
        if c == EOF {
          LineEnds(s[..], i, rest, max, 10);
          if i == 0 {
            return false, 0;
          }
          s[i] := 0;
          return true, i;
        }
        i := i + 1;
        if c == 10 {
          s[i] := 0;
          return true, i;
        }
      }
      LineEnds(s[..], i, rest, max, 10);
      s[i] := 0;
      return true, i;
    }

    // One trip of its loop: the next byte, in the caller's array.
    method StoreByte(s: array<byte>, i: nat, ghost rest: seq<byte>, ghost max: nat) returns (c: int)
      requires Reader() && s !in Objects() && i < max < s.Length
      requires i <= |rest| && Rest() == rest[i..] && LineRead(s[..], i, rest, max, 10)
      modifies Objects(), s
      ensures Reader() && fresh(Objects() - old(Objects())) && File() == old(File()) && px.srv.faults >= old(px.srv.faults)
      ensures Elsewhere() == old(Elsewhere())
      ensures c == EOF ==> LineRead(s[..], i, rest, max, 10) && Rest() == rest[i..]
      ensures c == EOF && px.srv.faults == old(px.srv.faults) ==> rest[i..] == []
      ensures c != EOF ==> i < |rest| && Rest() == rest[i + 1..]
      ensures c == 10 ==> LineLen(rest, max, 10) == i + 1 && s[..i + 1] == rest[..i + 1]
      ensures c != 10 && c != EOF ==> LineRead(s[..], i + 1, rest, max, 10)
    {
      hide Reader, Rest, File, LineLen, LineRead, Elsewhere;
      c := Fgetc();
      if c != EOF {
        ghost var was := s[..];
        s[i] := c as byte;
        OneMoreRead(s[..], was, i, rest, max, 10);
      }
    }

    // One more byte of a line, the buffer doubled if the NUL would no longer fit.
    static method PutLine(line0: array<byte>, n0: nat, k: nat, c: byte) returns (line: array<byte>, n: nat)
      requires k < n0 <= line0.Length
      modifies line0
      ensures (line == line0 || fresh(line)) && k + 1 < n <= line.Length && line[..k + 1] == old(line0[..k]) + [c]
    {
      line, n := line0, n0;
      if k + 2 > n {
        line, n := new byte[n * 2], n * 2;
        forall i | 0 <= i < k {
          line[i] := line0[i];
        }
        assert line[..k] == line0[..k];
      }
      line[k] := c;
    }

    // A line of any length, delimiter included, in a buffer that doubles; -1 at
    // the end of the file.
    method Getdelim(line0: array?<byte>, n0: nat, delim: int) returns (line: array<byte>, n: nat, len: int)
      requires Reader() && (line0 != null ==> line0 !in Objects() && n0 <= line0.Length)
      modifies Objects(), line0
      ensures Reader() && fresh(Objects() - old(Objects())) && File() == old(File()) && Elsewhere() == old(Elsewhere())
      ensures px.srv.faults >= old(px.srv.faults) && (line == line0 || fresh(line)) && n <= line.Length && line !in Objects()
      ensures len == -1 ==> Rest() == old(Rest()) && (px.srv.faults == old(px.srv.faults) ==> Rest() == [])
      ensures len != -1 ==> 0 < len < n && len <= |old(Rest())| && line[..len] == old(Rest())[..len] && line[len] == 0
                            && Rest() == old(Rest())[len..]
      ensures len != -1 && px.srv.faults == old(px.srv.faults) ==> len == LineLen(old(Rest()), |old(Rest())|, delim)
    {
      hide Reader, Rest, File, LineLen, LineRead, Elsewhere;
      line, n := LineBuffer(line0, n0);
      var k;
      line, n, k := LineBytes(line, n, delim);
      if k == 0 {
        return line, n, -1;
      }
      line[k] := 0;
      return line, n, k;
    }

    // One trip of its loop: the next byte, in the buffer.
    method LineByte(line0: array<byte>, n0: nat, k: nat, delim: int, ghost rest: seq<byte>) returns (line: array<byte>, n: nat, c: int)
      requires Reader() && line0 !in Objects() && k < n0 <= line0.Length
      requires k <= |rest| && Rest() == rest[k..] && LineRead(line0[..], k, rest, |rest|, delim)
      modifies Objects(), line0
      ensures Reader() && fresh(Objects() - old(Objects())) && File() == old(File()) && Elsewhere() == old(Elsewhere())
      ensures px.srv.faults >= old(px.srv.faults) && (line == line0 || fresh(line)) && line !in Objects() && k < n <= line.Length
      ensures c == EOF ==> LineRead(line[..], k, rest, |rest|, delim) && Rest() == rest[k..]
      ensures c == EOF && px.srv.faults == old(px.srv.faults) ==> rest[k..] == []
      ensures c != EOF ==> k < |rest| && k + 1 < n && Rest() == rest[k + 1..]
      ensures c == delim && c != EOF ==> LineLen(rest, |rest|, delim) == k + 1 && line[..k + 1] == rest[..k + 1]
      ensures c != delim && c != EOF ==> LineRead(line[..], k + 1, rest, |rest|, delim)
    {
      hide Reader, Rest, File, LineLen, LineRead, Elsewhere;
      line, n := line0, n0;
      c := Fgetc();
      if c != EOF {
        ghost var was := line[..];
        line, n := PutLine(line, n, k, c as byte);
        OneMoreRead(line[..], was, k, rest, |rest|, delim);
      }
    }

    // Bytes stored up to a delimiter or the end of the file.
    method LineBytes(line0: array<byte>, n0: nat, delim: int) returns (line: array<byte>, n: nat, k: nat)
      requires Reader() && line0 !in Objects() && 0 < n0 <= line0.Length
      modifies Objects(), line0
      ensures Reader() && fresh(Objects() - old(Objects())) && File() == old(File()) && Elsewhere() == old(Elsewhere())
      ensures px.srv.faults >= old(px.srv.faults) && (line == line0 || fresh(line)) && k < n <= line.Length && line !in Objects()
      ensures k <= |old(Rest())| && line[..k] == old(Rest())[..k] && Rest() == old(Rest())[k..]
      ensures px.srv.faults == old(px.srv.faults) ==> if k == 0 then Rest() == [] else k == LineLen(old(Rest()), |old(Rest())|, delim)
    {
      hide Reader, Rest, File, LineLen, LineRead, Elsewhere;
      line, n := line0, n0;
      ghost var rest := Rest();
      k := 0;
      NothingRead(line[..], rest, |rest|, delim);
      while true
        invariant Reader() && fresh(Objects() - old(Objects())) && File() == old(File()) && Elsewhere() == old(Elsewhere())
        invariant line !in Objects() && (line == line0 || fresh(line)) && k < n <= line.Length && k <= |rest|
        invariant px.srv.faults >= old(px.srv.faults)
        invariant LineRead(line[..], k, rest, |rest|, delim) && Rest() == rest[k..]
        decreases |rest| - k
      {
        var c;
        line, n, c := LineByte(line, n, k, delim, rest);
        if c == EOF {
          LineEnds(line[..], k, rest, |rest|, delim);
          return;
        }
        k := k + 1;
        if c == delim {
          return;
        }
      }
    }

    // A line buffer to start with: the caller's, if it has one.
    method LineBuffer(line0: array?<byte>, n0: nat) returns (line: array<byte>, n: nat)
      requires line0 != null ==> n0 <= line0.Length
      ensures 0 < n <= line.Length && (line == line0 || fresh(line))
    {
      if line0 == null || n0 == 0 {
        n := 128;
        line := new byte[128];
      } else {
        line, n := line0, n0;
      }
    }

    // fseek(SEEK_SET) on a stream that is only read from.
    method SeekTo(off: int) returns (r: int)
      requires Reader() && off < TWO_32
      modifies this`ungot, this`rpos, this`rlen, this`pos, this`eof, px.srv`faults, px.fdtab
      ensures px.srv.faults >= old(px.srv.faults)
      ensures off >= 0 ==>
                r == 0 && Reader() && File() == old(File()) && Elsewhere() == old(Elsewhere()) && Rest() == From(File(), off) && !eof && ungot < 0 && pos + rpos == off
      ensures off < 0 ==> r == -1
    {
      ungot := -1;
      rpos, rlen := 0, 0;
      ghost var tab := px.fdtab[..];
      var np := px.Lseek(fd, off, SeekSet);
      OtherEntries(tab, px.fdtab[..], fd);
      assert px.fdtab[..][fd] == px.fdtab[fd];
      if np < 0 {
        return -1;
      }
      pos := np;
      eof := false;
      return 0;
    }

    // fclose of a stream that was written to.
    method Fclose() returns (r: int)
      requires Writer()
      modifies Objects()
      ensures px.Valid() && px.srv.faults >= old(px.srv.faults)
      ensures old(px.IsFile(fd)) ==>
                && px.fdtab[..] == old(px.fdtab[..])[fd := px.fdtab[fd]]
                && px.srv.files - {old(px.fdtab[fd].path)} == old(px.srv.files) - {old(px.fdtab[fd].path)}
                && px.consoleIn == old(px.consoleIn) && px.consoleOut == old(px.consoleOut)
      ensures old(Fits(0)) && !ms && fd > 2 && px.srv.faults == old(px.srv.faults) ==>
                && r == 0 && FileIn(px.srv.files, path) == old(Contents())
                && path in px.srv.files && fd < FD_MAX && px.fdtab[fd].kind == Free
      ensures old(Fits(0)) && ms && px.srv.faults == old(px.srv.faults) ==> r == 0 && Writer() && Contents() == Out() == old(Contents())
    {
      ghost var was := px.fdtab[..];
      r := FlushWrite();
      ghost var mid := px.fdtab[..];
      if fd > 2 {
        var c := px.Close(fd);
        if c != 0 {
          r := EOF;
        }
      }
      if old(px.IsFile(fd)) {
        SameEntry(was, mid, fd);
        OneEntry(was, mid, px.fdtab[..], fd, was[fd].(off := 0));
      }
    }
  }

  datatype OpenMode = ForRead | ForWrite | ForAppend

  // fopen with "r", "w" or "a".
  method Fopen(px: Posix, path: string, mode: OpenMode, tty: bool) returns (f: Stream?)
    requires px.Valid()
    modifies px.srv, px.fdtab
    ensures px.Valid() && px.srv.faults >= old(px.srv.faults)
    ensures forall p :: p in old(px.srv.files) && p != path ==> p in px.srv.files && px.srv.files[p] == old(px.srv.files[p])
    ensures f != null ==>
              && fresh(f) && fresh(f.msbuf) && f.px == px && !f.ms && f.fd > 2 && f.path == path && !f.err && f.buf == null
              && f.bufmode == (if tty then LineBuf else FullBuf) && (mode != ForRead ==> f.Writer())
              && f.fd < FD_MAX && px.fdtab[..] == old(px.fdtab[..])[f.fd := px.fdtab[f.fd]] && old(px.fdtab[..])[f.fd].kind == Free
              && px.consoleIn == old(px.consoleIn) && px.consoleOut == old(px.consoleOut)
    ensures f == null ==> px.fdtab[..] == old(px.fdtab[..])
    ensures f != null && px.srv.faults == old(px.srv.faults) ==>
              && (mode == ForWrite ==> f.Writer() && f.Synced() && f.Contents() == [] && f.base == 0)
              && (mode == ForAppend ==> f.Writer() && f.Synced() && f.Contents() == FileIn(old(px.srv.files), path))
              && (mode == ForRead ==> path in old(px.srv.files) && f.Reader() && f.Rest() == f.File() == old(px.srv.files[path]))
    ensures px.srv.faults == old(px.srv.faults) && f == null ==>
              (mode == ForRead && path !in old(px.srv.files)) || forall i :: 3 <= i < FD_MAX ==> old(px.fdtab[i].kind) != Free
  {
    var w := mode != ForRead;
    var fd, errno := px.Open(path, w, false, mode == ForWrite, w, mode == ForAppend);
    if fd < 0 {
      return null;
    }
    f := new Stream.Fdopen(px, fd, tty, path, px.fdtab[fd].off);
  }

  // A transfer that starts at the end of its file appends.
  lemma AppendPlaced(now: seq<FdEnt>, files: map<string, seq<byte>>, fd: nat,
                     tab: seq<FdEnt>, before: map<string, seq<byte>>, data: seq<byte>, n: nat)
    requires Placed(now, files, fd, tab, before, data, n)
    requires tab[fd].path in before && tab[fd].off == |before[tab[fd].path]|
    ensures fd < |now| && now[fd] == tab[fd].(off := tab[fd].off + n) && tab[fd].path in files
    ensures files[tab[fd].path] == before[tab[fd].path] + data[..n]
  {
    SpliceAtEnd(before[tab[fd].path], data[..n]);
  }

  lemma OtherEntries(was: seq<FdEnt>, now: seq<FdEnt>, fd: int)
    requires 0 <= fd < |was| == |now| && forall i :: 0 <= i < |was| && i != fd ==> now[i] == was[i]
    ensures now[fd := was[fd].(off := 0)] == was[fd := was[fd].(off := 0)]
  {}

  lemma SameEntry(was: seq<FdEnt>, mid: seq<FdEnt>, fd: int)
    requires 0 <= fd < |was| == |mid| && mid[fd := mid[fd].(off := 0)] == was[fd := was[fd].(off := 0)]
    ensures mid[fd].(off := 0) == was[fd].(off := 0) && mid[fd].path == was[fd].path
  {
    assert mid[fd := mid[fd].(off := 0)][fd] == was[fd := was[fd].(off := 0)][fd];
  }

  lemma OneEntry(was: seq<FdEnt>, mid: seq<FdEnt>, now: seq<FdEnt>, fd: int, e: FdEnt)
    requires 0 <= fd < |was| == |mid| == |now| && mid[fd := e] == was[fd := e]
    requires forall i :: 0 <= i < |was| && i != fd ==> now[i] == mid[i]
    ensures now == was[fd := now[fd]]
  {
    assert forall i :: 0 <= i < |was| && i != fd ==> mid[i] == mid[fd := e][i] == was[fd := e][i] == was[i];
  }

  lemma SentMore(g: seq<byte>, f: seq<byte>, d: seq<byte>, done: nat, n: nat)
    requires done + n <= |d| && g == f + d[..done]
    ensures g + d[done..][..n] == f + d[..done + n] && |g + d[done..][..n]| == |g| + n
  {
    assert d[..done] + d[done..][..n] == d[..done + n];
  }

  // A read of `cap` bytes at `off` delivers the next n bytes of the file.
  lemma ReadWindow(f: seq<byte>, off: nat, cap: nat, n: int, was: seq<byte>, now: seq<byte>)
    requires off < TWO_32 && 0 < cap < TWO_32 && |f| < TWO_32 && n <= |ReadSpan(f, off, cap)|
    requires RcFs.Stored(now, was, 0, ReadSpan(f, off, cap)[..if n < 0 then 0 else n])
    ensures 0 < n ==> n <= cap && off + n <= |f| && n <= |now| && now[..n] == f[off..off + n]
    ensures |ReadSpan(f, off, cap)| == 0 ==> off >= |f|
  {
    if 0 < n {
      var e := Min(off + cap, |f|);
      assert ReadSpan(f, off, cap) == f[off..e];
      SubSlice(f, off, e, 0, n);
      assert f[off..e][0..n] == f[off..e][..n];
    }
  }

  // k bytes of rest are in the line, and how long it will be is known from what is left.
  ghost predicate LineRead(line: seq<byte>, k: nat, rest: seq<byte>, max: nat, delim: int) {
    && k <= |rest| && k <= |line| && k <= max && line[..k] == rest[..k]
    && LineLen(rest, max, delim) == k + LineLen(rest[k..], max - k, delim)
  }

  lemma NothingRead(line: seq<byte>, rest: seq<byte>, max: nat, delim: int)
    ensures LineRead(line, 0, rest, max, delim)
  {
    assert rest[0..] == rest;
  }

  lemma LineEnds(line: seq<byte>, k: nat, rest: seq<byte>, max: nat, delim: int)
    requires LineRead(line, k, rest, max, delim)
    ensures k <= |rest| && k <= |line| && line[..k] == rest[..k]
    ensures rest[k..] == [] || k == max ==> LineLen(rest, max, delim) == k
  {}

  lemma OneMoreRead(line: seq<byte>, was: seq<byte>, k: nat, rest: seq<byte>, max: nat, delim: int)
    requires LineRead(was, k, rest, max, delim) && k < |rest| && k < max
    requires k < |line| && line[..k + 1] == was[..k] + [rest[k]]
    ensures if rest[k] as int == delim then LineLen(rest, max, delim) == k + 1 && line[..k + 1] == rest[..k + 1]
            else LineRead(line, k + 1, rest, max, delim)
  {
    LineStep(rest, k, max - k, delim);
    assert rest[..k + 1] == rest[..k] + [rest[k]];
  }

  // How many bytes a line read takes: at most max, up to and including the first
  // delimiter.
  function LineLen(rest: seq<byte>, max: nat, delim: int): nat {
    if max == 0 || rest == [] then 0
    else if rest[0] as int == delim then 1
    else 1 + LineLen(rest[1..], max - 1, delim)
  }

  lemma LineStep(rest: seq<byte>, i: nat, max: nat, delim: int)
    requires i < |rest| && max > 0
    ensures rest[i..] != [] && rest[i..][0] == rest[i] && rest[i..][1..] == rest[i + 1..]
    ensures LineLen(rest[i..], max, delim) == 1 + if rest[i] as int == delim then 0 else LineLen(rest[i + 1..], max - 1, delim)
  {
    assert rest[i..][1..] == rest[i + 1..];
  }

  lemma LineNone(rest: seq<byte>, max: nat, delim: int)
    ensures max == 0 || rest == [] ==> LineLen(rest, max, delim) == 0
  {}

  function From(f: seq<byte>, off: nat): seq<byte> {
    if off <= |f| then f[off..] else []
  }

  lemma WholeItems(put: nat, size: nat, nmemb: nat)
    requires size > 0 && put <= size * nmemb
    ensures put / size <= nmemb && (put == size * nmemb ==> put / size == nmemb)
    ensures put / size == nmemb ==> put == size * nmemb
  {
    var q, m := put / size, put % size;
    var d := nmemb - q;
    assert put == q * size + m;
    assert d * size == size * nmemb - q * size;
    ScaledSign(d, size);
  }

  lemma ScaledSign(d: int, size: nat)
    requires size > 0
    ensures d * size >= 0 ==> d >= 0
    ensures d * size < size ==> d <= 0
    ensures d == 0 ==> d * size == 0
  {
    if d < 0 {
      assert d * size < 0;
    } else if d > 0 {
      assert d * size >= size;
    }
  }
}
