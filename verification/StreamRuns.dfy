// Whole runs over a stream: what any sequence of calls writes or delivers.
module StreamRuns {
  import opened Bytes
  import Fsd
  import opened RcPosix
  import opened Stdio

  datatype WriteOp =
    | Putc(c: byte)
    | Puts(s: seq<byte>)
    | Items(data: seq<byte>, size: nat, nmemb: nat)
    | Flush
    | SetBuf(own: array?<byte>, mode: Mode, size: nat)

  // The items are all there, and a caller's buffer holds what it is said to hold.
  predicate Legal(op: WriteOp) {
    && (op.Items? ==> op.size * op.nmemb <= |op.data|)
    && (op.SetBuf? && op.own != null ==> (if op.size == 0 then BUFSIZ else op.size) <= op.own.Length)
  }

  function OpBytes(op: WriteOp): seq<byte>
    requires Legal(op)
  {
    match op
    case Putc(c) => [c]
    case Puts(s) => s
    case Items(data, size, nmemb) => data[..size * nmemb]
    case Flush => []
    case SetBuf(_, _, _) => []
  }

  ghost predicate AllLegal(ops: seq<WriteOp>) {
    forall i :: 0 <= i < |ops| ==> Legal(ops[i])
  }

  // A memory stream never made unbuffered.
  ghost predicate KeepsBuffer(ops: seq<WriteOp>) {
    forall i :: 0 <= i < |ops| ==> !(ops[i].SetBuf? && ops[i].mode == NoBuf)
  }

  // The buffers the caller supplies.
  ghost function Own(op: WriteOp): set<object> {
    if op.SetBuf? && op.own != null then {op.own} else {}
  }

  ghost function Owned(ops: seq<WriteOp>): set<object> {
    set i | 0 <= i < |ops| && ops[i].SetBuf? && ops[i].own != null :: ops[i].own
  }

  // The bytes of all calls in order.
  ghost function AllBytes(ops: seq<WriteOp>): seq<byte>
    requires AllLegal(ops)
  {
    if ops == [] then [] else OpBytes(ops[0]) + AllBytes(ops[1..])
  }

  method WriteOne(f: Stream, op: WriteOp) returns (ok: bool)
    requires f.Writer() && Legal(op) && f.msbuf !in Own(op)
    modifies f.Objects(), Own(op)
    ensures f.px.Valid() && fresh(f.Objects() - old(f.Objects()) - Own(op)) && (f.msbuf == old(f.msbuf) || fresh(f.msbuf))
    ensures f.px.srv.faults >= old(f.px.srv.faults) && f.base == old(f.base)
    ensures ok ==> f.Writer()
    ensures f.bufmode == if op.SetBuf? then op.mode else old(f.bufmode)
    ensures old(f.Fits(|OpBytes(op)|)) && old(f.Writable()) && old(!f.err) && f.px.srv.faults == old(f.px.srv.faults) ==>
              ok && !f.err && f.Synced() && f.Contents() == old(f.Contents()) + OpBytes(op) && (old(f.LinesOut()) ==> f.LinesOut())
  {
    match op {
      case Putc(c) =>
        var r := f.Fputc(c);
        ok := r != EOF;
      case Puts(s) =>
        var r := f.Fputs(s);
        ok := r != EOF;
      case Items(data, size, nmemb) =>
        if size == 0 {
          ok := true;
        } else {
          var n := f.Fwrite(data, size, nmemb);
          ok := n == nmemb;
        }
      case Flush =>
        var r := f.Fflush();
        ok := r != EOF;
      case SetBuf(own, mode, size) =>
        var r := f.Setvbuf(own, mode, size);
        ok := !f.err;
    }
  }

  // The calls one after another, until one fails. A line-buffered stream then has every line end
  // in the file.
  method RunEach(f: Stream, ops: seq<WriteOp>) returns (ok: bool)
    requires f.Writer() && AllLegal(ops) && f.msbuf !in Owned(ops)
    modifies f.Objects(), Owned(ops)
    ensures f.px.Valid() && f.px.srv.faults >= old(f.px.srv.faults) && f.base == old(f.base)
    ensures fresh(f.Objects() - old(f.Objects()) - Owned(ops))
    ensures ok ==> f.Writer()
    ensures old(f.Fits(|AllBytes(ops)|)) && old(f.Writable()) && (f.ms ==> KeepsBuffer(ops)) && old(!f.err) &&
            f.px.srv.faults == old(f.px.srv.faults) ==>
              && ok && !f.err && f.Fits(0) && f.Writable() && f.Contents() == old(f.Contents()) + AllBytes(ops)
              && (old(f.LinesOut()) && f.bufmode == LineBuf ==>
                   forall i :: 0 <= i < |f.Contents()| && f.Contents()[i] == 10 ==> i < |f.Out()|)
  {
    hide AllBytes, OpBytes, Stream.LinesOut;
    var i := 0;
    ghost var good := f.Fits(|AllBytes(ops)|) && f.Writable() && (f.ms ==> KeepsBuffer(ops)) && !f.err;
    ghost var start := f.Contents();
    assert ops[0..] == ops;
    ok := true;
    while i < |ops|
      invariant 0 <= i <= |ops| && f.Writer() && fresh(f.Objects() - old(f.Objects()) - Owned(ops)) && f.base == old(f.base)
      invariant f.msbuf == old(f.msbuf) || fresh(f.msbuf)
      invariant f.px.srv.faults >= old(f.px.srv.faults)
      invariant good && f.px.srv.faults == old(f.px.srv.faults) ==>
                  && !f.err && f.Writable() && f.Fits(|AllBytes(ops[i..])|)
                  && f.Contents() + AllBytes(ops[i..]) == start + AllBytes(ops) && (old(f.LinesOut()) ==> f.LinesOut())
    {
      NextOp(ops, i);
      ghost var c := f.Contents();
      ok := WriteOne(f, ops[i]);
      if !ok {
        return false;
      }
      Regrouped(c, OpBytes(ops[i]), AllBytes(ops[i + 1..]));
      i := i + 1;
    }
    NoOps(ops[|ops|..]);
    HeldBack(f);
  }

  lemma HeldBack(f: Stream)
    requires f.Buffered()
    ensures f.LinesOut() && f.bufmode == LineBuf ==> forall i :: 0 <= i < |f.Contents()| && f.Contents()[i] == 10 ==> i < |f.Out()|
  {
    if f.LinesOut() && f.bufmode == LineBuf {
      LineEndsOut(f.Contents(), f.Out(), f.Pending());
    }
  }

  // Of a stream that holds back no complete line, every line end is in the file.
  lemma LineEndsOut(all: seq<byte>, out: seq<byte>, pending: seq<byte>)
    requires all == out + pending && 10 !in pending
    ensures forall i :: 0 <= i < |all| && all[i] == 10 ==> i < |out|
  {
    assert forall i :: |out| <= i < |all| ==> all[i] == pending[i - |out|];
  }

  lemma Regrouped(a: seq<byte>, b: seq<byte>, c: seq<byte>)
    ensures a + (b + c) == a + b + c
  {}

  lemma NextOp(ops: seq<WriteOp>, i: nat)
    requires i < |ops| && AllLegal(ops)
    ensures AllBytes(ops[i..]) == OpBytes(ops[i]) + AllBytes(ops[i + 1..])
  {
    assert ops[i..][1..] == ops[i + 1..];
  }

  lemma NoOps(ops: seq<WriteOp>)
    requires ops == []
    ensures AllBytes(ops) == []
  {}

  // Any sequence of calls and a final flush: the bytes written, in order, have
  // all reached the file (or the caller's buffer, with its size and NUL).
  method RunWrites(f: Stream, ops: seq<WriteOp>) returns (ok: bool)
    requires f.Writer() && AllLegal(ops) && f.msbuf !in Owned(ops)
    modifies f.Objects(), Owned(ops)
    ensures f.px.Valid() && f.px.srv.faults >= old(f.px.srv.faults) && fresh(f.Objects() - old(f.Objects()) - Owned(ops))
    ensures ok ==> f.Writer() && f.wlen == 0
    ensures old(f.Fits(|AllBytes(ops)|)) && old(f.Writable()) && (f.ms ==> KeepsBuffer(ops)) && old(!f.err) &&
            f.px.srv.faults == old(f.px.srv.faults) ==>
              && ok && f.Writer() && f.Synced() && f.Fits(0) && f.Out() == f.Contents() && f.Out() == old(f.Contents()) + AllBytes(ops)
              && (f.ms ==> f.mssize == |f.Out()| && f.msbuf[f.mssize] == 0)
              && f.pos == |f.Out()| - if f.ms then 0 else f.base
  {
    ok := RunEach(f, ops);
    if ok {
      var r := f.Fflush();
      ok := r != EOF;
    }
  }

  // Sent again after k of the pending bytes had been sent, they make the file's contents right
  // just when k is zero.
  lemma SentTwice(was: seq<byte>, pending: seq<byte>, k: nat)
    requires k <= |pending|
    ensures was + pending[..k] + pending == was + pending <==> k == 0
  {
    assert |was + pending[..k] + pending| == |was| + k + |pending|;
  }

  // fflush once more after one that failed, and nothing fails this time: whatever the first had
  // sent is in the file twice. It had sent nothing if the buffer was small enough for one request
  // and no reply was short.
  method Retry(f: Stream) returns (first: int, second: int, ghost k: nat, ghost late: nat)
    requires f.Buffered() && !f.ms
    modifies f.Objects()
    ensures f.px.srv.faults >= late >= old(f.px.srv.faults) && f.Buffered()
    ensures first != EOF ==> first == second == 0
    ensures old(f.Fits(f.wlen)) && f.px.srv.faults == old(f.px.srv.faults) ==> first == 0 && f.Out() == old(f.Contents())
    ensures old(f.Fits(f.wlen)) && first == EOF && f.px.srv.faults == late ==>
              && second == 0 && k < old(f.wlen) && f.Out() == old(f.Out()) + old(f.Pending())[..k] + old(f.Pending())
              && (f.Out() == old(f.Contents()) <==> k == 0)
    ensures old(f.Fits(f.wlen)) && first == EOF && late > old(f.px.srv.faults) + 1 ==> k > 0
    ensures old(f.Fits(f.wlen)) && first == EOF && f.px.srv.shorts == old(f.px.srv.shorts) && old(f.wlen) <= Fsd.WRITE_CHUNK ==> k == 0
  {
    ghost var was, pending, fits := f.Out(), f.Pending(), f.Fits(f.wlen);
    first := f.Fflush();
    k, late, second := 0, f.px.srv.faults, 0;
    if first == EOF {
      if fits {
        k :| 0 <= k < f.wlen && f.Ahead(k) && f.Out() == was + f.Pending()[..k];
        SentTwice(was, pending, k);
      }
      second := f.Fflush();
    }
  }

  // One fault in the flush that a full buffer calls for: fputc reports it and leaves a buffer
  // with no room for the next byte. The next fflush that succeeds makes room and has the byte in
  // the file once.
  method FullAfterFault(px: Posix, path: string, own: array<byte>, c: byte) returns (f: Stream?, r: int, again: int, ghost late: nat)
    requires px.Valid() && own.Length == 1
    modifies px, px.srv, px.fdtab, own
    ensures f != null && late == old(px.srv.faults) ==> px.srv.faults >= late && f.Buffered() && (r == EOF || r == c as int)
    ensures f != null && px.srv.faults == late == old(px.srv.faults) ==> r == c as int && again == 0 && f.Out() == [c]
    ensures f != null && late == old(px.srv.faults) && again == EOF ==>
              r == EOF && f.wlen == f.bufcap && !f.Writer() && f.Pending() == [c]
    ensures f != null && late == old(px.srv.faults) && r == EOF && again == 0 ==> px.srv.faults > late && f.Writer() && f.wlen == 0
    ensures f != null && late == old(px.srv.faults) && r == EOF && again == 0 && px.srv.faults == late + 1 ==> f.Out() == [c]
  {
    r, again, late := EOF, EOF, px.srv.faults;
    f := Fopen(px, path, ForWrite, false);
    if f == null {
      return;
    }
    var s := f.Setvbuf(own, FullBuf, 1);
    late := px.srv.faults;
    r := f.Fputc(c);
    again := f.Fflush();
  }

  // A buffer that takes more than one request, filled, and two faults in its flush, so that a
  // first part has been sent: the retry that succeeds leaves that part in the file twice.
  method DuplicatingRun(px: Posix, path: string, own: array<byte>, s: seq<byte>)
      returns (f: Stream?, first: int, second: int, ghost k: nat, ghost mid: nat, ghost late: nat)
    requires px.Valid() && own.Length == 16384 && |s| == 16383
    modifies px, px.srv, px.fdtab, own
    ensures f != null && mid == old(px.srv.faults) && first == EOF && px.srv.faults == late ==>
              second == 0 && f.Buffered() && k < |s| && f.Out() == s[..k] + s && (f.Out() == s <==> k == 0)
    ensures f != null && px.srv.faults == old(px.srv.faults) ==> first == 0 && f.Buffered() && f.Out() == s
    ensures f != null && mid == old(px.srv.faults) && late > mid + 1 && px.srv.faults == late && first == EOF ==>
              k > 0 && f.Buffered() && f.Out() != s
  {
    hide Stream.Elsewhere, Stream.LinesOut, Stream.PartSent, Stream.Ahead, Stream.AtEnd;
    first, second, k, mid, late := 0, 0, 0, px.srv.faults, px.srv.faults;
    f := Fopen(px, path, ForWrite, false);
    if f == null {
      return;
    }
    var r := f.Setvbuf(own, FullBuf, 16384);
    r := f.Fputs(s);
    mid := px.srv.faults;
    if r == EOF {
      return;
    }
    if mid == old(px.srv.faults) {
      OnlyPending(f.Out(), f.Pending(), s);
    }
    first, second, k, late := Retry(f);
  }

  lemma OnlyPending(out: seq<byte>, pending: seq<byte>, s: seq<byte>)
    requires out + pending == s && |pending| == |s|
    ensures out == [] && pending == s && forall k :: 0 <= k <= |s| ==> out + pending[..k] + pending == s[..k] + s
  {
    assert |out| == 0;
  }

  datatype ReadOp =
    | Getc
    | Gets(n: nat)
    | Chunks(size: nat, nmemb: nat)
    | Line(delim: int)
    | Seek(off: nat)

  datatype Got = Byte(c: int) | Bytes(d: seq<byte>) | Text(ok: bool, d: seq<byte>) | Sought

  // What a call delivers when `rest` is still to be read, and what is left then.
  function Deliver(file: seq<byte>, rest: seq<byte>, op: ReadOp): (Got, seq<byte>) {
    match op
    case Getc => if rest == [] then (Byte(EOF), []) else (Byte(rest[0] as int), rest[1..])
    case Gets(n) =>
      var k := LineLen(rest, if n == 0 then 0 else n - 1, 10);
      LineLenBound(rest, if n == 0 then 0 else n - 1, 10);
      if n > 0 && (n == 1 || k > 0) then (Text(true, rest[..k]), rest[k..]) else (Text(false, []), rest[k..])
    case Chunks(size, nmemb) =>
      var k := Min(size * nmemb, |rest|);
      (Bytes(rest[..k]), rest[k..])
    case Line(delim) =>
      var k := LineLen(rest, |rest|, delim);
      LineLenBound(rest, |rest|, delim);
      if k == 0 then (Text(false, []), []) else (Text(true, rest[..k]), rest[k..])
    case Seek(off) => (Sought, From(file, off))
  }

  function DeliverAll(file: seq<byte>, rest: seq<byte>, ops: seq<ReadOp>): seq<Got>
    decreases |ops|
  {
    if ops == [] then []
    else var (g, left) := Deliver(file, rest, ops[0]); [g] + DeliverAll(file, left, ops[1..])
  }

  lemma {:induction false} LineLenBound(rest: seq<byte>, max: nat, delim: int)
    ensures LineLen(rest, max, delim) <= |rest| && LineLen(rest, max, delim) <= max
    ensures LineLen(rest, max, delim) == 0 <==> rest == [] || max == 0
    decreases max
  {
    if max > 0 && rest != [] && rest[0] as int != delim {
      LineLenBound(rest[1..], max - 1, delim);
    }
  }

  method ReadGets(f: Stream, n: nat) returns (ghost g: Got)
    requires f.Reader()
    modifies f.Objects()
    ensures f.Reader() && fresh(f.Objects() - old(f.Objects())) && f.File() == old(f.File())
    ensures f.px.srv.faults >= old(f.px.srv.faults)
    ensures f.px.srv.faults == old(f.px.srv.faults) ==> (g, f.Rest()) == Deliver(f.File(), old(f.Rest()), Gets(n))
  {
    hide Stream.Reader, Stream.Rest, Stream.File, LineLen;
    LineLenBound(f.Rest(), if n == 0 then 0 else n - 1, 10);
    var s := new byte[n];
    var ok, len := f.Fgets(s, n);
    g := Text(ok, if ok then s[..len] else []);
  }

  method ReadItems(f: Stream, size: nat, nmemb: nat) returns (ghost g: Got)
    requires f.Reader()
    modifies f.Objects()
    ensures f.Reader() && fresh(f.Objects() - old(f.Objects())) && f.File() == old(f.File())
    ensures f.px.srv.faults >= old(f.px.srv.faults)
    ensures f.px.srv.faults == old(f.px.srv.faults) ==> (g, f.Rest()) == Deliver(f.File(), old(f.Rest()), Chunks(size, nmemb))
  {
    hide Stream.Reader, Stream.Rest, Stream.File, LineLen, Deliver, Stream.Elsewhere;
    ghost var rest := f.Rest();
    var dst := new byte[size * nmemb];
    var items, got := f.Fread(dst, size, nmemb);
    g := Bytes(dst[..got]);
    DeliverChunks(f.File(), rest, size, nmemb);
  }

  lemma DeliverChunks(file: seq<byte>, rest: seq<byte>, size: nat, nmemb: nat)
    ensures var k := Min(size * nmemb, |rest|);
            0 <= k <= |rest| && Deliver(file, rest, Chunks(size, nmemb)) == (Bytes(rest[..k]), rest[k..])
  {}

  method ReadLine(f: Stream, delim: int) returns (ghost g: Got)
    requires f.Reader()
    modifies f.Objects()
    ensures f.Reader() && fresh(f.Objects() - old(f.Objects())) && f.File() == old(f.File())
    ensures f.px.srv.faults >= old(f.px.srv.faults)
    ensures f.px.srv.faults == old(f.px.srv.faults) ==> (g, f.Rest()) == Deliver(f.File(), old(f.Rest()), Line(delim))
  {
    hide Stream.Reader, Stream.Rest, Stream.File, LineLen;
    LineLenBound(f.Rest(), |f.Rest()|, delim);
    var line, n, len := f.Getdelim(null, 0, delim);
    g := if len == -1 then Text(false, []) else Text(true, line[..len]);
  }

  method ReadOne(f: Stream, op: ReadOp) returns (ghost g: Got)
    requires f.Reader() && (op.Seek? ==> op.off < TWO_32)
    modifies f.Objects()
    ensures f.Reader() && fresh(f.Objects() - old(f.Objects())) && f.File() == old(f.File())
    ensures f.px.srv.faults >= old(f.px.srv.faults)
    ensures f.px.srv.faults == old(f.px.srv.faults) ==> (g, f.Rest()) == Deliver(f.File(), old(f.Rest()), op)
  {
    hide Stream.Reader, Stream.Rest, Stream.File, LineLen;
    match op {
      case Getc =>
        var c := f.Fgetc();
        g := Byte(c);
      case Gets(n) => g := ReadGets(f, n);
      case Chunks(size, nmemb) => g := ReadItems(f, size, nmemb);
      case Line(delim) => g := ReadLine(f, delim);
      case Seek(off) =>
        var r := f.SeekTo(off);
        g := Sought;
    }
  }

  // Every interleaving of reads and seeks delivers the file's bytes from the
  // logical position, as if there were no buffer.
  method RunReads(f: Stream, ops: seq<ReadOp>) returns (ghost out: seq<Got>)
    requires f.Reader() && forall i :: 0 <= i < |ops| && ops[i].Seek? ==> ops[i].off < TWO_32
    modifies f.Objects()
    ensures f.Reader() && f.File() == old(f.File()) && f.px.srv.faults >= old(f.px.srv.faults)
    ensures f.px.srv.faults == old(f.px.srv.faults) ==> out == DeliverAll(f.File(), old(f.Rest()), ops)
  {
    hide Stream.Reader, Stream.Rest, Stream.File, Deliver, DeliverAll;
    out := [];
    ghost var file, rest := f.File(), f.Rest();
    var i := 0;
    assert ops[0..] == ops;
    while i < |ops|
      invariant 0 <= i <= |ops| && f.Reader() && f.File() == file && fresh(f.Objects() - old(f.Objects()))
      invariant f.px.srv.faults >= old(f.px.srv.faults)
      invariant f.px.srv.faults == old(f.px.srv.faults) ==>
                  out + DeliverAll(file, f.Rest(), ops[i..]) == DeliverAll(file, rest, ops)
    {
      ghost var r := f.Rest();
      ghost var g := ReadOne(f, ops[i]);
      DeliverNext(file, r, ops, i);
      assert out + ([g] + DeliverAll(file, f.Rest(), ops[i + 1..])) == out + [g] + DeliverAll(file, f.Rest(), ops[i + 1..]);
      out := out + [g];
      i := i + 1;
    }
    DeliverNone(file, f.Rest(), ops[|ops|..]);
  }

  lemma DeliverNext(file: seq<byte>, rest: seq<byte>, ops: seq<ReadOp>, i: nat)
    requires i < |ops|
    ensures DeliverAll(file, rest, ops[i..]) ==
            [Deliver(file, rest, ops[i]).0] + DeliverAll(file, Deliver(file, rest, ops[i]).1, ops[i + 1..])
  {
    hide Deliver;
    assert ops[i..][1..] == ops[i + 1..];
  }

  lemma DeliverNone(file: seq<byte>, rest: seq<byte>, ops: seq<ReadOp>)
    requires ops == []
    ensures DeliverAll(file, rest, ops) == []
  {}

  function Concat(lines: seq<seq<byte>>): seq<byte> {
    if lines == [] then [] else Concat(lines[..|lines| - 1]) + lines[|lines| - 1]
  }

  // getdelim until it reports the end: the lines put together are the file, and
  // only the last can lack its delimiter.
  method ReadLines(f: Stream, delim: int) returns (lines: seq<seq<byte>>)
    requires f.Reader()
    modifies f.Objects()
    ensures f.Reader() && f.File() == old(f.File()) && f.px.srv.faults >= old(f.px.srv.faults)
    ensures f.px.srv.faults == old(f.px.srv.faults) ==> Concat(lines) == old(f.Rest())
    ensures f.px.srv.faults == old(f.px.srv.faults) ==> AllLines(lines, delim, true)
  {
    hide Stream.Reader, Stream.Rest, Stream.File, LineLen, Concat, AllLines;
    lines := [];
    NoLines(delim, f.Rest() == []);
    ghost var rest := f.Rest();
    while true
      invariant f.Reader() && f.File() == old(f.File()) && fresh(f.Objects() - old(f.Objects()))
      invariant f.px.srv.faults >= old(f.px.srv.faults)
      invariant f.px.srv.faults == old(f.px.srv.faults) ==> Concat(lines) + f.Rest() == rest
      invariant f.px.srv.faults == old(f.px.srv.faults) ==> AllLines(lines, delim, f.Rest() == [])
      decreases |f.Rest()|
    {
      ghost var r := f.Rest();
      var line, n, len := f.Getdelim(null, 0, delim);
      if len == -1 {
        break;
      }
      var d := line[..len];
      if f.px.srv.faults == old(f.px.srv.faults) {
        NextLine(lines, d, r, delim);
      }
      lines := lines + [d];
    }
  }

  ghost predicate AllLines(lines: seq<seq<byte>>, delim: int, ended: bool) {
    forall i :: 0 <= i < |lines| ==> IsLine(lines[i], delim, i == |lines| - 1 && ended)
  }

  lemma NoLines(delim: int, ended: bool)
    ensures Concat([]) == [] && AllLines([], delim, ended)
  {}

  lemma NextLine(lines: seq<seq<byte>>, d: seq<byte>, r: seq<byte>, delim: int)
    requires r != [] && AllLines(lines, delim, r == []) && |d| == LineLen(r, |r|, delim) <= |r| && d == r[..|d|]
    ensures AllLines(lines + [d], delim, r[|d|..] == [])
    ensures Concat(lines + [d]) + r[|d|..] == Concat(lines) + r
  {
    LineIs(r, |r|, delim);
    ConcatOne(lines, d);
    assert d + r[|d|..] == r;
  }

  lemma ConcatOne(lines: seq<seq<byte>>, d: seq<byte>)
    ensures Concat(lines + [d]) == Concat(lines) + d
  {
    assert (lines + [d])[..|lines|] == lines;
  }

  // Nonempty, the delimiter nowhere but at the end, and there unless it is the last.
  ghost predicate IsLine(d: seq<byte>, delim: int, last: bool) {
    && d != [] && (forall i :: 0 <= i < |d| - 1 ==> d[i] as int != delim)
    && (!last ==> d[|d| - 1] as int == delim)
  }

  lemma {:induction false} LineIs(rest: seq<byte>, max: nat, delim: int)
    requires rest != [] && max > 0
    ensures var k := LineLen(rest, max, delim);
            0 < k <= |rest| && IsLine(rest[..k], delim, k == |rest| || k == max)
    decreases max
  {
    LineLenBound(rest, max, delim);
    if rest[0] as int != delim && max > 1 && |rest| > 1 {
      LineIs(rest[1..], max - 1, delim);
      var k := LineLen(rest[1..], max - 1, delim);
      assert rest[..k + 1] == [rest[0]] + rest[1..][..k];
    }
  }

  // What a "w" stream was given is what an "r" stream on the same path delivers.
  method WriteThenRead(px: Posix, path: string, ops: seq<WriteOp>) returns (g: Stream?)
    requires px.Valid() && AllLegal(ops) && |AllBytes(ops)| <= Fsd.OFFSET_APPEND
    modifies px, px.srv, px.fdtab, Owned(ops)
    ensures px.srv.faults == old(px.srv.faults) && g != null ==> g.Reader() && g.Rest() == AllBytes(ops)
    ensures px.srv.faults == old(px.srv.faults) && g == null ==> forall i :: 3 <= i < FD_MAX ==> old(px.fdtab[i].kind) != Free
  {
    hide AllBytes, OpBytes;
    g := null;
    var f := Fopen(px, path, ForWrite, false);
    if f == null {
      return;
    }
    var ok := RunWrites(f, ops);
    if !ok {
      return;
    }
    var r := f.Fclose();
    g := Fopen(px, path, ForRead, false);
  }
}
