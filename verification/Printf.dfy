// The formatter: one vformat over a sink that is a bounded string or a stream.
module Printf {
  import opened Bytes
  import opened Numerals
  import opened Format
  import Fsd
  import opened Stdio

  // How many of n bytes a string sink of this capacity stores.
  function Kept(n: nat, cap: nat): nat {
    if cap == 0 then 0 else Min(n, cap - 1)
  }

  class Out {
    const dst: array?<byte>    // the string sink
    const cap: nat
    const f: Stream?           // the stream sink
    var len: nat               // bytes produced, which may exceed cap
    var failed: bool           // a write to the stream fell short
    ghost var produced: seq<byte>
    ghost const before: seq<byte>  // what dst, or the stream, held at first
    ghost const ready: bool        // the stream was in order at first
    ghost const faults: nat
    ghost var Repr: set<object>

    constructor ToString(dst: array?<byte>, cap: nat)
      requires cap > 0 ==> dst != null && cap <= dst.Length
      ensures Valid() && produced == [] && this.dst == dst && this.cap == cap && f == null && len == 0
      ensures (dst != null ==> before == dst[..]) && (forall o :: o in Repr ==> o == this || o == dst)
    {
      this.dst, this.cap, f := dst, cap, null;
      len, failed, produced := 0, false, [];
      before := if dst == null then [] else dst[..];
      ready, faults := false, 0;
      var target: set<object> := if dst == null then {} else {dst};
      Repr := {this} + target;
    }

    constructor ToStream(f: Stream)
      requires f.Writer()
      ensures Valid() && produced == [] && dst == null && this.f == f && len == 0 && !failed
      ensures Repr == {this} + f.Objects() && before == f.Contents() && ready == (f.Fits(0) && f.Writable()) && faults == f.px.srv.faults
    {
      dst, cap, this.f := null, 0, f;
      len, failed, produced := 0, false, [];
      before := f.Contents();
      ready, faults := f.Fits(0) && f.Writable(), f.px.srv.faults;
      Repr := {this} + f.Objects();
    }

    ghost predicate Valid()
      reads this, Repr
      ensures Valid() ==> this in Repr
    {
      && this in Repr && (dst != null ==> dst in Repr) && len == |produced|
      && if f == null then StringOk() else dst == null && f in Repr && f.Objects() <= Repr && this !in f.Objects() && StreamOk(produced)
    }

    // The bytes that fit are stored, and nothing else was touched.
    ghost predicate StringOk()
      reads this, dst
    {
      && (cap > 0 ==> dst != null && cap <= dst.Length)
      && (dst != null ==>
            && Kept(|produced|, cap) <= |before|
            && dst[..] == produced[..Kept(|produced|, cap)] + before[Kept(|produced|, cap)..])
    }

    lemma Stored()
      requires Valid() && f == null
      ensures len == |produced|
      ensures dst != null ==> |before| == dst.Length && Kept(|produced|, cap) <= |before|
      ensures dst != null ==> dst[..] == produced[..Kept(|produced|, cap)] + before[Kept(|produced|, cap)..]
    {}

    // n bytes after those there at first stay below the 32-bit limit of the wire.
    ghost predicate Sound(n: nat)
      reads this
    {
      f != null && ready && (f.ms || |before| + n <= Fsd.OFFSET_APPEND)
    }

    // Unless a write failed, the stream holds what was produced after what it held at first.
    ghost predicate StreamOk(out: seq<byte>)
      requires f != null
      reads this, f, f.Objects()
    {
      && f.px.Valid() && (!failed ==> f.Writer()) && f.px.srv.faults >= faults
      && (Sound(|out|) && f.px.srv.faults == faults ==>
            !failed && f.Writer() && f.Fits(0) && f.Writable() && f.Contents() == before + out)
    }

    method Emit(s: seq<byte>)
      requires Valid()
      modifies Repr
      ensures Valid() && fresh(Repr - old(Repr)) && produced == old(produced) + s
    {
      if f == null {
        EmitStr(s);
      } else {
        EmitFile(s);
      }
    }

    method EmitStr(s: seq<byte>)
      requires Valid() && f == null
      modifies this`len, this`produced, dst
      ensures Valid() && Repr == old(Repr) && produced == old(produced) + s
    {
      var i := 0;
      assert produced + s[..0] == produced;
      while i < |s|
        invariant i <= |s| && Valid() && Repr == old(Repr) && produced == old(produced) + s[..i]
      {
        if len + 1 < cap {
          dst[len] := s[i];
        }
        len := len + 1;
        produced := produced + [s[i]];
        i := i + 1;
        assert s[..i] == s[..i - 1] + [s[i - 1]];
      }
      assert s[..|s|] == s;
    }

    method EmitFile(s: seq<byte>)
      requires Valid() && f != null
      modifies this`len, this`produced, this`failed, this`Repr, f.Objects()
      ensures Valid() && fresh(Repr - old(Repr)) && produced == old(produced) + s
    {
      Send(s);
      Repr := Repr + f.Objects();
      len := len + |s|;
      produced := produced + s;
    }

    method Send(s: seq<byte>)
      requires f != null && this !in f.Objects() && StreamOk(produced)
      modifies this`failed, f.Objects()
      ensures StreamOk(produced + s) && fresh(f.Objects() - old(f.Objects())) && this !in f.Objects()
    {
      if !failed {
        failed := FwriteShort(f, s);
      }
    }

    // n copies of c, sixteen at a time; none when n is negative.
    method Pad(c: byte, n: int)
      requires Valid()
      modifies Repr
      ensures Valid() && fresh(Repr - old(Repr)) && produced == old(produced) + Repeat(c, Max(n, 0))
    {
      hide Valid;
      var b := Repeat(c, 16);
      var left := n;
      assert old(produced) + Repeat(c, 0) == old(produced);
      while left > 0
        invariant left <= Max(n, 0) && (n > 0 ==> left >= 0) && Valid() && fresh(Repr - old(Repr))
        invariant produced == old(produced) + Repeat(c, Max(n, 0) - Max(left, 0))
      {
        var k := if left > 16 then 16 else left;
        Emit(b[..k]);
        assert Repeat(c, n - left) + b[..k] == Repeat(c, n - left + k);
        left := left - k;
      }
    }

    // Sign, prefix, zeros and digits.
    method EmitBody(sign: seq<byte>, prefix: seq<byte>, zeros: nat, digits: seq<byte>)
      requires Valid()
      modifies Repr
      ensures Valid() && fresh(Repr - old(Repr))
      ensures produced == old(produced) + (sign + prefix + Repeat(48, zeros) + digits)
    {
      hide Valid;
      if sign != [] {
        Emit(sign);
      }
      if prefix != [] {
        Emit(prefix);
      }
      assert produced == old(produced) + (sign + prefix);
      Pad(48, zeros);
      Emit(digits);
    }

    method PutNumber(digits: seq<byte>, neg: bool, prefix: seq<byte>, fl: Flags, width: int, prec: int)
      requires Valid()
      modifies Repr
      ensures Valid() && fresh(Repr - old(Repr))
      ensures produced == old(produced) + NumberField(digits, neg, prefix, fl, width, prec)
    {
      hide *;
      var sign, zeros := SignAndZeros(|digits|, |prefix|, neg, fl, width, prec);
      var space := width - (|sign| + |prefix| + zeros + |digits|);
      ghost var body := sign + prefix + Repeat(48, zeros) + digits;
      FieldIs(digits, neg, prefix, fl, width, prec, body, space);
      if !fl.minus {
        Pad(32, space);
      }
      EmitBody(sign, prefix, zeros, digits);
      if fl.minus {
        Pad(32, space);
      }
    }

    method SignAndZeros(dlen: nat, plen: nat, neg: bool, fl: Flags, width: int, prec: int)
        returns (sign: seq<byte>, zeros: nat)
      ensures sign == Sign(neg, fl) && zeros == ZeroFill(dlen, plen, |sign|, fl, width, prec)
    {
      sign := if neg then [45] else if fl.plus then [43] else if fl.space then [32] else [];
      zeros := 0;
      if prec >= 0 && dlen < prec {
        zeros := prec - dlen;
      }
      if fl.zero && prec < 0 && !fl.minus {
        var room := width - dlen - plen - |sign|;
        if room > zeros {
          zeros := room;
        }
      }
    }

    lemma FieldIs(digits: seq<byte>, neg: bool, prefix: seq<byte>, fl: Flags, width: int, prec: int, body: seq<byte>, space: int)
      requires var sign := Sign(neg, fl);
               && body == sign + prefix + Repeat(48, ZeroFill(|digits|, |prefix|, |sign|, fl, width, prec)) + digits
               && space == width - |body|
      ensures var blank := Repeat(32, Max(space, 0));
              NumberField(digits, neg, prefix, fl, width, prec) == if fl.minus then body + blank else blank + body
    {}

    // A string, cut at the precision.
    method PutStr(s: seq<byte>, fl: Flags, width: int, prec: int)
      requires Valid()
      modifies Repr
      ensures Valid() && fresh(Repr - old(Repr)) && produced == old(produced) + TextField(s, fl, width, prec)
    {
      hide Valid;
      var len := 0;
      while len < |s| && (prec < 0 || len < prec)
        invariant len <= |s| && (prec >= 0 ==> len <= prec)
      {
        len := len + 1;
      }
      var space := width - len;
      if !fl.minus {
        Pad(32, space);
      }
      Emit(s[..len]);
      if fl.minus {
        Pad(32, space);
      }
    }
  }

  // fwrite(s, 1, n, f), and whether it fell short.
  method FwriteShort(f: Stream, s: seq<byte>) returns (short: bool)
    requires f.Writer()
    modifies f.Objects()
    ensures f.px.Valid() && fresh(f.Objects() - old(f.Objects())) && f.bufmode == old(f.bufmode)
    ensures f.px.srv.faults >= old(f.px.srv.faults) && (!short ==> f.Writer())
    ensures old(f.Fits(|s|)) && old(f.Writable()) && f.px.srv.faults == old(f.px.srv.faults) ==>
              !short && f.Synced() && f.Contents() == old(f.Contents()) + s
  {
    var items := f.Fwrite(s, 1, |s|);
    short := items < |s|;
    assert s[..1 * |s|] == s;
  }

  method ScanFlags(fmt: seq<byte>, f0: nat) returns (fl: Flags, f: nat)
    ensures (fl, f) == ReadFlags(fmt, f0, NO_FLAGS)
  {
    fl, f := NO_FLAGS, f0;
    while true
      invariant ReadFlags(fmt, f, fl) == ReadFlags(fmt, f0, NO_FLAGS)
      decreases |fmt| - f
    {
      var c := At(fmt, f);
      if c == 45 {
        fl := fl.(minus := true);
      } else if c == 43 {
        fl := fl.(plus := true);
      } else if c == 32 {
        fl := fl.(space := true);
      } else if c == 35 {
        fl := fl.(hash := true);
      } else if c == 48 {
        fl := fl.(zero := true);
      } else {
        break;
      }
      f := f + 1;
    }
  }

  method ScanNat(fmt: seq<byte>, f0: nat) returns (n: nat, f: nat)
    ensures (n, f) == ReadNat(fmt, f0, 0)
  {
    n, f := 0, f0;
    while 48 <= At(fmt, f) <= 57
      invariant ReadNat(fmt, f, n) == ReadNat(fmt, f0, 0)
      decreases |fmt| - f
    {
      n := n * 10 + At(fmt, f) as nat - 48;
      f := f + 1;
    }
  }

  method ScanLength(fmt: seq<byte>, f0: nat) returns (lng: nat, ldbl: bool, f: nat)
    ensures (lng, ldbl, f) == ReadLength(fmt, f0, 0, false)
  {
    lng, ldbl, f := 0, false, f0;
    while true
      invariant ReadLength(fmt, f, lng, ldbl) == ReadLength(fmt, f0, 0, false)
      decreases |fmt| - f
    {
      var c := At(fmt, f);
      if c == 108 {
        lng := lng + 1;
      } else if c == 104 {
      } else if c == 122 || c == 116 || c == 106 {
        lng := 1;
      } else if c == 76 {
        ldbl := true;
      } else {
        break;
      }
      f := f + 1;
    }
  }

  // From after the '%' to the conversion character.
  method ScanSpec(fmt: seq<byte>, f0: nat, args: seq<Arg>, k0: nat) returns (sp: Spec)
    ensures sp == ReadSpec(fmt, f0, args, k0)
  {
    var k := k0;
    var fl, f := ScanFlags(fmt, f0);
    var width: int := 0;
    if At(fmt, f) == 42 {
      width := IntAt(args, k);
      f, k := f + 1, k + 1;
      if width < 0 {
        fl := fl.(minus := true);
        width := -width;
      }
    } else {
      width, f := ScanNat(fmt, f);
    }
    var prec: int := -1;
    if At(fmt, f) == 46 {
      f := f + 1;
      if At(fmt, f) == 42 {
        prec := IntAt(args, k);
        f, k := f + 1, k + 1;
        if prec < 0 {
          prec := -1;
        }
      } else {
        prec, f := ScanNat(fmt, f);
      }
    }
    var lng, ldbl;
    lng, ldbl, f := ScanLength(fmt, f);
    sp := Spec(fl, width, prec, lng, ldbl, At(fmt, f), f, k);
  }

  // %d, %i
  method PutSigned(o: Out, v: int, fl: Flags, width: int, prec: int)
    requires o.Valid() && -TWO_63 <= v < TWO_63
    modifies o.Repr
    ensures o.Valid() && fresh(o.Repr - old(o.Repr)) && o.produced == old(o.produced) + SignedText(v, fl, width, prec)
  {
    hide o.Valid;
    var nbuf := new byte[NBUF];
    var neg := v < 0;
    var uv := if neg then -v else v;
    var p := Utoa(uv, nbuf, 10, false);
    o.PutNumber(nbuf[p..NBUF - 1], neg, [], fl, width, prec);
  }

  // %u, %o, %x, %X
  method PutUnsigned(o: Out, v: u64, conv: byte, fl: Flags, width: int, prec: int)
    requires o.Valid() && conv in {117, 111, 120, 88}
    modifies o.Repr
    ensures o.Valid() && fresh(o.Repr - old(o.Repr)) && o.produced == old(o.produced) + UnsignedText(v, conv, fl, width, prec)
  {
    hide o.Valid;
    var nbuf := new byte[NBUF];
    var base := if conv == 111 then 8 else if conv == 117 then 10 else 16;
    var p := Utoa(v, nbuf, base, conv == 88);
    var pre: seq<byte> := [];
    if fl.hash && v != 0 {
      if conv == 120 {
        pre := [48, 120];
      } else if conv == 88 {
        pre := [48, 88];
      } else if conv == 111 {
        pre := [48];
      }
    }
    o.PutNumber(nbuf[p..NBUF - 1], false, pre, fl, width, prec);
  }

  method PutPointer(o: Out, v: u64, fl: Flags, width: int, prec: int)
    requires o.Valid()
    modifies o.Repr
    ensures o.Valid() && fresh(o.Repr - old(o.Repr))
    ensures o.produced == old(o.produced) + NumberField(Digits(v, 16, false), false, [48, 120], fl, width, prec)
  {
    hide o.Valid;
    var nbuf := new byte[NBUF];
    var p := Utoa(v, nbuf, 16, false);
    o.PutNumber(nbuf[p..NBUF - 1], false, [48, 120], fl, width, prec);
  }

  method PutChar(o: Out, ch: byte, fl: Flags, width: int)
    requires o.Valid()
    modifies o.Repr
    ensures o.Valid() && fresh(o.Repr - old(o.Repr)) && o.produced == old(o.produced) + Justified([ch], fl, width)
  {
    hide o.Valid;
    var space := width - 1;
    if !fl.minus {
      o.Pad(32, space);
    }
    o.Emit([ch]);
    if fl.minus {
      o.Pad(32, space);
    }
  }

  // The switch on the conversion character.
  method Convert(o: Out, sp: Spec, args: seq<Arg>, fp: FloatText)
    requires o.Valid()
    modifies o.Repr
    ensures o.Valid() && fresh(o.Repr - old(o.Repr)) && o.produced == old(o.produced) + Printed(sp, args, fp)
  {
    hide o.Valid, NumberField, Justified, TextField, SignedText, UnsignedText;
    var c := sp.conv;
    if c == 100 || c == 105 {
      PutSigned(o, SignedAt(args, sp.arg, sp.lng), sp.fl, sp.width, sp.prec);
    } else if c in {117, 111, 120, 88} {
      PutUnsigned(o, UnsignedAt(args, sp.arg, sp.lng), c, sp.fl, sp.width, sp.prec);
    } else if c == 112 {
      PutPointer(o, BitsAt(args, sp.arg), sp.fl, sp.width, sp.prec);
    } else if c == 99 {
      PutChar(o, (BitsAt(args, sp.arg) % 256) as byte, sp.fl, sp.width);
    } else if c == 115 {
      o.PutStr(TextAt(args, sp.arg), sp.fl, sp.width, sp.prec);
    } else if c in {102, 70, 101, 69, 103, 71, 97, 65} {
      o.Emit(fp(BitsAt(args, sp.arg), c, sp.fl, sp.width, sp.prec, sp.ldbl));
    } else if c == 110 || c == 0 {
      assert o.produced + [] == o.produced;
    } else if c == 37 {
      o.Emit([37]);
    } else {
      o.Emit([37]);
      o.Emit([c]);
      assert [37] + [c] == [37, c];
    }
  }

  // A byte count as the int that is returned.
  function ToInt(n: nat): int {
    var low := n % TWO_32;
    if low < TWO_32 / 2 then low else low - TWO_32
  }

  method Vformat(o: Out, fmt: seq<byte>, args: seq<Arg>, fp: FloatText) returns (r: int)
    requires o.Valid()
    modifies o.Repr
    ensures o.Valid() && fresh(o.Repr - old(o.Repr)) && r == ToInt(o.len)
    ensures o.produced == old(o.produced) + Rendered(fmt, 0, args, 0, fp)
  {
    hide *;
    var f: nat, k: nat := 0, 0;
    ghost var text := Rendered(fmt, 0, args, 0, fp);
    ghost var done: seq<byte> := [];
    assert done + text == text;
    while At(fmt, f) != 0
      invariant o.Valid() && fresh(o.Repr - old(o.Repr)) && o.produced == old(o.produced) + done
      invariant text == done + Rendered(fmt, f, args, k, fp)
      decreases |fmt| - f
    {
      RenderedStep(fmt, f, args, k, fp);
      ghost var rest := Rendered(fmt, f, args, k, fp);
      ghost var piece := if fmt[f] != 37 then [fmt[f]] else Printed(ReadSpec(fmt, f + 1, args, k), args, fp);
      if fmt[f] != 37 {
        o.Emit([fmt[f]]);
        f := f + 1;
      } else {
        var sp := ScanSpec(fmt, f + 1, args, k);
        Convert(o, sp, args, fp);
        f, k := if sp.conv == 0 then sp.at else sp.at + 1, if TakesArg(sp.conv) then sp.arg + 1 else sp.arg;
      }
      assert done + (piece + Rendered(fmt, f, args, k, fp)) == (done + piece) + Rendered(fmt, f, args, k, fp);
      done := done + piece;
    }
    RenderedEnd(fmt, f, args, k, fp);
    r := ToInt(o.len);
  }

  // The first n - 1 bytes of the output and a NUL, nothing past them, and the length
  // of the whole output whatever n is.
  method Vsnprintf(s: array?<byte>, n: nat, fmt: seq<byte>, args: seq<Arg>, fp: FloatText) returns (r: int)
    requires n > 0 ==> s != null && n <= s.Length
    modifies s
    ensures r == ToInt(|Rendered(fmt, 0, args, 0, fp)|)
    ensures n == 0 && s != null ==> s[..] == old(s[..])
    ensures n > 0 ==> var text := Rendered(fmt, 0, args, 0, fp);
                      var k := Min(|text|, n - 1);
                      s[..] == text[..k] + [0] + old(s[..])[k + 1..]
  {
    hide *;
    var o := new Out.ToString(s, n);
    r := Vformat(o, fmt, args, fp);
    ghost var text := Rendered(fmt, 0, args, 0, fp);
    assert o.produced == text;
    o.Stored();
    if n > 0 {
      Terminated(s[..], text, o.before, n);
      s[if o.len < n then o.len else n - 1] := 0;
    } else if s != null {
      Measured(text, o.before);
    }
  }

  lemma Measured(text: seq<byte>, before: seq<byte>)
    ensures Kept(|text|, 0) == 0 && text[..Kept(|text|, 0)] + before[Kept(|text|, 0)..] == before
  {}

  lemma Terminated(now: seq<byte>, text: seq<byte>, before: seq<byte>, n: nat)
    requires 0 < n <= |before| && Kept(|text|, n) <= |before|
    requires now == text[..Kept(|text|, n)] + before[Kept(|text|, n)..]
    ensures var k := if |text| < n then |text| else n - 1;
            k < |now| && k == Min(|text|, n - 1) && now[k := 0] == text[..k] + [0] + before[k + 1..]
  {}

  // The stream gets the output; the int that is returned does not depend on it.
  method Vfprintf(f: Stream, fmt: seq<byte>, args: seq<Arg>, fp: FloatText) returns (r: int)
    requires f.Writer()
    modifies f.Objects()
    ensures r == ToInt(|Rendered(fmt, 0, args, 0, fp)|) && f.px.srv.faults >= old(f.px.srv.faults)
    ensures var text := Rendered(fmt, 0, args, 0, fp);
            old(f.Fits(|text|)) && old(f.Writable()) && f.px.srv.faults == old(f.px.srv.faults) ==>
              f.Writer() && f.Synced() && f.Contents() == old(f.Contents()) + text
  {
    hide Rendered, ToInt;
    var o := new Out.ToStream(f);
    r := Vformat(o, fmt, args, fp);
    assert o.produced == Rendered(fmt, 0, args, 0, fp);
  }

  // A measuring pass, then one into a buffer of exactly that size: the whole output when its
  // length is an int.
  method Vasprintf(fmt: seq<byte>, args: seq<Arg>, fp: FloatText) returns (r: int, out: array?<byte>)
    ensures var text := Rendered(fmt, 0, args, 0, fp);
            && (r == |text| <==> |text| < TWO_32 / 2)
            && (out != null <==> r >= 0) && -1 <= r <= |text|
            && (out != null ==> fresh(out) && out[..] == text[..r] + [0])
  {
    hide Rendered;
    var n := Vsnprintf(null, 0, fmt, args, fp);
    if n < 0 {
      return -1, null;
    }
    var b := new byte[n + 1];
    var w := Vsnprintf(b, n + 1, fmt, args, fp);
    return n, b;
  }
}
