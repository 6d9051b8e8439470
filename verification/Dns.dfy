// DNS names on the wire: the query builder, dns_skip and the walk over the answers.
module Dns {
  import opened Bytes

  const DOT: byte := 46
  const LABEL_MAX: nat := 63
  const NAME_MAX: nat := 273   // bytes of labels that the builder's limit lets through
  const QUERY: nat := 300      // its buffer

  // The name between its dots; a single dot at the end adds nothing.
  function Labels(s: seq<byte>): seq<seq<byte>>
    decreases |s|
  {
    if s == [] then [] else
    var e := IndexOf(s, DOT, 0);
    [s[..e]] + if e < |s| then Labels(s[e + 1..]) else []
  }

  function Prefixed(l: seq<byte>): seq<byte> {
    [(|l| % 256) as byte] + l
  }

  // Length-prefixed labels.
  function Encoded(v: seq<seq<byte>>): seq<byte> {
    if v == [] then [] else Encoded(v[..|v| - 1]) + Prefixed(v[|v| - 1])
  }

  predicate GoodLabels(v: seq<seq<byte>>) {
    forall i :: 0 <= i < |v| ==> 0 < |v[i]| <= LABEL_MAX
  }

  // The names that get a query.
  predicate GoodName(s: seq<byte>) {
    GoodLabels(Labels(s)) && |Encoded(Labels(s))| <= NAME_MAX
  }

  function Header(id: nat): seq<byte> {
    [(id / 256 % 256) as byte, (id % 256) as byte, 1, 0, 0, 1, 0, 0, 0, 0, 0, 0]
  }

  const QUESTION_END: seq<byte> := [0, 0, 1, 0, 1]  // the root label, type A, class IN

  function Query(id: nat, v: seq<seq<byte>>): seq<byte>
    requires GoodLabels(v)
  {
    Header(id) + Encoded(v) + QUESTION_END
  }

  // The labels at m[at..] up to the root label, pointers not followed.
  function Decoded(m: seq<byte>, at: nat): seq<seq<byte>>
    decreases |m| - at
  {
    if at >= |m| || m[at] == 0 || at + 1 + m[at] as nat > |m| then []
    else [m[at + 1..at + 1 + m[at] as nat]] + Decoded(m, at + 1 + m[at] as nat)
  }

  // Past a name: a root label or a pointer ends it; -1 if it runs off the end.
  function Skipped(m: seq<byte>, at: nat): (e: int)
    ensures e == -1 || at < e <= |m| + 1
    decreases |m| - at
  {
    if at >= |m| then -1
    else if m[at] == 0 then at + 1
    else if m[at] >= 192 then at + 2
    else Skipped(m, at + m[at] as nat + 1)
  }

  method DnsSkip(m: array<byte>, len: nat, at0: nat) returns (e: int)
    requires len <= m.Length
    ensures e == Skipped(m[..len], at0)
  {
    var at := at0;
    while at < len
      invariant at0 <= at && Skipped(m[..len], at) == Skipped(m[..len], at0)
      decreases len - at
    {
      var l := m[at];
      assert m[..len][at] == l;
      if l == 0 {
        return at + 1;
      }
      if l >= 192 {
        return at + 2;
      }
      at := at + l as nat + 1;
    }
    return -1;
  }

  lemma {:induction false} EncodedFirst(v: seq<seq<byte>>)
    requires v != []
    ensures Encoded(v) == Prefixed(v[0]) + Encoded(v[1..])
  {
    hide Prefixed, Encoded;
    EncodedLast(v);
    if |v| > 1 {
      EncodedFirst(v[..|v| - 1]);
      EncodedLast(v[1..]);
      assert v[..|v| - 1][1..] == v[1..][..|v| - 2] && v[1..][|v| - 2] == v[|v| - 1];
    } else {
      NothingEncoded();
      assert v[..0] == [] && v[1..] == [];
    }
  }

  lemma EncodedLast(v: seq<seq<byte>>)
    ensures v != [] ==> Encoded(v) == Encoded(v[..|v| - 1]) + Prefixed(v[|v| - 1])
  {}

  // Encoded labels, wherever they stand, are read as these labels and skipped exactly.
  lemma {:induction false} LabelsAt(m: seq<byte>, at: nat, v: seq<seq<byte>>)
    requires GoodLabels(v) && Has(m, at, Encoded(v))
    ensures Decoded(m, at) == v + Decoded(m, at + |Encoded(v)|) && Skipped(m, at) == Skipped(m, at + |Encoded(v)|)
    decreases |v|
  {
    hide Encoded, Decoded, Skipped, Prefixed;
    if v != [] {
      EncodedFirst(v);
      HasBoth(m, at, Prefixed(v[0]), Encoded(v[1..]));
      LabelAt(m, at, v[0]);
      LabelsAt(m, at + 1 + |v[0]|, v[1..]);
      assert v == [v[0]] + v[1..];
    } else {
      NothingEncoded();
    }
  }

  lemma NothingEncoded()
    ensures Encoded([]) == []
  {}

  lemma LabelAt(m: seq<byte>, at: nat, l: seq<byte>)
    requires 0 < |l| <= LABEL_MAX && Has(m, at, Prefixed(l))
    ensures |Prefixed(l)| == 1 + |l|
    ensures Decoded(m, at) == [l] + Decoded(m, at + 1 + |l|) && Skipped(m, at) == Skipped(m, at + 1 + |l|)
  {
    var w := m[at..at + 1 + |l|];
    assert w[0] == m[at] && w[1..] == l;
    assert m[at + 1..at + 1 + |l|] == w[1..];
  }

  lemma HeaderIs(id: nat)
    ensures var q := Header(id);
            |q| == 12 && Word(q, 0) == id % 65536 && q[2..6] == [1, 0, 0, 1] && forall i :: 6 <= i < 12 ==> q[i] == 0
  {
    LowWord(id);
  }

  lemma LowWord(id: nat)
    ensures id / 256 % 256 * 256 + id % 256 == id % 65536
  {}

  // The query's name decodes to the labels between the dots, and dns_skip lands on the type.
  lemma QueryDecodes(id: nat, v: seq<seq<byte>>)
    requires GoodLabels(v)
    ensures var q := Query(id, v);
            Decoded(q, 12) == v && Skipped(q, 12) == |q| - 4 && q[|q| - 4..] == [0, 1, 0, 1]
    ensures var q := Query(id, v);
            && Word(q, 0) == id % 65536 && q[2] == 1 && q[3] == 0     // recursion desired, nothing else
            && q[4] == 0 && q[5] == 1                                 // one question
            && forall i :: 6 <= i < 12 ==> q[i] == 0                  // no other records
  {
    hide Encoded, Decoded, Skipped;
    HeaderIs(id);
    var q := Query(id, v);
    QueryParts(Header(id), Encoded(v), q);
    assert forall i :: 0 <= i < 12 ==> q[i] == q[..12][i];
    LabelsAt(q, 12, v);
    RootEnds(q, 12 + |Encoded(v)|);
    assert v + [] == v;
  }

  lemma RootEnds(q: seq<byte>, at: nat)
    requires at < |q| && q[at] == 0
    ensures Decoded(q, at) == [] && Skipped(q, at) == at + 1
  {}

  lemma QueryParts(h: seq<byte>, e: seq<byte>, q: seq<byte>)
    requires q == h + e + QUESTION_END && |h| == 12
    ensures q[..12] == h && q[12..12 + |e|] == e && q[12 + |e|] == 0 && q[|q| - 4..] == [0, 1, 0, 1]
  {
    assert q[12 + |e|..] == QUESTION_END;
  }

  // What has been written of a name, and what of it is left.
  lemma LabelNext(s: seq<byte>, i: nat, done: seq<seq<byte>>)
    requires i < |s| && Labels(s) == done + Labels(s[i..])
    ensures var e := IndexOf(s, DOT, i);
            && Labels(s) == done + [s[i..e]] + Labels(if e < |s| then s[e + 1..] else [])
            && s[i..][..e - i] == s[i..e]
  {
    hide *;
    DotShift(s, i, 0);
    var e := IndexOf(s, DOT, i);
    var u := s[i..];
    LabelsUnfold(u);
    assert u[..e - i] == s[i..e];
    if e < |s| {
      assert u[e - i + 1..] == s[e + 1..];
    }
  }

  lemma LabelsUnfold(s: seq<byte>)
    requires s != []
    ensures var e := IndexOf(s, DOT, 0); Labels(s) == [s[..e]] + if e < |s| then Labels(s[e + 1..]) else Labels([])
  {}

  lemma {:induction false} DotShift(s: seq<byte>, i: nat, k: nat)
    requires i + k <= |s|
    ensures IndexOf(s[i..], DOT, k) + i == IndexOf(s, DOT, i + k)
    decreases |s| - i - k
  {
    if i + k < |s| && s[i + k] != DOT {
      DotShift(s, i, k + 1);
    }
  }

  lemma EncodedAppend(v: seq<seq<byte>>, l: seq<byte>)
    ensures Encoded(v + [l]) == Encoded(v) + Prefixed(l)
  {
    assert (v + [l])[..|v|] == v;
  }

  lemma {:induction false} EncodedPrefix(v: seq<seq<byte>>, w: seq<seq<byte>>)
    ensures |Encoded(v)| <= |Encoded(v + w)|
    decreases |w|
  {
    if w != [] {
      assert (v + w)[..|v + w| - 1] == v + w[..|w| - 1];
      EncodedPrefix(v, w[..|w| - 1]);
    } else {
      assert v + w == v;
    }
  }

  // The query for a name, refused exactly when a label is empty or too long or the whole does
  // not fit; the buffer is never overrun.
  method BuildQuery(name: seq<byte>, id: nat) returns (ok: bool, q: array<byte>, qn: nat)
    ensures fresh(q) && q.Length == QUERY && (ok <==> GoodName(name))
    ensures ok ==> qn <= QUERY && q[..qn] == Query(id, Labels(name))
  {
    hide *;
    Sizes(id);
    q := new byte[QUERY];
    PutBytes(q, 0, Header(id));
    qn := 12;
    var i := 0;
    ghost var done: seq<seq<byte>> := [];
    assert name[0..] == name;
    NoLabels(name);
    assert q[..12] == Header(id) + Encoded(done);
    while i < |name|
      invariant i <= |name| && Labels(name) == done + Labels(name[i..]) && GoodLabels(done)
      invariant qn == 12 + |Encoded(done)| <= 12 + NAME_MAX && q[..qn] == Header(id) + Encoded(done)
      decreases |name| - i
    {
      var e := IndexOf(name, DOT, i);
      var l := e - i;
      ghost var rest := Labels(if e < |name| then name[e + 1..] else []);
      LabelNext(name, i, done);
      LabelTaken(done, name[i..e], rest);
      if l <= 0 || l > 63 || qn + l + 6 > 290 {
        NotGood(name, done + [name[i..e]] + rest);
        return false, q, 0;
      }
      PutBytes(q, qn, [l as byte]);
      PutBytes(q, qn + 1, name[i..e]);
      OnePrefixed(name[i..e]);
      Behind(Header(id), Encoded(done), name[i..e]);
      qn := qn + 1 + l;
      done := done + [name[i..e]];
      i := if e < |name| then e + 1 else e;
      assert name[i..] == if e < |name| then name[e + 1..] else [];
    }
    NoLabels(name[i..]);
    assert done + [] == done;
    NotGood(name, done);
    PutBytes(q, qn, QUESTION_END);
    IsQuery(id, done);
    return true, q, qn + 5;
  }

  method PutBytes(q: array<byte>, qn: nat, s: seq<byte>)
    requires qn + |s| <= q.Length
    modifies q
    ensures q[..qn + |s|] == old(q[..qn]) + s
  {
    forall k | 0 <= k < |s| {
      q[qn + k] := s[k];
    }
    assert q[..qn] == old(q[..qn]) && q[qn..qn + |s|] == s;
  }

  lemma Sizes(id: nat)
    ensures |Header(id)| == 12 && |QUESTION_END| == 5 && QUERY == 300 && NAME_MAX == 273 && LABEL_MAX == 63
  {}

  lemma Behind(h: seq<byte>, e: seq<byte>, l: seq<byte>)
    ensures h + (e + Prefixed(l)) == h + e + [(|l| % 256) as byte] + l
  {}

  lemma NotGood(s: seq<byte>, v: seq<seq<byte>>)
    requires Labels(s) == v
    ensures GoodName(s) <==> GoodLabels(v) && |Encoded(v)| <= NAME_MAX
  {}

  lemma IsQuery(id: nat, v: seq<seq<byte>>)
    requires GoodLabels(v)
    ensures Query(id, v) == Header(id) + Encoded(v) + QUESTION_END
  {}

  lemma NoLabels(s: seq<byte>)
    ensures s == [] ==> Labels(s) == []
    ensures GoodLabels([]) && Encoded([]) == [] && [] + Labels(s) == Labels(s)
  {}

  lemma OnePrefixed(l: seq<byte>)
    ensures Prefixed(l) == [(|l| % 256) as byte] + l
    ensures |l| < 256 ==> |l| % 256 == |l|
  {}

  // Taking one more label: the name as a whole is good only if this one is and it still fits.
  lemma LabelTaken(done: seq<seq<byte>>, l: seq<byte>, rest: seq<seq<byte>>)
    requires GoodLabels(done)
    ensures GoodLabels(done + [l]) <==> 0 < |l| <= LABEL_MAX
    ensures |Encoded(done + [l])| == |Encoded(done)| + 1 + |l| && Encoded(done + [l]) == Encoded(done) + Prefixed(l)
    ensures GoodLabels(done + [l] + rest) ==> 0 < |l| <= LABEL_MAX
    ensures |Encoded(done + [l])| <= |Encoded(done + [l] + rest)|
  {
    EncodedAppend(done, l);
    EncodedPrefix(done + [l], rest);
    assert (done + [l])[|done|] == l;
    assert (done + [l] + rest)[|done|] == l;
  }

  function Dotted(v: seq<seq<byte>>): seq<byte> {
    if v == [] then [] else if |v| == 1 then v[0] else v[0] + [DOT] + Dotted(v[1..])
  }

  // Splitting loses nothing but a dot at the end.
  lemma {:induction false} LabelsJoin(s: seq<byte>)
    ensures s == Dotted(Labels(s)) || s == Dotted(Labels(s)) + [DOT]
    ensures forall i :: 0 <= i < |Labels(s)| ==> DOT !in Labels(s)[i]
    decreases |s|
  {
    hide Labels, Dotted;
    EmptyName();
    if s != [] {
      var e := IndexOf(s, DOT, 0);
      LabelsUnfold(s);
      assert s[..e] == s[0..e];
      var u := if e < |s| then s[e + 1..] else [];
      assert e < |s| ==> s == s[..e] + [DOT] + u;
      LabelsJoin(u);
      DottedUnfold(s[..e], Labels(u));
      NamedLabels(u);
    }
  }

  lemma EmptyName()
    ensures Labels([]) == [] && Dotted([]) == []
  {}

  lemma NamedLabels(s: seq<byte>)
    ensures s != [] ==> Labels(s) != []
  {}

  lemma DottedUnfold(l: seq<byte>, v: seq<seq<byte>>)
    ensures Dotted([l] + v) == if v == [] then l else l + [DOT] + Dotted(v)
  {
    assert ([l] + v)[1..] == v;
  }

  function Word(m: seq<byte>, at: nat): nat
    requires at + 2 <= |m|
  {
    m[at] as nat * 256 + m[at + 1] as nat
  }

  // The first address among the n resource records from m[at..] on, up to one that is cut short.
  function FirstAddress(m: seq<byte>, at: nat, n: nat): seq<byte>
    decreases n
  {
    if n == 0 || at + 10 > |m| then []
    else
      var s := Skipped(m, at);
      if s < 0 || s + 10 > |m| then []
      else
        var len := Word(m, s + 8);
        if Word(m, s) == 1 && len == 4 && s + 14 <= |m| then m[s + 10..s + 14]
        else FirstAddress(m, s + 10 + len, n - 1)
  }

  function Answer(m: seq<byte>): seq<byte>
    requires |m| >= 12
  {
    var q := Skipped(m, 12);
    if q < 0 then [] else FirstAddress(m, q + 4, Word(m, 6))
  }

  function Address(b: seq<byte>): nat
    requires |b| == 4
  {
    b[0] as nat * 0x100_0000 + b[1] as nat * 0x1_0000 + b[2] as nat * 0x100 + b[3] as nat
  }

  // The most significant byte comes first.
  predicate InNetworkOrder(ip: nat, b: seq<byte>)
    requires |b| == 4
  {
    && ip / 256 / 256 / 256 == b[0] as nat && ip / 256 / 256 % 256 == b[1] as nat
    && ip / 256 % 256 == b[2] as nat && ip % 256 == b[3] as nat
  }

  lemma AddressBytes(a: byte, b: byte, c: byte, d: byte)
    ensures InNetworkOrder(a as nat * 0x100_0000 + b as nat * 0x1_0000 + c as nat * 0x100 + d as nat, [a, b, c, d])
  {
    var x: nat, y: nat := a as nat * 256 + b as nat, (a as nat * 256 + b as nat) * 256 + c as nat;
    LastByte(a as nat, b);
    LastByte(x, c);
    LastByte(y, d);
    assert a as nat * 0x100_0000 + b as nat * 0x1_0000 + c as nat * 0x100 + d as nat == y * 256 + d as nat;
  }

  lemma LastByte(n: nat, b: byte)
    ensures (n * 256 + b as nat) / 256 == n && (n * 256 + b as nat) % 256 == b as nat
  {}

  // The walk over the answers of whatever came back: every byte it looks at lies within the
  // reply (the array may be no longer than that), and it finds the first address there is.
  method AnswerWalk(r: array<byte>, rn: nat) returns (found: bool, ip: nat)
    requires 12 <= rn <= r.Length
    ensures found <==> Answer(r[..rn]) != []
    ensures found ==> |Answer(r[..rn])| == 4 && ip == Address(Answer(r[..rn])) && InNetworkOrder(ip, Answer(r[..rn]))
  {
    hide Skipped, FirstAddress, Word, InNetworkOrder;
    ip := 0;
    var an := r[6] as nat * 256 + r[7] as nat;
    var q := DnsSkip(r, rn, 12);
    ghost var m := r[..rn];
    if q < 0 {
      return false, 0;
    }
    WordIs(r, rn, 6);
    var at: nat := q + 4;
    var a := 0;
    while a < an && at > 0 && at + 10 <= rn
      invariant a <= an && at > 0 && FirstAddress(m, at, an - a) == Answer(m)
      decreases an - a
    {
      AddressNext(m, at, an - a);
      var s := DnsSkip(r, rn, at);
      if s < 0 || s + 10 > rn {
        return false, 0;
      }
      at := s;
      WordIs(r, rn, at);
      WordIs(r, rn, at + 8);
      var kind := r[at] as nat * 256 + r[at + 1] as nat;
      var rdlen := r[at + 8] as nat * 256 + r[at + 9] as nat;
      at := at + 10;
      if kind == 1 && rdlen == 4 && at + 4 <= rn {
        ip := r[at] as nat * 0x100_0000 + r[at + 1] as nat * 0x1_0000 + r[at + 2] as nat * 0x100 + r[at + 3] as nat;
        AddressBytes(r[at], r[at + 1], r[at + 2], r[at + 3]);
        assert m[at..at + 4] == [r[at], r[at + 1], r[at + 2], r[at + 3]];
        return true, ip;
      }
      at := at + rdlen;
      a := a + 1;
    }
    AddressNext(m, at, an - a);
    return false, 0;
  }

  // A reply to the query with this identifier; another is passed over.
  predicate Ours(id: seq<byte>, m: seq<byte>)
    requires |id| == 2
  {
    |m| >= 12 && m[0] == id[0] && m[1] == id[1]
  }

  // One that carries an address and no error code.
  predicate Gives(id: seq<byte>, m: seq<byte>)
    requires |id| == 2
  {
    Ours(id, m) && m[3] % 16 == 0 && Answer(m) != []
  }

  // One after which no further try is made.
  predicate Settles(id: seq<byte>, m: seq<byte>)
    requires |id| == 2
  {
    Ours(id, m) && (m[3] % 16 != 0 || Skipped(m, 12) < 0 || Answer(m) != [])
  }

  // The two tries of a lookup, given what comes back on each: an address is found exactly when
  // a reply gives one and none before it put an end to the tries, and it is that reply's.
  method TwoTries(id: seq<byte>, replies: seq<seq<byte>>) returns (found: bool, ip: nat)
    requires |id| == 2 && |replies| == 2
    ensures found <==> exists k :: 0 <= k < 2 && Gives(id, replies[k]) && !(k == 1 && Settles(id, replies[0]))
    ensures found ==> exists k :: 0 <= k < 2 && Gives(id, replies[k]) && !(k == 1 && Settles(id, replies[0])) &&
                                  |Answer(replies[k])| == 4 && ip == Address(Answer(replies[k]))
  {
    hide Answer, Skipped;
    found, ip := false, 0;
    var attempt := 0;
    while attempt < 2 && !found
      invariant 0 <= attempt <= 2
      invariant !found ==> forall k :: 0 <= k < attempt ==> !Gives(id, replies[k]) && !Settles(id, replies[k])
      invariant found ==> attempt > 0 && Gives(id, replies[attempt - 1]) && !(attempt == 2 && Settles(id, replies[0]))
      invariant found ==> |Answer(replies[attempt - 1])| == 4 && ip == Address(Answer(replies[attempt - 1]))
    {
      var m := replies[attempt];
      attempt := attempt + 1;
      if |m| < 12 || m[0] != id[0] || m[1] != id[1] {
        continue;
      }
      if m[3] % 16 != 0 {
        break;
      }
      var r := new byte[|m|](i requires 0 <= i < |m| => m[i]);
      assert r[..|m|] == m;
      var q := DnsSkip(r, |m|, 12);
      if q < 0 {
        NoName(m);
        break;
      }
      found, ip := AnswerWalk(r, |m|);
    }
  }

  lemma NoName(m: seq<byte>)
    requires |m| >= 12 && Skipped(m, 12) < 0
    ensures Answer(m) == []
  {}

  lemma WordIs(r: array<byte>, rn: nat, at: nat)
    requires at + 2 <= rn <= r.Length
    ensures Word(r[..rn], at) == r[at] as nat * 256 + r[at + 1] as nat
  {}

  lemma AddressNext(m: seq<byte>, at: nat, n: nat)
    ensures FirstAddress(m, at, n)
            == if n == 0 || at + 10 > |m| then []
               else
                 var s := Skipped(m, at);
                 if s < 0 || s + 10 > |m| then []
                 else if Word(m, s) == 1 && Word(m, s + 8) == 4 && s + 14 <= |m| then m[s + 10..s + 14]
                 else FirstAddress(m, s + 10 + Word(m, s + 8), n - 1)
  {}

  // A record as a server writes it: its name as labels or as a pointer, a type, seven bytes
  // of class and time to live, and its data.
  datatype Written = Written(labels: seq<seq<byte>>, pointer: bool, offset: nat, kind: nat, mid: seq<byte>, data: seq<byte>)

  ghost predicate WellWritten(w: Written) {
    && GoodLabels(w.labels) && w.offset < 0x4000 && w.kind < 65536 && |w.mid| == 6 && |w.data| < 65536
  }

  function NameBytes(w: Written): seq<byte> {
    Encoded(w.labels) + if w.pointer then [(192 + w.offset / 256 % 64) as byte, (w.offset % 256) as byte] else [0]
  }

  function Two(n: nat): seq<byte> {
    [(n / 256 % 256) as byte, (n % 256) as byte]
  }

  function RecordBytes(w: Written): seq<byte> {
    NameBytes(w) + Two(w.kind) + w.mid + Two(|w.data|) + w.data
  }

  function AllBytes(ws: seq<Written>): seq<byte> {
    if ws == [] then [] else RecordBytes(ws[0]) + AllBytes(ws[1..])
  }

  // The first address among records as they were meant.
  function FirstMeant(ws: seq<Written>): seq<byte> {
    if ws == [] then [] else if ws[0].kind == 1 && |ws[0].data| == 4 then ws[0].data else FirstMeant(ws[1..])
  }

  lemma TwoRead(m: seq<byte>, at: nat, n: nat)
    requires n < 65536 && Has(m, at, Two(n))
    ensures Word(m, at) == n
  {
    var w := m[at..at + 2];
    assert w[0] == m[at] && w[1] == m[at + 1];
  }

  lemma NameSkipped(m: seq<byte>, at: nat, w: Written)
    requires WellWritten(w) && Has(m, at, NameBytes(w))
    ensures Skipped(m, at) == at + |NameBytes(w)|
  {
    hide Encoded;
    var e := at + |Encoded(w.labels)|;
    var last := NameBytes(w)[|Encoded(w.labels)|..];
    HasBoth(m, at, Encoded(w.labels), last);
    LabelsAt(m, at, w.labels);
    assert m[e] == m[e..e + |last|][0] == last[0];
  }

  lemma RecordAt(m: seq<byte>, at: nat, w: Written)
    requires WellWritten(w) && Has(m, at, RecordBytes(w))
    ensures var s := Skipped(m, at);
            && s >= 0 && s + 10 + |w.data| == at + |RecordBytes(w)| <= |m|
            && Word(m, s) == w.kind && Word(m, s + 8) == |w.data| && m[s + 10..s + 10 + |w.data|] == w.data
  {
    hide NameBytes, Two, Word, Skipped, Has;
    var s := at + |NameBytes(w)|;
    var body := Two(w.kind) + (w.mid + (Two(|w.data|) + w.data));
    assert RecordBytes(w) == NameBytes(w) + body;
    HasBoth(m, at, NameBytes(w), body);
    HasBoth(m, s, Two(w.kind), w.mid + (Two(|w.data|) + w.data));
    TwoLong(w.kind);
    TwoLong(|w.data|);
    HasBoth(m, s + 2, w.mid, Two(|w.data|) + w.data);
    HasBoth(m, s + 8, Two(|w.data|), w.data);
    NameSkipped(m, at, w);
    TwoRead(m, s, w.kind);
    TwoRead(m, s + 8, |w.data|);
  }

  lemma TwoLong(n: nat)
    ensures |Two(n)| == 2
  {}

  lemma {:induction false} RecordsRead(m: seq<byte>, at: nat, ws: seq<Written>)
    requires (forall i :: 0 <= i < |ws| ==> WellWritten(ws[i])) && Has(m, at, AllBytes(ws))
    ensures FirstAddress(m, at, |ws|) == FirstMeant(ws)
    decreases |ws|
  {
    hide RecordBytes, Skipped, Word, WellWritten;
    if ws != [] {
      HasBoth(m, at, RecordBytes(ws[0]), AllBytes(ws[1..]));
      RecordAt(m, at, ws[0]);
      SkipsForward(m, at);
      RecordsRead(m, at + |RecordBytes(ws[0])|, ws[1..]);
    }
  }

  lemma SkipsForward(m: seq<byte>, at: nat)
    ensures Skipped(m, at) >= 0 ==> Skipped(m, at) > at
  {}

  // The walk finds the address a well-formed reply was written to carry, compressed names
  // and other records notwithstanding.
  lemma ReplyRead(head: seq<byte>, v: seq<seq<byte>>, ws: seq<Written>)
    requires |head| == 12 && Word(head, 6) == |ws| && GoodLabels(v)
    requires forall i :: 0 <= i < |ws| ==> WellWritten(ws[i])
    ensures Answer(head + Encoded(v) + QUESTION_END + AllBytes(ws)) == FirstMeant(ws)
  {
    hide Encoded, AllBytes, WellWritten, FirstAddress, Skipped, Word, GoodLabels, FirstMeant, Answer;
    FourPlaced(head, Encoded(v), QUESTION_END, AllBytes(ws));
    ReplyWalk(head + Encoded(v) + QUESTION_END + AllBytes(ws), head, v, ws);
  }

  lemma ReplyWalk(m: seq<byte>, head: seq<byte>, v: seq<seq<byte>>, ws: seq<Written>)
    requires |head| == 12 && head <= m && Word(head, 6) == |ws| && GoodLabels(v)
    requires forall i :: 0 <= i < |ws| ==> WellWritten(ws[i])
    requires var e := 12 + |Encoded(v)|;
             |m| == e + 5 + |AllBytes(ws)| && m[12..e] == Encoded(v) && m[e] == 0 && m[e + 5..|m|] == AllBytes(ws)
    ensures Answer(m) == FirstMeant(ws)
  {
    hide Encoded, AllBytes, WellWritten, FirstAddress, Skipped, Word, GoodLabels, FirstMeant;
    var e := 12 + |Encoded(v)|;
    LabelsAt(m, 12, v);
    RootSkipped(m, e);
    SameWord(head, m, 6);
    RecordsRead(m, e + 5, ws);
  }

  lemma FourPlaced(a: seq<byte>, b: seq<byte>, c: seq<byte>, d: seq<byte>)
    requires c != []
    ensures var m, e := a + b + c + d, |a| + |b|;
            a <= m && m[|a|..e] == b && m[e] == c[0] && m[e + |c|..e + |c| + |d|] == d && |m| == e + |c| + |d|
  {}

  lemma SameWord(head: seq<byte>, m: seq<byte>, at: nat)
    requires head <= m && at + 2 <= |head|
    ensures Word(m, at) == Word(head, at)
  {}

  lemma RootSkipped(m: seq<byte>, e: nat)
    requires e < |m| && m[e] == 0
    ensures Skipped(m, e) == e + 1
  {}
}
