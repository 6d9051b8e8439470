// The WebAssembly encoder: LEB128 numbers, vectors, sections, modules.
module MkWasm {
  import opened Bytes

  // Unsigned and signed LEB128: a byte of 128 or more says that another follows.
  ghost predicate Chained(s: seq<byte>) {
    && s != [] && s[|s| - 1] < 128
    && forall i :: 0 <= i < |s| - 1 ==> s[i] >= 128
  }

  // The numbers such bytes denote, by section 5.2.2 of the WebAssembly Core Specification.
  function UVal(s: seq<byte>): int {
    if s == [] then 0
    else if s[0] < 128 then s[0] as int
    else 128 * UVal(s[1..]) + (s[0] as int - 128)
  }

  function SVal(s: seq<byte>): int {
    if s == [] then 0
    else if s[0] < 64 then s[0] as int
    else if s[0] < 128 then s[0] as int - 128
    else 128 * SVal(s[1..]) + (s[0] as int - 128)
  }

  function Uleb(n: nat): (s: seq<byte>)
    ensures s != []
  {
    if n < 128 then [n as byte] else [(n % 128 + 128) as byte] + Uleb(n / 128)
  }

  predicate LastSigned(n: int) {
    (n / 128 == 0 && n % 128 < 64) || (n / 128 == -1 && n % 128 >= 64)
  }

  function Sleb(n: int): (s: seq<byte>)
    ensures s != []
    decreases if n < 0 then -1 - n else n
  {
    if LastSigned(n) then [(n % 128) as byte] else [(n % 128 + 128) as byte] + Sleb(n / 128)
  }

  method EncodeUnsigned(n0: nat) returns (out: seq<byte>)
    ensures out == Uleb(n0)
  {
    out := [];
    var n := n0;
    while true
      invariant n >= 0 && Uleb(n0) == out + Uleb(n)
      decreases n
    {
      var b := n % 128;
      n := n / 128;
      if n != 0 {
        out := out + [(b + 128) as byte];
      } else {
        out := out + [b as byte];
        return;
      }
    }
  }

  method EncodeSigned(n0: int) returns (out: seq<byte>)
    ensures out == Sleb(n0)
  {
    hide Sleb;
    out := [];
    var n := n0;
    var more := true;
    while more
      invariant Sleb(n0) == if more then out + Sleb(n) else out
      decreases more, if n < 0 then -1 - n else n
    {
      SlebNext(n);
      var b := n % 128;
      n := n / 128;
      if (n == 0 && b < 64) || (n == -1 && b >= 64) {
        more := false;
      } else {
        b := b + 128;
      }
      out := out + [b as byte];
    }
  }

  lemma SlebNext(n: int)
    ensures Sleb(n) == if LastSigned(n) then [(n % 128) as byte] else [(n % 128 + 128) as byte] + Sleb(n / 128)
    ensures !LastSigned(n) ==> (if n < 0 then n < n / 128 < 0 else 0 <= n / 128 < n)
  {}

  lemma {:induction false} UlebDecodes(n: nat)
    ensures UVal(Uleb(n)) == n && Chained(Uleb(n))
  {
    if n >= 128 {
      UlebDecodes(n / 128);
      ChainedMore((n % 128 + 128) as byte, Uleb(n / 128));
    }
  }

  lemma {:induction false} SlebDecodes(n: int)
    ensures SVal(Sleb(n)) == n && Chained(Sleb(n))
    decreases if n < 0 then -1 - n else n
  {
    if !LastSigned(n) {
      SlebDecodes(n / 128);
      ChainedMore((n % 128 + 128) as byte, Sleb(n / 128));
    }
  }

  lemma ChainedMore(b: byte, s: seq<byte>)
    requires b >= 128 && Chained(s)
    ensures Chained([b] + s)
  {
    assert ([b] + s)[|s|] == s[|s| - 1];
    assert forall i :: 0 < i < |s| ==> ([b] + s)[i] == s[i - 1];
  }

  lemma ChainedRest(s: seq<byte>)
    requires Chained(s)
    ensures s[0] < 128 <==> |s| == 1
    ensures |s| > 1 ==> Chained(s[1..])
  {
    if |s| > 1 {
      assert s[1..][|s| - 2] == s[|s| - 1];
      assert forall i :: 0 <= i < |s| - 2 ==> s[1..][i] == s[i + 1];
    }
  }

  // No encoding of the same number is shorter.
  lemma {:induction false} UlebShortest(s: seq<byte>)
    requires Chained(s)
    ensures UVal(s) >= 0 && |Uleb(UVal(s))| <= |s|
    decreases |s|
  {
    ChainedRest(s);
    if |s| > 1 {
      UlebShortest(s[1..]);
    }
  }

  lemma {:induction false} SlebShortest(s: seq<byte>)
    requires Chained(s)
    ensures |Sleb(SVal(s))| <= |s|
    decreases |s|
  {
    ChainedRest(s);
    if |s| > 1 {
      SlebShortest(s[1..]);
      assert SVal(s) / 128 == SVal(s[1..]);
    }
  }

  // The number at the start of m and what follows it.
  function LebLen(m: seq<byte>): (k: nat)
    ensures k <= |m|
  {
    if m == [] then 0 else if m[0] < 128 then 1 else 1 + LebLen(m[1..])
  }

  lemma {:induction false} LebRead(s: seq<byte>, rest: seq<byte>)
    requires Chained(s)
    ensures LebLen(s + rest) == |s| && (s + rest)[..|s|] == s && (s + rest)[|s|..] == rest
    ensures UVal(s + rest) == UVal(s)
    decreases |s|
  {
    ChainedRest(s);
    if |s| > 1 {
      LebRead(s[1..], rest);
      assert (s + rest)[1..] == s[1..] + rest;
    }
  }

  function Flat(items: seq<seq<byte>>): seq<byte> {
    if items == [] then [] else items[0] + Flat(items[1..])
  }

  function Vec(items: seq<seq<byte>>): seq<byte> {
    Uleb(|items|) + Flat(items)
  }

  datatype Section = Section(id: byte, body: seq<byte>)

  function SectionBytes(s: Section): seq<byte> {
    [s.id] + (Uleb(|s.body|) + s.body)
  }

  function AllSections(v: seq<Section>): seq<byte> {
    if v == [] then [] else SectionBytes(v[0]) + AllSections(v[1..])
  }

  const MAGIC: seq<byte> := [0, 97, 115, 109, 1, 0, 0, 0]   // "\0asm" and version 1

  function Before(s: Section, rest: Split): Split {
    if rest.None? then None else Sections([s] + rest.v)
  }

  // A reader's split of what follows the magic: an id, a size and so many bytes, again and
  // again; None when the bytes do not come out even.
  datatype Split = None | Sections(v: seq<Section>)

  function SplitSections(m: seq<byte>): Split
    decreases |m|
  {
    if m == [] then Sections([])
    else
      var k := LebLen(m[1..]);
      var size := UVal(m[1..]);
      if size < 0 || 1 + k + size > |m| then None
      else
        Before(Section(m[0], m[1 + k..1 + k + size]), SplitSections(m[1 + k + size..]))
  }

  // Whatever sections were written, a reader gets them back, and so no two lists of sections
  // have the same bytes.
  lemma {:induction false} SectionsSplit(v: seq<Section>)
    ensures SplitSections(AllSections(v)) == Sections(v)
    decreases |v|
  {
    if v != [] {
      SectionsSplit(v[1..]);
      OneSplit(v[0], AllSections(v[1..]));
      assert [v[0]] + v[1..] == v;
    }
  }

  lemma OneSplit(s: Section, rest: seq<byte>)
    requires SplitSections(rest).Sections?
    ensures SplitSections(SectionBytes(s) + rest) == Sections([s] + SplitSections(rest).v)
  {
    hide Uleb, UVal, LebLen, Chained, SplitSections;
    var u, m := Uleb(|s.body|), SectionBytes(s) + rest;
    UlebDecodes(|s.body|);
    LebRead(u, s.body + rest);
    assert m[1..] == u + (s.body + rest);
    SplitNext(m);
    assert m[1 + |u|..1 + |u| + |s.body|] == s.body;
    assert m[1 + |u| + |s.body|..] == rest;
  }

  // One step of the split, without induction on what follows it.
  lemma {:induction false} SplitNext(m: seq<byte>)
    requires m != [] && UVal(m[1..]) >= 0 && 1 + LebLen(m[1..]) + UVal(m[1..]) <= |m|
    ensures var k, size := LebLen(m[1..]), UVal(m[1..]);
            SplitSections(m) == Before(Section(m[0], m[1 + k..1 + k + size]), SplitSections(m[1 + k + size..]))
  {
    hide UVal, LebLen, Before;
  }

  datatype Option<T> = Absent | Present(value: T)

  // What a module is made of; an empty list counts as absent.
  datatype Parts = Parts(types: seq<seq<byte>>, imports: seq<seq<byte>>, funcs: seq<nat>, exports: seq<seq<byte>>,
                         code: seq<seq<byte>>, start: Option<nat>, mem: Option<seq<byte>>, globals: seq<seq<byte>>,
                         table: Option<seq<byte>>, elems: seq<seq<byte>>, data: seq<seq<byte>>)

  function Ulebs(ns: seq<nat>): (v: seq<seq<byte>>)
    ensures |v| == |ns|
  {
    if ns == [] then [] else [Uleb(ns[0])] + Ulebs(ns[1..])
  }

  // The body of the section with this id, if the module has one.
  function BodyOf(p: Parts, id: byte): Option<seq<byte>> {
    match id
    case 1 => if p.types == [] then Absent else Present(Vec(p.types))
    case 2 => if p.imports == [] then Absent else Present(Vec(p.imports))
    case 3 => if p.funcs == [] then Absent else Present(Vec(Ulebs(p.funcs)))
    case 4 => if p.table.Absent? then Absent else Present(Vec([p.table.value]))
    case 5 => if p.mem.Absent? then Absent else Present(Vec([p.mem.value]))
    case 6 => if p.globals == [] then Absent else Present(Vec(p.globals))
    case 7 => if p.exports == [] then Absent else Present(Vec(p.exports))
    case 8 => if p.start.Absent? then Absent else Present(Uleb(p.start.value))
    case 9 => if p.elems == [] then Absent else Present(Vec(p.elems))
    case 10 => if p.code == [] then Absent else Present(Vec(p.code))
    case 11 => if p.data == [] then Absent else Present(Vec(p.data))
    case _ => Absent
  }

  // The sections with ids from `id` on, in the order of their ids.
  function SectionsFrom(p: Parts, id: nat): seq<Section>
    requires id <= 12
    decreases 12 - id
  {
    if id == 12 then []
    else
      match BodyOf(p, id as byte)
      case Absent => SectionsFrom(p, id + 1)
      case Present(b) => [Section(id as byte, b)] + SectionsFrom(p, id + 1)
  }

  ghost predicate Rising(v: seq<Section>) {
    forall i, j :: 0 <= i < j < |v| ==> v[i].id < v[j].id
  }

  lemma {:induction false} IdsRise(p: Parts, id: nat)
    requires id <= 12
    ensures Rising(SectionsFrom(p, id)) && forall i :: 0 <= i < |SectionsFrom(p, id)| ==> id <= SectionsFrom(p, id)[i].id as nat < 12
    decreases 12 - id
  {
    hide BodyOf;
    if id < 12 {
      IdsRise(p, id + 1);
    }
  }

  // Which part of the module the section with each id holds.
  ghost predicate ByPart(p: Parts, v: seq<Section>, b: seq<byte>) {
    && (Section(1, b) in v <==> p.types != [] && b == Vec(p.types))
    && (Section(2, b) in v <==> p.imports != [] && b == Vec(p.imports))
    && (Section(3, b) in v <==> p.funcs != [] && b == Vec(Ulebs(p.funcs)))
    && (Section(4, b) in v <==> p.table.Present? && b == Vec([p.table.value]))
    && (Section(5, b) in v <==> p.mem.Present? && b == Vec([p.mem.value]))
    && (Section(6, b) in v <==> p.globals != [] && b == Vec(p.globals))
    && (Section(7, b) in v <==> p.exports != [] && b == Vec(p.exports))
    && (Section(8, b) in v <==> p.start.Present? && b == Uleb(p.start.value))
    && (Section(9, b) in v <==> p.elems != [] && b == Vec(p.elems))
    && (Section(10, b) in v <==> p.code != [] && b == Vec(p.code))
    && (Section(11, b) in v <==> p.data != [] && b == Vec(p.data))
  }

  lemma SectionsByPart(p: Parts, b: seq<byte>)
    ensures ByPart(p, SectionsFrom(p, 1), b)
  {
    hide SectionsFrom, Vec, Uleb, Ulebs;
    SectionThere(p, 1, 1, b);
    SectionThere(p, 1, 2, b);
    SectionThere(p, 1, 3, b);
    SectionThere(p, 1, 4, b);
    SectionThere(p, 1, 5, b);
    SectionThere(p, 1, 6, b);
    SectionThere(p, 1, 7, b);
    SectionThere(p, 1, 8, b);
    SectionThere(p, 1, 9, b);
    SectionThere(p, 1, 10, b);
    SectionThere(p, 1, 11, b);
  }

  // A vector begins with the number of its items and goes on with these.
  lemma VecRead(items: seq<seq<byte>>)
    ensures UVal(Vec(items)) == |items| && Vec(items)[LebLen(Vec(items))..] == Flat(items)
  {
    hide Uleb, Flat, UVal, LebLen, Chained;
    UlebDecodes(|items|);
    LebRead(Uleb(|items|), Flat(items));
  }

  // A module's bytes after the magic split into exactly the sections it has, each id at most
  // once and the ids rising.
  lemma ModuleSplits(p: Parts)
    ensures var v := SectionsFrom(p, 1);
            && SplitSections(AllSections(v)) == Sections(v) && Rising(v)
            && (forall id: byte, b :: Section(id, b) in v <==> BodyOf(p, id) == Present(b))
            && forall b :: ByPart(p, v, b)
  {
    hide *;
    SectionsSplit(SectionsFrom(p, 1));
    IdsRise(p, 1);
    forall b
      ensures ByPart(p, SectionsFrom(p, 1), b)
    {
      SectionsByPart(p, b);
    }
    forall id: byte, b
      ensures Section(id, b) in SectionsFrom(p, 1) <==> BodyOf(p, id) == Present(b)
    {
      SectionThere(p, 1, id, b);
      NoSectionZero(p);
    }
  }

  lemma NoSectionZero(p: Parts)
    ensures BodyOf(p, 0) == Absent
  {}

  lemma {:induction false} SectionThere(p: Parts, from: nat, id: byte, b: seq<byte>)
    requires 1 <= from <= 12
    ensures Section(id, b) in SectionsFrom(p, from) <==> from <= id as nat && BodyOf(p, id) == Present(b)
    decreases 12 - from
  {
    if from < 12 {
      SectionThere(p, from + 1, id, b);
    }
  }

  // What has been gathered so far, and the sections from id on, make up the module.
  ghost predicate Gathered(parts: seq<seq<byte>>, p: Parts, id: nat)
    requires id <= 12
  {
    Flat(parts) + AllSections(SectionsFrom(p, id)) == MAGIC + AllSections(SectionsFrom(p, 1))
  }

  lemma {:induction false} FlatAppend(parts: seq<seq<byte>>, s: seq<byte>)
    ensures Flat(parts + [s]) == Flat(parts) + s
  {
    if parts != [] {
      assert (parts + [s])[1..] == parts[1..] + [s];
      FlatAppend(parts[1..], s);
    } else {
      assert [] + [s] == [s] && [s][1..] == [];
    }
  }

  // A section with something in it joins the parts.
  method AddSection(parts: seq<seq<byte>>, id: byte, body: Option<seq<byte>>, ghost p: Parts) returns (now: seq<seq<byte>>)
    requires 1 <= id <= 11 && body == BodyOf(p, id) && Gathered(parts, p, id as nat)
    ensures Gathered(now, p, id as nat + 1)
  {
    hide Flat, BodyOf, SectionBytes, Gathered;
    now := parts;
    NextGathered(parts, p, id);
    if body.Present? {
      now := now + [SectionBytes(Section(id, body.value))];
    }
  }

  lemma NextGathered(parts: seq<seq<byte>>, p: Parts, id: byte)
    requires 1 <= id <= 11 && Gathered(parts, p, id as nat)
    ensures match BodyOf(p, id)
            case Absent => Gathered(parts, p, id as nat + 1)
            case Present(b) => Gathered(parts + [SectionBytes(Section(id, b))], p, id as nat + 1)
  {
    hide Flat, BodyOf, SectionBytes, AllSections;
    match BodyOf(p, id)
    case Absent =>
    case Present(b) =>
      var s, rest := Section(id, b), SectionsFrom(p, id as nat + 1);
      FlatAppend(parts, SectionBytes(s));
      FirstSection(s, rest);
      Regrouped(Flat(parts), SectionBytes(s), AllSections(rest));
  }

  lemma Regrouped(a: seq<byte>, b: seq<byte>, c: seq<byte>)
    ensures a + (b + c) == a + b + c
  {}

  lemma FirstSection(s: Section, rest: seq<Section>)
    ensures AllSections([s] + rest) == SectionBytes(s) + AllSections(rest)
  {
    assert ([s] + rest)[1..] == rest;
  }

  method BuildModule(p: Parts) returns (m: seq<byte>)
    ensures m == MAGIC + AllSections(SectionsFrom(p, 1))
  {
    hide Gathered, Vec, Uleb, Ulebs, SectionsFrom, AllSections, Flat;
    var parts: seq<seq<byte>> := [MAGIC];
    JustMagic(p);
    parts := AddSection(parts, 1, if p.types != [] then Present(Vec(p.types)) else Absent, p);
    parts := AddSection(parts, 2, if p.imports != [] then Present(Vec(p.imports)) else Absent, p);
    parts := AddSection(parts, 3, if p.funcs != [] then Present(Vec(Ulebs(p.funcs))) else Absent, p);
    parts := AddSection(parts, 4, if p.table.Present? then Present(Vec([p.table.value])) else Absent, p);
    parts := AddSection(parts, 5, if p.mem.Present? then Present(Vec([p.mem.value])) else Absent, p);
    parts := AddSection(parts, 6, if p.globals != [] then Present(Vec(p.globals)) else Absent, p);
    parts := AddSection(parts, 7, if p.exports != [] then Present(Vec(p.exports)) else Absent, p);
    parts := AddSection(parts, 8, if p.start.Present? then Present(Uleb(p.start.value)) else Absent, p);
    parts := AddSection(parts, 9, if p.elems != [] then Present(Vec(p.elems)) else Absent, p);
    parts := AddSection(parts, 10, if p.code != [] then Present(Vec(p.code)) else Absent, p);
    parts := AddSection(parts, 11, if p.data != [] then Present(Vec(p.data)) else Absent, p);
    AllGathered(parts, p);
    m := Flat(parts);
  }

  lemma JustMagic(p: Parts)
    ensures Gathered([MAGIC], p, 1)
  {
    assert [MAGIC][1..] == [];
  }

  lemma AllGathered(parts: seq<seq<byte>>, p: Parts)
    requires Gathered(parts, p, 12)
    ensures Flat(parts) == MAGIC + AllSections(SectionsFrom(p, 1))
  {
    assert Flat(parts) + [] == Flat(parts);
  }

  // A vector of numbers is read back: its count, then so many numbers.
  function ReadUlebs(m: seq<byte>, n: nat): seq<int>
    decreases n
  {
    if n == 0 then [] else [UVal(m)] + ReadUlebs(m[LebLen(m)..], n - 1)
  }

  lemma {:induction false} UlebsRead(ns: seq<nat>, rest: seq<byte>)
    ensures ReadUlebs(Flat(Ulebs(ns)) + rest, |ns|) == ns
    decreases |ns|
  {
    if ns != [] {
      var u := Uleb(ns[0]);
      var more := Flat(Ulebs(ns[1..])) + rest;
      assert Ulebs(ns)[1..] == Ulebs(ns[1..]);
      assert Flat(Ulebs(ns)) + rest == u + more;
      UlebDecodes(ns[0]);
      LebRead(u, more);
      UlebsRead(ns[1..], rest);
    }
  }

  // The function section gives back the type indices it was made from.
  lemma FuncsRead(p: Parts)
    requires p.funcs != []
    ensures var b := BodyOf(p, 3).value;
            UVal(b) == |p.funcs| && ReadUlebs(b[LebLen(b)..], |p.funcs|) == p.funcs
  {
    hide Uleb, Ulebs, Flat, ReadUlebs, UVal, LebLen, Chained;
    var flat := Flat(Ulebs(p.funcs));
    UlebDecodes(|p.funcs|);
    LebRead(Uleb(|p.funcs|), flat);
    UlebsRead(p.funcs, []);
    assert flat + [] == flat;
  }
}
