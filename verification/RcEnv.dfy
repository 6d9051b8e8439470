// The environment table.
module RcEnv {
  import opened Bytes
  import opened Format

  const EQUALS: byte := 61

  datatype Slot = NoEntry | Entry(text: CString)

  predicate Named(entry: seq<byte>) {
    IndexOf(entry, EQUALS, 0) < |entry|
  }

  function NameOf(entry: seq<byte>): seq<byte> {
    entry[..IndexOf(entry, EQUALS, 0)]
  }

  function ValueOf(entry: seq<byte>): seq<byte>
    requires Named(entry)
  {
    entry[IndexOf(entry, EQUALS, 0) + 1..]
  }

  // name_matches
  predicate Matches(entry: seq<byte>, name: seq<byte>) {
    |name| < |entry| && entry[..|name|] == name && entry[|name|] == EQUALS
  }

  lemma MatchesIsName(entry: seq<byte>, name: seq<byte>)
    requires EQUALS !in name
    ensures Matches(entry, name) <==> Named(entry) && NameOf(entry) == name
    ensures Matches(entry, name) ==> ValueOf(entry) == entry[|name| + 1..]
  {
    var e := IndexOf(entry, EQUALS, 0);
    assert entry[0..e] == entry[..e];
  }

  // The first entry of that name.
  function Find(es: seq<CString>, name: seq<byte>): (i: int)
    ensures -1 <= i < |es| && (i >= 0 ==> Matches(es[i], name))
    ensures forall k :: 0 <= k < (if i < 0 then |es| else i) ==> !Matches(es[k], name)
  {
    if es == [] then -1
    else
      var i := Find(es[..|es| - 1], name);
      if i >= 0 then i else if Matches(es[|es| - 1], name) then |es| - 1 else -1
  }

  ghost predicate Distinct(es: seq<CString>) {
    forall i, j :: 0 <= i < j < |es| && Named(es[i]) && Named(es[j]) ==> NameOf(es[i]) != NameOf(es[j])
  }

  // The table as a map from names to values.
  ghost function Vars(es: seq<CString>): map<seq<byte>, seq<byte>> {
    map i | 0 <= i < |es| && Named(es[i]) && Find(es, NameOf(es[i])) == i :: NameOf(es[i]) := ValueOf(es[i])
  }

  lemma FindIs(es: seq<CString>, name: seq<byte>, i: int)
    requires -1 <= i < |es| && (i >= 0 ==> Matches(es[i], name))
    requires forall k :: 0 <= k < (if i < 0 then |es| else i) ==> !Matches(es[k], name)
    ensures Find(es, name) == i
  {}

  // A lookup in the table is a lookup in the map.
  lemma VarsLookup(es: seq<CString>, name: seq<byte>)
    requires EQUALS !in name
    ensures name in Vars(es) <==> Find(es, name) >= 0
    ensures name in Vars(es) ==> Vars(es)[name] == ValueOf(es[Find(es, name)])
  {
    var i := Find(es, name);
    if i >= 0 {
      MatchesIsName(es[i], name);
      assert Named(es[i]) && NameOf(es[i]) == name;
    }
    if name in Vars(es) {
      var j :| 0 <= j < |es| && Named(es[j]) && Find(es, NameOf(es[j])) == j && NameOf(es[j]) == name;
    }
  }

  lemma NamesHaveNoEquals(es: seq<CString>, name: seq<byte>)
    requires name in Vars(es)
    ensures EQUALS !in name
  {
    var j :| 0 <= j < |es| && Named(es[j]) && NameOf(es[j]) == name;
    assert es[j][0..IndexOf(es[j], EQUALS, 0)] == name;
  }

  // Two tables that answer every lookup alike, but for one name, are maps alike but for it.
  lemma VarsFrom(es: seq<CString>, was: seq<CString>, name: seq<byte>)
    requires forall k :: EQUALS !in k && k != name ==> (Find(es, k) >= 0 <==> Find(was, k) >= 0)
    requires forall k :: EQUALS !in k && k != name && Find(es, k) >= 0 ==> es[Find(es, k)] == was[Find(was, k)]
    ensures Vars(es) - {name} == Vars(was) - {name}
  {
    hide Vars, Find, Matches, IndexOf;
    forall k
      ensures k in Vars(es) - {name} <==> k in Vars(was) - {name}
      ensures k in Vars(es) - {name} ==> (Vars(es) - {name})[k] == (Vars(was) - {name})[k]
    {
      if k in Vars(es) {
        NamesHaveNoEquals(es, k);
      }
      if k in Vars(was) {
        NamesHaveNoEquals(was, k);
      }
      if EQUALS !in k {
        VarsLookup(es, k);
        VarsLookup(was, k);
      }
    }
  }

  lemma MapRebuilt(m: map<seq<byte>, seq<byte>>, was: map<seq<byte>, seq<byte>>, name: seq<byte>, value: seq<byte>)
    requires m - {name} == was - {name}
    ensures name in m && m[name] == value ==> m == was[name := value]
    ensures name !in m ==> m == was - {name}
  {
    forall k | k != name
      ensures k in m <==> k in was
      ensures k in m ==> m[k] == was[k]
    {
      assert k in m - {name} <==> k in was - {name};
      if k in m {
        assert (m - {name})[k] == (was - {name})[k];
      }
    }
  }

  // Another name does not match an entry of this one.
  lemma OtherName(entry: CString, name: seq<byte>, k: seq<byte>)
    requires Named(entry) && NameOf(entry) == name && EQUALS !in k && k != name
    ensures !Matches(entry, k)
  {
    MatchesIsName(entry, k);
  }

  lemma Appended(es: seq<CString>, entry: CString, name: seq<byte>)
    requires Named(entry) && NameOf(entry) == name && Find(es, name) < 0
    ensures Vars(es + [entry]) == Vars(es)[name := ValueOf(entry)]
    ensures Distinct(es) ==> Distinct(es + [entry])
  {
    hide Vars;
    NameIsPlain(entry);
    var now := es + [entry];
    assert now[..|es|] == es;
    forall k | EQUALS !in k && k != name
      ensures Find(now, k) == Find(es, k)
    {
      OtherName(entry, name, k);
    }
    VarsFrom(now, es, name);
    MatchesIsName(entry, name);
    assert Find(now, name) == |es|;
    VarsLookup(now, name);
    MapRebuilt(Vars(now), Vars(es), name, ValueOf(entry));
    forall i | 0 <= i < |es| && Named(es[i])
      ensures NameOf(es[i]) != name
    {
      MatchesIsName(es[i], name);
    }
  }

  lemma NameIsPlain(entry: CString)
    requires Named(entry)
    ensures EQUALS !in NameOf(entry)
  {
    assert entry[0..IndexOf(entry, EQUALS, 0)] == NameOf(entry);
  }

  lemma Replaced(es: seq<CString>, entry: CString, name: seq<byte>)
    requires Named(entry) && NameOf(entry) == name && Find(es, name) >= 0
    ensures Vars(es[Find(es, name) := entry]) == Vars(es)[name := ValueOf(entry)]
    ensures Distinct(es) ==> Distinct(es[Find(es, name) := entry])
  {
    hide Vars;
    NameIsPlain(entry);
    var i := Find(es, name);
    var now := es[i := entry];
    MatchesIsName(es[i], name);
    MatchesIsName(entry, name);
    forall k | EQUALS !in k && k != name
      ensures Find(now, k) == Find(es, k)
    {
      OtherName(entry, name, k);
      OtherName(es[i], name, k);
      FindIs(now, k, Find(es, k));
    }
    VarsFrom(now, es, name);
    FindIs(now, name, i);
    VarsLookup(now, name);
    MapRebuilt(Vars(now), Vars(es), name, ValueOf(entry));
  }

  function Without(es: seq<CString>, i: int): seq<CString>
    requires 0 <= i < |es|
  {
    es[..i] + es[i + 1..]
  }

  lemma HeldBound(slots: seq<Slot>, es: seq<CString>)
    requires HoldsEntries(slots, es)
    ensures |es| < |slots|
  {}

  lemma Shifted(now: seq<Slot>, was: seq<Slot>, es: seq<CString>, idx: int)
    requires HoldsEntries(was, es) && 0 <= idx < |es| < |was| == |now|
    requires forall k :: idx <= k < |es| ==> now[k] == was[k + 1]
    requires forall k :: 0 <= k < idx ==> now[k] == was[k]
    ensures HoldsEntries(now, Without(es, idx))
  {}

  lemma FindWithout(es: seq<CString>, i: int, k: seq<byte>)
    requires 0 <= i < |es| && !Matches(es[i], k)
    ensures var f := Find(Without(es, i), k);
            Find(es, k) == (if f >= i then f + 1 else f) && (f >= 0 ==> Without(es, i)[f] == es[Find(es, k)])
  {
    hide Matches;
    var now := Without(es, i);
    var f := Find(now, k);
    forall j | 0 <= j < (if f < 0 then |es| else if f >= i then f + 1 else f)
      ensures !Matches(es[j], k)
    {
      if j != i {
        assert es[j] == now[if j < i then j else j - 1];
      }
    }
    FindIs(es, k, if f >= i then f + 1 else f);
  }

  // Removing the first entry of a name removes the name when names are distinct.
  lemma Removed(es: seq<CString>, name: seq<byte>)
    requires EQUALS !in name && Find(es, name) >= 0 && Distinct(es)
    ensures Vars(Without(es, Find(es, name))) == Vars(es) - {name} && Distinct(Without(es, Find(es, name)))
  {
    hide *;
    var i := Find(es, name);
    MatchesIsName(es[i], name);
    WithoutDistinct(es, name);
    forall k | EQUALS !in k && k != name
      ensures var f := Find(Without(es, i), k);
              Find(es, k) == (if f >= i then f + 1 else f) && (f >= 0 ==> Without(es, i)[f] == es[Find(es, k)])
    {
      OtherName(es[i], name, k);
      FindWithout(es, i, k);
    }
    VarsFrom(Without(es, i), es, name);
    VarsLookup(Without(es, i), name);
    MapRebuilt(Vars(Without(es, i)), Vars(es), name, []);
  }

  lemma WithoutDistinct(es: seq<CString>, name: seq<byte>)
    requires EQUALS !in name && Find(es, name) >= 0 && Distinct(es)
    ensures Find(Without(es, Find(es, name)), name) < 0 && Distinct(Without(es, Find(es, name)))
  {
    hide Matches, Named, NameOf;
    var i := Find(es, name);
    var now := Without(es, i);
    MatchesIsName(es[i], name);
    forall j | 0 <= j < |now|
      ensures !Matches(now[j], name) && now[j] == es[if j < i then j else j + 1]
    {
      MatchesIsName(now[j], name);
    }
    FindIs(now, name, -1);
  }

  // The slots hold the entries, a null after them.
  ghost predicate HoldsEntries(slots: seq<Slot>, es: seq<CString>) {
    && |es| < |slots| && slots[|es|] == NoEntry
    && forall i :: 0 <= i < |es| ==> slots[i] == Entry(es[i])
  }

  class Environ {
    var slots: array<Slot>      // environ
    var owned: bool             // the array is ours, not the one the program started with
    var cap: nat
    ghost var entries: seq<CString>

    constructor (start: array<Slot>, ghost es: seq<CString>)
      requires HoldsEntries(start[..], es)
      ensures Valid() && slots == start && !owned && entries == es
    {
      slots, owned, cap, entries := start, false, 0, es;
    }

    ghost predicate Valid()
      reads this, slots
    {
      HoldsEntries(slots[..], entries) && if owned then cap == slots.Length && 2 <= cap else cap == 0
    }

    method Count() returns (n: nat)
      requires Valid()
      ensures n == |entries|
    {
      n := 0;
      while slots[n] != NoEntry
        invariant n <= |entries|
        decreases |entries| - n
      {
        assert slots[..][n] == slots[n];
        n := n + 1;
      }
      assert slots[..][n] == slots[n];
    }

    method FindEntry(name: seq<byte>) returns (i: int)
      requires Valid()
      ensures i == Find(entries, name)
    {
      i := 0;
      while slots[i] != NoEntry
        invariant 0 <= i <= |entries| && forall k :: 0 <= k < i ==> !Matches(entries[k], name)
        decreases |entries| - i
      {
        assert slots[..][i] == slots[i] == Entry(entries[i]);
        if Matches(slots[i].text, name) {
          FindIs(entries, name, i);
          return;
        }
        i := i + 1;
      }
      assert slots[..][i] == slots[i];
      FindIs(entries, name, -1);
      return -1;
    }

    // The one-time copy; the array the program started with is left alone.
    method TakeOwnership()
      requires Valid()
      modifies this
      ensures Valid() && owned && entries == old(entries)
      ensures if old(owned) then slots == old(slots) && cap == old(cap) else fresh(slots)
    {
      if owned {
        return;
      }
      var n := Count();
      var arr := new Slot[n + 8](_ => NoEntry);
      forall i | 0 <= i < n {
        arr[i] := slots[i];
      }
      assert forall i :: 0 <= i < n ==> slots[i] == slots[..][i];
      slots, cap, owned := arr, n + 8, true;
    }

    // Room for one more entry and the null.
    method GrowForOne(n: nat)
      requires Valid() && owned && n == |entries|
      modifies this
      ensures Valid() && owned && entries == old(entries) && n + 2 <= cap
      ensures slots == old(slots) || fresh(slots)
    {
      if n + 2 <= cap {
        return;
      }
      var c := if cap > 0 then cap * 2 else 16;
      var arr := new Slot[c](_ => NoEntry);
      forall i | 0 <= i < cap {
        arr[i] := slots[i];
      }
      assert forall i :: 0 <= i <= n ==> arr[i] == slots[..][i];
      slots, cap := arr, c;
    }

    // An entry put in the place of another of its name, or behind the last.
    method Put(entry: CString, idx: int)
      requires Valid() && owned && -1 <= idx < |entries|
      modifies this, slots
      ensures Valid() && owned && (slots == old(slots) || fresh(slots))
      ensures entries == if idx >= 0 then old(entries)[idx := entry] else old(entries) + [entry]
    {
      if idx >= 0 {
        slots[idx] := Entry(entry);
        entries := entries[idx := entry];
        return;
      }
      var n := Count();
      GrowForOne(n);
      slots[n] := Entry(entry);
      slots[n + 1] := NoEntry;
      entries := entries + [entry];
    }

    method Setenv(name: CString, value: CString, overwrite: bool) returns (r: int)
      requires Valid()
      modifies this, if owned then {slots} else {}
      ensures Valid() && (slots == old(slots) || fresh(slots))
      ensures r == if name == [] || EQUALS in name then -1 else 0
      ensures r != 0 ==> entries == old(entries)
      ensures r == 0 ==>
                Vars(entries) == if name in old(Vars(entries)) && !overwrite then old(Vars(entries)) else old(Vars(entries))[name := value]
      ensures old(Distinct(entries)) ==> Distinct(entries)
    {
      hide Vars, Distinct, Matches;
      if name == [] || EQUALS in name {
        return -1;
      }
      TakeOwnership();
      var idx := FindEntry(name);
      VarsLookup(entries, name);
      if idx >= 0 && !overwrite {
        return 0;
      }
      var entry := name + [EQUALS] + value;
      EntryReads(name, value);
      if idx >= 0 {
        Replaced(entries, entry, name);
      } else {
        Appended(entries, entry, name);
      }
      Put(entry, idx);
      return 0;
    }

    method Unsetenv(name: CString) returns (r: int)
      requires Valid()
      modifies this, if owned then {slots} else {}
      ensures Valid() && (slots == old(slots) || fresh(slots))
      ensures r == if name == [] || EQUALS in name then -1 else 0
      ensures r != 0 ==> entries == old(entries)
      ensures r == 0 && old(Distinct(entries)) ==> Vars(entries) == old(Vars(entries)) - {name} && Distinct(entries)
    {
      hide Vars, Distinct, Matches, HoldsEntries, Without, Find;
      if name == [] || EQUALS in name {
        return -1;
      }
      TakeOwnership();
      var idx := FindEntry(name);
      VarsLookup(entries, name);
      if idx < 0 {
        return 0;
      }
      if Distinct(entries) {
        Removed(entries, name);
      }
      RemoveAt(idx);
      return 0;
    }

    // The entries after it, and the null, moved down by one.
    method RemoveAt(idx: int)
      requires Valid() && owned && 0 <= idx < |entries|
      modifies this`entries, slots
      ensures Valid() && entries == Without(old(entries), idx)
    {
      hide HoldsEntries, Without;
      var n := Count();
      ghost var was := slots[..];
      HeldBound(was, entries);
      var i := idx;
      while i < n
        invariant idx <= i <= n && entries == old(entries)
        invariant forall k :: idx <= k < i ==> slots[k] == was[k + 1]
        invariant forall k :: 0 <= k < idx || i <= k < |was| ==> slots[k] == was[k]
      {
        slots[i] := slots[i + 1];
        i := i + 1;
      }
      Shifted(slots[..], was, entries, idx);
      entries := Without(entries, idx);
    }

    // The caller's own string becomes the entry; one without '=' removes its name.
    method Putenv(text: CString) returns (r: int)
      requires Valid()
      modifies this, if owned then {slots} else {}
      ensures Valid() && (slots == old(slots) || fresh(slots))
      ensures Named(text) ==> r == 0 && Vars(entries) == old(Vars(entries))[NameOf(text) := ValueOf(text)]
      ensures !Named(text) && old(Distinct(entries)) ==>
                && Vars(entries) == (if text == [] then old(Vars(entries)) else old(Vars(entries)) - {text})
                && r == if text == [] then -1 else 0
      ensures old(Distinct(entries)) ==> Distinct(entries)
    {
      hide Vars, Distinct, Matches, Named, NameOf, ValueOf;
      var nlen := IndexOf(text, EQUALS, 0);
      NamedIs(text);
      if nlen == |text| {
        r := Unsetenv(text);
        return;
      }
      TakeOwnership();
      var idx := FindEntry(text[..nlen]);
      if idx >= 0 {
        Replaced(entries, text, NameOf(text));
      } else {
        Appended(entries, text, NameOf(text));
      }
      Put(text, idx);
      return 0;
    }

    // The value as an entry and an offset into it; the /env store is asked when there is none.
    method Getenv(name: CString) returns (found: bool, i: nat, off: nat)
      requires Valid()
      ensures found ==> i < |entries| && off <= |entries[i]| && entries[i][..off] == name + [EQUALS]
      ensures found ==> off > 0 && entries[i][off - 1] as int == '=' as int
      ensures found <==> name != [] && exists k :: 0 <= k < |entries| && name + [EQUALS] <= entries[k]
      ensures found ==> forall k :: 0 <= k < i ==> !(name + [EQUALS] <= entries[k])
      ensures EQUALS !in name && name != [] ==>
                && (found <==> name in Vars(entries))
                && (found ==> Vars(entries)[name] == entries[i][off..])
    {
      hide Vars;
      if name == [] {
        return false, 0, 0;
      }
      var idx := FindEntry(name);
      EntriesBegin(entries, name);
      if idx < 0 {
        if EQUALS !in name {
          VarsLookup(entries, name);
        }
        return false, 0, 0;
      }
      if EQUALS !in name {
        VarsLookup(entries, name);
        MatchesIsName(entries[idx], name);
      }
      return true, idx, |name| + 1;
    }
  }

  lemma EntriesBegin(es: seq<CString>, name: seq<byte>)
    ensures forall k :: 0 <= k < |es| ==> (Matches(es[k], name) <==> name + [EQUALS] <= es[k])
  {
    forall k | 0 <= k < |es| ensures Matches(es[k], name) <==> name + [EQUALS] <= es[k] {
      if |name| < |es[k]| {
        assert es[k][..|name| + 1] == es[k][..|name|] + [es[k][|name|]];
      }
    }
  }

  lemma NamedIs(text: CString)
    ensures var e := IndexOf(text, EQUALS, 0);
            && (Named(text) <==> e < |text|) && NameOf(text) == text[..e] && (e == |text| ==> EQUALS !in text)
  {
    var e := IndexOf(text, EQUALS, 0);
    assert text[0..e] == text[..e];
    if e == |text| {
      assert text[..e] == text;
    }
  }

  lemma EntryReads(name: CString, value: CString)
    requires EQUALS !in name
    ensures var e := name + [EQUALS] + value; Named(e) && NameOf(e) == name && ValueOf(e) == value
  {
    var e := name + [EQUALS] + value;
    assert Matches(e, name);
    MatchesIsName(e, name);
    assert e[|name| + 1..] == value;
  }
}
