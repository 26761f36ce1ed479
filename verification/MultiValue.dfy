/**
 Extended channel values: a packed structure of type, size and a value array, in which several
 values can be nested once its type says so. The operations work on the bytes of the structure.
 */
module MultiValue {
  import opened Common

  const VALUE_SIZE := 1024
  const HEADER_SIZE := 5
  const STRUCT_SIZE := 1029
  const EV_TYPE_NONE: byte := 0
  const EV_TYPE_MULTI_VALUE: byte := 100

  // ----- the bytes of one structure

  function SizeField(s: seq<byte>): u32
    requires |s| >= HEADER_SIZE
  {
    FromLe32(s[1..5])
  }

  function SetSize(s: seq<byte>, size: u32): (r: seq<byte>)
    requires |s| == STRUCT_SIZE
    ensures |r| == STRUCT_SIZE
  {
    Overwrite(s, 1, Le32(size))
  }

  /** Header and value of a size, counted in 32 bits. */
  function EntrySize(size: u32): u32 {
    (HEADER_SIZE + size) % U32_MODULUS
  }

  // ----- adding a value

  datatype Added = Added(ok: bool, dest: seq<byte>)

  /** Whether n bytes behind the first "used" ones, compared with the value array in 32 bits, are inside
      it whenever the comparison says so. */
  predicate FitsIfPassed(used: u32, n: u32) {
    (used + n) % U32_MODULUS <= VALUE_SIZE ==> used + n <= VALUE_SIZE
  }

  /** That is, unless the sum wraps around to a small number. */
  lemma FitsIfPassedIff(used: u32, n: u32)
    ensures FitsIfPassed(used, n) <==> !(U32_MODULUS <= used + n <= U32_MODULUS + VALUE_SIZE)
  {}

  lemma SmallSum(used: u32, size: u32)
    requires used <= VALUE_SIZE + HEADER_SIZE && size <= VALUE_SIZE
    ensures EntrySize(size) == HEADER_SIZE + size && FitsIfPassed(used, EntrySize(size))
    ensures (used + EntrySize(size)) % U32_MODULUS == used + HEADER_SIZE + size
  {}

  function AppendEntry(d: seq<byte>, s: seq<byte>): (r: Added)
    requires |d| == |s| == STRUCT_SIZE && FitsIfPassed(SizeField(d), EntrySize(SizeField(s)))
    ensures |r.dest| == STRUCT_SIZE && (!r.ok ==> r.dest == d)
  {
    var n := EntrySize(SizeField(s));
    var total := (SizeField(d) + n) % U32_MODULUS;
    if total > VALUE_SIZE then Added(false, d)
    else Added(true, SetSize(Overwrite(d, HEADER_SIZE + SizeField(d), s[..n]), total))
  }

  /** A single value becomes the first entry of a multi-value. */
  function Wrap(d: seq<byte>): (r: seq<byte>)
    requires |d| == STRUCT_SIZE && EntrySize(SizeField(d)) <= VALUE_SIZE
    ensures |r| == STRUCT_SIZE
  {
    var n := EntrySize(SizeField(d));
    Overwrite(SetSize(d[0 := EV_TYPE_MULTI_VALUE], n), HEADER_SIZE, d[..n])
  }

  /** All copies of an addition stay inside the structures. */
  predicate AddInside(d: seq<byte>, s: seq<byte>)
    requires |d| == |s| == STRUCT_SIZE
  {
    var used := if d[0] == EV_TYPE_MULTI_VALUE then SizeField(d) else EntrySize(SizeField(d));
    || s[0] == EV_TYPE_NONE || SizeField(s) == 0 || d[0] == EV_TYPE_NONE
    || FitsIfPassed(used, EntrySize(SizeField(s)))
  }

  /** So it is for all values that fit the value array. */
  lemma SmallIsInside(d: seq<byte>, s: seq<byte>)
    requires |d| == |s| == STRUCT_SIZE && SizeField(d) <= VALUE_SIZE && SizeField(s) <= VALUE_SIZE
    ensures AddInside(d, s)
  {}

  function Add(d: seq<byte>, s: seq<byte>): (r: Added)
    requires |d| == |s| == STRUCT_SIZE && AddInside(d, s)
    ensures |r.dest| == STRUCT_SIZE && (!r.ok ==> r.dest == d)
  {
    if s[0] == EV_TYPE_NONE || SizeField(s) == 0 then Added(false, d)
    else if d[0] == EV_TYPE_NONE then Added(true, s)
    else if d[0] == EV_TYPE_MULTI_VALUE then AppendEntry(d, s)
    else if (EntrySize(SizeField(d)) + EntrySize(SizeField(s))) % U32_MODULUS > VALUE_SIZE then Added(false, d)
    else WrapFields(d); AppendEntry(Wrap(d), s)
  }

  lemma SetSizeFields(s: seq<byte>, size: u32)
    requires |s| == STRUCT_SIZE
    ensures SizeField(SetSize(s, size)) == size && SetSize(s, size)[0] == s[0]
    ensures SetSize(s, size)[HEADER_SIZE..] == s[HEADER_SIZE..]
  {
    assert SetSize(s, size)[1..5] == Le32(size);
    Le32RoundTrip(size);
  }

  lemma WrapFields(d: seq<byte>)
    requires |d| == STRUCT_SIZE && EntrySize(SizeField(d)) <= VALUE_SIZE
    ensures Wrap(d)[0] == EV_TYPE_MULTI_VALUE && SizeField(Wrap(d)) == EntrySize(SizeField(d))
    ensures d[..EntrySize(SizeField(d))] <= Wrap(d)[HEADER_SIZE..]
  {
    hide FromLe32, Le32;
    var n := EntrySize(SizeField(d));
    var h := SetSize(d[0 := EV_TYPE_MULTI_VALUE], n);
    SetSizeFields(d[0 := EV_TYPE_MULTI_VALUE], n);
    assert Wrap(d)[..HEADER_SIZE] == h[..HEADER_SIZE];
    assert Wrap(d)[1..5] == h[1..5];
    assert Wrap(d)[HEADER_SIZE..][..n] == d[..n];
  }

  // ----- the list of values behind the bytes

  datatype Value = Value(typ: byte, data: seq<byte>)

  ghost predicate Legal(v: Value) {
    v.typ != EV_TYPE_NONE && v.typ != EV_TYPE_MULTI_VALUE && 0 < |v.data| <= VALUE_SIZE
  }

  function Encode(v: Value): (s: seq<byte>)
    ensures |s| == HEADER_SIZE + |v.data|
  {
    [v.typ] + Le32(|v.data| % U32_MODULUS) + v.data
  }

  function EncodeAll(vs: seq<Value>): seq<byte> {
    if vs == [] then [] else EncodeAll(vs[..|vs| - 1]) + Encode(vs[|vs| - 1])
  }

  /** The structure stores these values: nothing, one value as it is, or a multi-value. */
  ghost predicate Stores(s: seq<byte>, vs: seq<Value>) {
    && |s| == STRUCT_SIZE && SizeField(s) <= VALUE_SIZE
    && (forall v <- vs :: Legal(v))
    && (vs == [] ==> s[0] == EV_TYPE_NONE)
    && (|vs| == 1 ==> Encode(vs[0]) <= s)
    && (|vs| >= 2 ==>
          && s[0] == EV_TYPE_MULTI_VALUE
          && SizeField(s) == |EncodeAll(vs)|
          && EncodeAll(vs) <= s[HEADER_SIZE..])
  }

  lemma EncodeFields(v: Value, s: seq<byte>)
    requires |v.data| < U32_MODULUS && Encode(v) <= s
    ensures s[0] == v.typ && SizeField(s) == |v.data| && s[..HEADER_SIZE + |v.data|] == Encode(v)
  {
    hide FromLe32, Le32;
    assert s[1..5] == Encode(v)[1..5] == Le32(|v.data|);
    Le32RoundTrip(|v.data|);
  }

  lemma EncodeAllSnoc(vs: seq<Value>, v: Value)
    ensures EncodeAll(vs + [v]) == EncodeAll(vs) + Encode(v)
  {
    assert (vs + [v])[..|vs|] == vs;
  }

  lemma EncodeAllOne(v: Value)
    ensures EncodeAll([v]) == Encode(v)
  {
    assert [v][..0] == [];
    assert EncodeAll([v]) == [] + Encode(v);
  }

  /** Writing an entry behind the others and updating the size. */
  lemma AppendBytes(d: seq<byte>, entries: seq<byte>, entry: seq<byte>)
    requires |d| == STRUCT_SIZE && entries <= d[HEADER_SIZE..] && |entries| + |entry| <= VALUE_SIZE
    ensures var r := SetSize(Overwrite(d, HEADER_SIZE + |entries|, entry), |entries| + |entry|);
            && r[0] == d[0] && SizeField(r) == |entries| + |entry|
            && entries + entry <= r[HEADER_SIZE..]
  {
    var o, n := |entries|, |entry|;
    var w := Overwrite(d, HEADER_SIZE + o, entry);
    SetSizeFields(w, o + n);
    assert w[HEADER_SIZE..] == d[HEADER_SIZE..][..o] + entry + d[HEADER_SIZE + o + n..];
    assert w[HEADER_SIZE..][..o + n] == entries + entry;
  }

  lemma AppendEntryStores(d: seq<byte>, s: seq<byte>, vs: seq<Value>, v: Value)
    requires |d| == |s| == STRUCT_SIZE && Legal(v) && Encode(v) <= s && SizeField(s) <= VALUE_SIZE
    requires vs != [] && (forall w <- vs :: Legal(w))
    requires d[0] == EV_TYPE_MULTI_VALUE && SizeField(d) == |EncodeAll(vs)| <= VALUE_SIZE
    requires EncodeAll(vs) <= d[HEADER_SIZE..]
    ensures FitsIfPassed(SizeField(d), EntrySize(SizeField(s)))
    ensures var r := AppendEntry(d, s);
            && r.ok == (|EncodeAll(vs)| + |Encode(v)| <= VALUE_SIZE)
            && (r.ok ==> Stores(r.dest, vs + [v]))
  {
    hide FromLe32, Overwrite, SetSize, EntrySize, FitsIfPassed, SizeField, Encode, EncodeAll;
    EncodeFields(v, s);
    EncodeAllSnoc(vs, v);
    SmallSum(SizeField(d), SizeField(s));
    assert forall w <- vs + [v] :: Legal(w);
    hide Legal;
    if |EncodeAll(vs)| + |Encode(v)| <= VALUE_SIZE {
      AppendBytes(d, EncodeAll(vs), Encode(v));
    }
  }

  /** The second value turns the structure into a multi-value. */
  lemma WrapStores(d: seq<byte>, s: seq<byte>, u: Value, v: Value)
    requires |d| == |s| == STRUCT_SIZE && Legal(u) && Legal(v) && Encode(u) <= d && Encode(v) <= s
    ensures SizeField(d) <= VALUE_SIZE && SizeField(s) <= VALUE_SIZE && AddInside(d, s)
    ensures var r := Add(d, s);
            && r.ok == (|EncodeAll([u])| + |Encode(v)| <= VALUE_SIZE)
            && (r.ok ==> Stores(r.dest, [u, v]))
  {
    hide Encode, EncodeAll, AppendEntry, Wrap, Stores, EntrySize, FitsIfPassed, SizeField, FromLe32;
    EncodeFields(u, d);
    EncodeFields(v, s);
    EncodeAllOne(u);
    SmallSum(0, SizeField(d));
    SmallSum(HEADER_SIZE + SizeField(d), SizeField(s));
    if 2 * HEADER_SIZE + SizeField(d) + SizeField(s) <= VALUE_SIZE {
      WrapFields(d);
      AppendEntryStores(Wrap(d), s, [u], v);
      assert [u] + [v] == [u, v];
    }
  }

  /** Adding to a structure that stores a list extends the list at its end, exactly while the
      encoding fits; the first value always fits. */
  lemma AddStores(d: seq<byte>, s: seq<byte>, vs: seq<Value>, v: Value)
    requires Stores(d, vs) && |s| == STRUCT_SIZE && Legal(v) && Encode(v) <= s
    ensures SizeField(s) <= VALUE_SIZE && AddInside(d, s)
    ensures var r := Add(d, s);
            && r.ok == (vs == [] || |EncodeAll(vs)| + |Encode(v)| <= VALUE_SIZE)
            && Stores(r.dest, if r.ok then vs + [v] else vs)
  {
    hide AppendEntry, Wrap, Encode, EncodeAll, EntrySize, FitsIfPassed;
    EncodeFields(v, s);
    SmallIsInside(d, s);
    if |vs| == 0 {
      assert vs + [v] == [v];
    } else if |vs| == 1 {
      assert vs[0] in vs && vs == [vs[0]] && vs + [v] == [vs[0], v];
      WrapStores(d, s, vs[0], v);
    } else {
      AppendEntryStores(d, s, vs, v);
    }
  }

  // ----- getting a value

  /** Position and number of the bytes to copy out for an index, or why there are none. Outside: the
      walk or the copy would leave the structure. */
  datatype Found = Exhausted | Malformed | Entry(at: nat, length: nat) | Outside

  /** The size an entry declares. */
  function SizeAt(ev: seq<byte>, at: nat): u32
    requires at + HEADER_SIZE <= |ev|
  {
    FromLe32(ev[at + 1..at + 5])
  }

  /** The walk over the entries; all sums are taken in 32 bits. */
  function Find(ev: seq<byte>, size: u32, offset: u32, n: nat, index: nat): (r: Found)
    requires |ev| == STRUCT_SIZE && n <= index
    ensures r.Entry? ==> r.at + r.length <= STRUCT_SIZE
    decreases index - n
  {
    var at := HEADER_SIZE + offset;
    if offset >= size then Exhausted
    else if at >= STRUCT_SIZE then Outside
    else if ev[at] == EV_TYPE_NONE then Malformed
    else if at + HEADER_SIZE > STRUCT_SIZE then Outside
    else
      var next := SizeAt(ev, at);
      var end := (next + offset + HEADER_SIZE) % U32_MODULUS;
      if next == 0 || end > VALUE_SIZE then Malformed
      else if n < index then Find(ev, size, end, n + 1, index)
      else if at + EntrySize(next) > STRUCT_SIZE then Outside
      else Entry(at, EntrySize(next))
  }

  /** What is walked over, in 32 bits. */
  function Window(ev: seq<byte>): u32
    requires |ev| == STRUCT_SIZE
  {
    (Min(SizeField(ev), VALUE_SIZE) - HEADER_SIZE) % U32_MODULUS
  }

  predicate GetInside(ev: seq<byte>, index: nat)
    requires |ev| == STRUCT_SIZE
  {
    ev[0] == EV_TYPE_MULTI_VALUE ==> !Find(ev, Window(ev), 0, 0, index).Outside?
  }

  /** The bytes copied to the destination, or nothing. */
  function Get(ev: seq<byte>, index: nat): (r: Option<seq<byte>>)
    requires |ev| == STRUCT_SIZE && GetInside(ev, index)
    ensures r.Some? ==> |r.value| <= STRUCT_SIZE
  {
    if ev[0] == EV_TYPE_NONE then None
    else
      var found := if ev[0] == EV_TYPE_MULTI_VALUE then Find(ev, Window(ev), 0, 0, index) else Exhausted;
      if found.Entry? then Some(ev[found.at..found.at + found.length])
      else if found.Exhausted? && index == 0 then Some(ev)
      else None
  }

  /** Exactly when an entry that passes the comparison is copied from inside the structure: its sum
      does not wrap, or the number of bytes wraps as well. */
  lemma CopyInsideIff(offset: u32, next: u32)
    requires offset <= VALUE_SIZE - HEADER_SIZE && (next + offset + HEADER_SIZE) % U32_MODULUS <= VALUE_SIZE
    ensures HEADER_SIZE + offset + EntrySize(next) <= STRUCT_SIZE <==>
            next < U32_MODULUS - HEADER_SIZE - offset || U32_MODULUS - HEADER_SIZE <= next
  {}

  /** No entry declares a size whose sum wraps while the number of bytes does not. */
  ghost predicate Tame(ev: seq<byte>)
    requires |ev| == STRUCT_SIZE
  {
    forall at :: HEADER_SIZE <= at <= VALUE_SIZE ==>
                   SizeAt(ev, at) < U32_MODULUS - at || U32_MODULUS - HEADER_SIZE <= SizeAt(ev, at)
  }

  /** With room for a header and such entries only, every lookup stays inside. */
  lemma {:induction false} TameStaysInside(ev: seq<byte>, offset: u32, n: nat, index: nat)
    requires |ev| == STRUCT_SIZE && Tame(ev) && SizeField(ev) >= HEADER_SIZE && n <= index
    ensures !Find(ev, Window(ev), offset, n, index).Outside?
    decreases index - n
  {
    var at := HEADER_SIZE + offset;
    if offset < Window(ev) {
      var next := SizeAt(ev, at);
      var end := (next + offset + HEADER_SIZE) % U32_MODULUS;
      if end <= VALUE_SIZE {
        CopyInsideIff(offset, next);
        if n < index {
          TameStaysInside(ev, end, n + 1, index);
        }
      }
    }
  }

  /** Whether the walk goes on from an entry, and where to. */
  predicate GoesOn(ev: seq<byte>, size: u32, offset: u32)
    requires |ev| == STRUCT_SIZE
  {
    && offset < size && 2 * HEADER_SIZE + offset <= STRUCT_SIZE && ev[HEADER_SIZE + offset] != EV_TYPE_NONE
    && SizeAt(ev, HEADER_SIZE + offset) != 0 && NextOffset(ev, offset) <= VALUE_SIZE
  }

  function NextOffset(ev: seq<byte>, offset: u32): u32
    requires |ev| == STRUCT_SIZE && 2 * HEADER_SIZE + offset <= STRUCT_SIZE
  {
    (SizeAt(ev, HEADER_SIZE + offset) + offset + HEADER_SIZE) % U32_MODULUS
  }

  /** The entry that the walk comes to after k others, if it comes so far. */
  function Reached(ev: seq<byte>, size: u32, offset: u32, k: nat): Option<u32>
    requires |ev| == STRUCT_SIZE
    decreases k
  {
    if k == 0 then Some(offset)
    else if GoesOn(ev, size, offset) then Reached(ev, size, NextOffset(ev, offset), k - 1)
    else None
  }

  /** An entry whose header is cut off by the end of the structure, or whose size makes the sum wrap but
      not the number of bytes. */
  predicate Bad(ev: seq<byte>, size: u32, offset: u32)
    requires |ev| == STRUCT_SIZE
  {
    var at := HEADER_SIZE + offset;
    && offset < size
    && (at >= STRUCT_SIZE ||
        (ev[at] != EV_TYPE_NONE && at + HEADER_SIZE > STRUCT_SIZE) ||
        (GoesOn(ev, size, offset) && U32_MODULUS - at <= SizeAt(ev, at) < U32_MODULUS - HEADER_SIZE))
  }

  lemma {:induction false} BadIsOutside(ev: seq<byte>, size: u32, offset: u32, n: nat, k: nat)
    requires |ev| == STRUCT_SIZE
    requires var o := Reached(ev, size, offset, k); o.Some? && Bad(ev, size, o.value)
    ensures Find(ev, size, offset, n, n + k).Outside?
    decreases k
  {
    hide SizeAt;
    if k > 0 {
      BadIsOutside(ev, size, NextOffset(ev, offset), n + 1, k - 1);
    } else if GoesOn(ev, size, offset) {
      CopyInsideIff(offset, SizeAt(ev, HEADER_SIZE + offset));
    }
  }

  lemma {:induction false} OutsideIsBad(ev: seq<byte>, size: u32, offset: u32, n: nat, index: nat) returns (k: nat)
    requires |ev| == STRUCT_SIZE && n <= index && Find(ev, size, offset, n, index).Outside?
    ensures k <= index - n
    ensures var o := Reached(ev, size, offset, k); o.Some? && Bad(ev, size, o.value)
    decreases index - n
  {
    hide SizeAt;
    k := 0;
    if GoesOn(ev, size, offset) {
      if n < index {
        var j := OutsideIsBad(ev, size, NextOffset(ev, offset), n + 1, index);
        return j + 1;
      }
      CopyInsideIff(offset, SizeAt(ev, HEADER_SIZE + offset));
    }
  }

  /** The walk through the structure comes to a bad entry after k others. */
  predicate ComesToBad(ev: seq<byte>, k: nat)
    requires |ev| == STRUCT_SIZE
  {
    var o := Reached(ev, Window(ev), 0, k);
    o.Some? && Bad(ev, Window(ev), o.value)
  }

  /** Exactly when every lookup stays inside: the walk comes to no bad entry. */
  lemma AllInsideIff(ev: seq<byte>)
    requires |ev| == STRUCT_SIZE && ev[0] == EV_TYPE_MULTI_VALUE
    ensures (forall index: u16 :: GetInside(ev, index)) <==> forall k: u16 :: !ComesToBad(ev, k)
  {
    hide Find, Reached, Bad, Window;
    forall k: u16 | ComesToBad(ev, k) ensures !GetInside(ev, k) {
      BadIsOutside(ev, Window(ev), 0, 0, k);
    }
    forall index: u16 | !GetInside(ev, index) ensures exists k: u16 :: ComesToBad(ev, k) {
      var k := OutsideIsBad(ev, Window(ev), 0, 0, index);
      assert ComesToBad(ev, k);
    }
  }

  /** With room for a header no header is cut off: only the sizes matter. */
  lemma OnlySizesMatter(ev: seq<byte>, offset: u32)
    requires |ev| == STRUCT_SIZE && SizeField(ev) >= HEADER_SIZE
    ensures Bad(ev, Window(ev), offset) <==>
            var at := HEADER_SIZE + offset;
            GoesOn(ev, Window(ev), offset) && U32_MODULUS - at <= SizeAt(ev, at) < U32_MODULUS - HEADER_SIZE
  {
    hide SizeAt, SizeField;
  }

  /** Without that room a lookup may leave the structure: size field 0, and a first entry that fills the
      value array. */
  lemma LookupLeaves(ev: seq<byte>)
    requires |ev| == STRUCT_SIZE && ev[0] == EV_TYPE_MULTI_VALUE && SizeField(ev) == 0
    requires ev[5] == 10 && SizeAt(ev, 5) == 1019
    ensures !GetInside(ev, 1)
  {
    hide SizeAt, SizeField;
    assert Find(ev, Window(ev), 1024, 1, 1) == Outside;
  }

  /** There is such a structure. */
  lemma LookupLeavesAt()
    ensures var ev := [EV_TYPE_MULTI_VALUE] + Le32(0) + [10] + Le32(1019) + Zeros(1019);
            |ev| == STRUCT_SIZE && !GetInside(ev, 1)
  {
    var ev := [EV_TYPE_MULTI_VALUE] + Le32(0) + [10] + Le32(1019) + Zeros(1019);
    Le32RoundTrip(0);
    Le32RoundTrip(1019);
    hide Le32, FromLe32, Zeros;
    assert ev[1..5] == Le32(0) && ev[6..10] == Le32(1019);
    LookupLeaves(ev);
  }

  lemma {:induction false} EncodeAllSplit(vs: seq<Value>, k: nat)
    requires k < |vs|
    ensures EncodeAll(vs[..k]) + Encode(vs[k]) <= EncodeAll(vs)
    ensures |EncodeAll(vs)| >= |EncodeAll(vs[..k])| + |Encode(vs[k])| + if k + 1 < |vs| then HEADER_SIZE else 0
    decreases |vs| - k
  {
    if k + 1 == |vs| {
      assert vs[..|vs| - 1] == vs[..k];
    } else {
      var init := vs[..|vs| - 1];
      EncodeAllSplit(init, k);
      assert init[..k] == vs[..k];
    }
  }

  /** Where the k-th entry of a list starts. */
  ghost function OffsetOf(vs: seq<Value>, k: nat): nat
    requires k <= |vs|
  {
    |EncodeAll(vs[..k])|
  }

  lemma OffsetAtEnd(vs: seq<Value>)
    ensures OffsetOf(vs, |vs|) == |EncodeAll(vs)|
  {
    assert vs[..|vs|] == vs;
  }

  lemma OffsetStep(vs: seq<Value>, k: nat)
    requires k < |vs|
    ensures OffsetOf(vs, k + 1) == OffsetOf(vs, k) + |Encode(vs[k])|
  {
    EncodeAllSnoc(vs[..k], vs[k]);
    assert vs[..k] + [vs[k]] == vs[..k + 1];
  }

  /** The k-th entry of the list is what the bytes hold there; it lies within the declared size, and
      only behind the last one the search is over. */
  lemma EntryAt(ev: seq<byte>, vs: seq<Value>, k: nat)
    requires Stores(ev, vs) && |vs| >= 2 && k < |vs|
    ensures var at := HEADER_SIZE + OffsetOf(vs, k);
            var total := |EncodeAll(vs)|;
            && at + |Encode(vs[k])| <= HEADER_SIZE + total <= STRUCT_SIZE
            && OffsetOf(vs, k) < total - HEADER_SIZE
            && ev[at] == vs[k].typ != EV_TYPE_NONE
            && SizeAt(ev, at) == |vs[k].data| > 0
            && ev[at..at + |Encode(vs[k])|] == Encode(vs[k])
  {
    EncodeAllSplit(vs, k);
    assert vs[k] in vs;
    EncodeFields(vs[k], Encode(vs[k]));
    hide EncodeAll, Encode;
    EntryBytes(ev, EncodeAll(vs), EncodeAll(vs[..k]), Encode(vs[k]));
  }

  lemma EntryBytes(ev: seq<byte>, entries: seq<byte>, before: seq<byte>, entry: seq<byte>)
    requires |ev| == STRUCT_SIZE && entries <= ev[HEADER_SIZE..] && before + entry <= entries && |entry| >= HEADER_SIZE
    ensures var at := HEADER_SIZE + |before|;
            && ev[at..at + |entry|] == entry
            && ev[at + 1..at + 5] == entry[1..5] && ev[at] == entry[0]
  {
    var at := HEADER_SIZE + |before|;
    forall i | 0 <= i < |entry| ensures ev[at + i] == entry[i] {
      assert ev[at + i] == ev[HEADER_SIZE..][|before| + i] == entries[|before| + i] == (before + entry)[|before| + i];
    }
  }

  /** One round of the walk over an entry whose sum does not wrap. */
  lemma FindStep(ev: seq<byte>, size: u32, offset: u32, n: nat, index: nat)
    requires |ev| == STRUCT_SIZE && n <= index && offset < size && HEADER_SIZE + offset <= VALUE_SIZE
    requires var at := HEADER_SIZE + offset;
             ev[at] != EV_TYPE_NONE && 0 < SizeAt(ev, at) && at + SizeAt(ev, at) <= VALUE_SIZE
    ensures var at := HEADER_SIZE + offset;
            Find(ev, size, offset, n, index) ==
            if n < index then Find(ev, size, at + SizeAt(ev, at), n + 1, index)
            else Entry(at, HEADER_SIZE + SizeAt(ev, at))
  {
    hide SizeAt;
  }

  lemma FindEnd(ev: seq<byte>, size: u32, offset: u32, n: nat, index: nat)
    requires |ev| == STRUCT_SIZE && n <= index && offset >= size
    ensures Find(ev, size, offset, n, index).Exhausted?
  {}

  lemma ListSize(ev: seq<byte>, vs: seq<Value>)
    requires Stores(ev, vs) && |vs| >= 2
    ensures HEADER_SIZE <= |EncodeAll(vs)| <= VALUE_SIZE
  {
    EntryAt(ev, vs, 0);
  }

  /** From the k-th entry on, the search finds exactly the entries of the list. */
  lemma {:induction false} FindFrom(ev: seq<byte>, vs: seq<Value>, k: nat, index: nat)
    requires Stores(ev, vs) && |vs| >= 2 && k <= |vs| && k <= index
    ensures HEADER_SIZE <= |EncodeAll(vs)| <= VALUE_SIZE && OffsetOf(vs, k) <= VALUE_SIZE
    ensures var r := Find(ev, |EncodeAll(vs)| - HEADER_SIZE, OffsetOf(vs, k), k, index);
            if index < |vs| then r.Entry? && ev[r.at..r.at + r.length] == Encode(vs[index]) else r.Exhausted?
    decreases |vs| - k
  {
    assert |ev| == STRUCT_SIZE;
    hide Stores, EncodeAll, OffsetOf, Encode, SizeAt, Find, Legal;
    ListSize(ev, vs);
    var size := |EncodeAll(vs)| - HEADER_SIZE;
    if k == |vs| {
      OffsetAtEnd(vs);
      FindEnd(ev, size, OffsetOf(vs, k), k, index);
    } else {
      EntryAt(ev, vs, k);
      OffsetStep(vs, k);
      FindStep(ev, size, OffsetOf(vs, k), k, index);
      if k != index {
        FindFrom(ev, vs, k + 1, index);
      }
    }
  }

  /** The bytes: a single value as it is, several behind type 100 and the size of all entries, each with its
      type, its size, lowest byte first, and its data. */
  lemma StoredBytes(ev: seq<byte>, u: Value, v: Value)
    ensures Stores(ev, [u]) ==>
              |u.data| <= 1024 && |ev| == 1029 && ev[0] == u.typ && ev[5..5 + |u.data|] == u.data
              && Number(ev, 1) == |u.data|
    ensures Stores(ev, [u, v]) ==>
              var m, n := |u.data|, |v.data|;
              && m + n + 10 <= 1024 && |ev| == 1029
              && ev[0] == 100 && Number(ev, 1) == m + n + 10
              && ev[5] == u.typ && Number(ev, 6) == m && ev[10..10 + m] == u.data
              && ev[10 + m] == v.typ && Number(ev, 11 + m) == n && ev[15 + m..15 + m + n] == v.data
  {
    if Stores(ev, [u]) {
      assert [u][0] in [u];
      EncodeFields(u, ev);
      assert Encode(u)[5..] == u.data;
    }
    if Stores(ev, [u, v]) {
      TwoStored(ev, u, v);
    }
  }

  /** Four bytes as a number, lowest first. */
  function Number(s: seq<byte>, at: nat): nat
    requires at + 4 <= |s|
  {
    s[at] as int + 0x100 * s[at + 1] as int + 0x1_0000 * s[at + 2] as int + 0x100_0000 * s[at + 3] as int
  }

  lemma TwoStored(ev: seq<byte>, u: Value, v: Value)
    requires Stores(ev, [u, v])
    ensures var m, n := |u.data|, |v.data|;
            && m + n + 10 <= 1024 && |ev| == 1029
            && ev[0] == 100 && Number(ev, 1) == m + n + 10
            && ev[5] == u.typ && Number(ev, 6) == m && ev[10..10 + m] == u.data
            && ev[10 + m] == v.typ && Number(ev, 11 + m) == n && ev[15 + m..15 + m + n] == v.data
  {
    hide Stores, EncodeAll, Encode, OffsetOf, SizeAt, SizeField, Number, Legal;
    var vs, m := [u, v], |u.data|;
    TwoOffsets(u, v);
    TwoFit(ev, u, v);
    SizeNumbers(ev);
    EntryAt(ev, vs, 0);
    EntryAt(ev, vs, 1);
    EntryData(ev, 5, u);
    EntryData(ev, 10 + m, v);
  }

  lemma TwoOffsets(u: Value, v: Value)
    ensures OffsetOf([u, v], 0) == 0 && OffsetOf([u, v], 1) == 5 + |u.data|
    ensures |EncodeAll([u, v])| == |u.data| + |v.data| + 10
  {
    var vs := [u, v];
    assert vs[..0] == [] && vs[..1] == [u];
    EncodeAllOne(u);
    EncodeAllSnoc([u], v);
    assert [u] + [v] == vs;
    hide Encode;
  }

  lemma TwoFit(ev: seq<byte>, u: Value, v: Value)
    requires Stores(ev, [u, v])
    ensures |ev| == 1029 && ev[0] == 100 && SizeField(ev) == |EncodeAll([u, v])| <= 1024
  {
    hide SizeField, EncodeAll, Legal;
  }

  lemma SizeNumbers(ev: seq<byte>)
    requires |ev| == STRUCT_SIZE
    ensures SizeField(ev) == Number(ev, 1)
    ensures forall at :: 0 <= at <= 1024 ==> SizeAt(ev, at) == Number(ev, at + 1)
  {}

  lemma EntryData(ev: seq<byte>, at: nat, v: Value)
    requires at + 5 + |v.data| <= |ev| && ev[at..at + |Encode(v)|] == Encode(v)
    ensures ev[at + 5..at + 5 + |v.data|] == v.data
  {
    assert ev[at + 5..at + 5 + |v.data|] == ev[at..at + 5 + |v.data|][5..];
  }

  /** Index i yields the i-th value of the list, in the bytes it was added with; any further index
      yields nothing. */
  lemma GetOfStored(ev: seq<byte>, vs: seq<Value>, index: nat)
    requires Stores(ev, vs)
    ensures GetInside(ev, index)
    ensures var r := Get(ev, index);
            if index < |vs| then
              r.Some? && Encode(vs[index]) <= r.value && r.value == (if |vs| == 1 then ev else Encode(vs[index]))
            else r.None?
  {
    hide Find, Encode, SizeField;
    if |vs| == 1 {
      assert vs[0] in vs;
      EncodeFields(vs[0], ev);
    } else if |vs| >= 2 {
      FindFrom(ev, vs, 0, index);
      assert OffsetOf(vs, 0) == 0;
      hide EncodeAll;
      assert Window(ev) == |EncodeAll(vs)| - HEADER_SIZE;
    }
  }

  // ----- runs

  /** The structures of these values, added one after the other. */
  ghost function AddAll(d: seq<byte>, srcs: seq<seq<byte>>): seq<byte>
    requires |d| == STRUCT_SIZE && SizeField(d) <= VALUE_SIZE
    requires forall s <- srcs :: |s| == STRUCT_SIZE && SizeField(s) <= VALUE_SIZE
    decreases |srcs|
  {
    if srcs == [] then d
    else
      assert srcs[0] in srcs;
      SmallIsInside(d, srcs[0]);
      var r := Add(d, srcs[0]);
      if SizeField(r.dest) <= VALUE_SIZE then AddAll(r.dest, srcs[1..]) else r.dest
  }

  /** The values that find room, in order. */
  ghost function Accepted(vs: seq<Value>, more: seq<Value>): seq<Value>
    decreases |more|
  {
    if more == [] then vs
    else if vs == [] || |EncodeAll(vs)| + |Encode(more[0])| <= VALUE_SIZE then Accepted(vs + [more[0]], more[1..])
    else Accepted(vs, more[1..])
  }

  lemma {:induction false} AddAllStores(d: seq<byte>, vs: seq<Value>, srcs: seq<seq<byte>>, more: seq<Value>)
    requires Stores(d, vs) && |srcs| == |more|
    requires forall i :: 0 <= i < |srcs| ==> |srcs[i]| == STRUCT_SIZE && Legal(more[i]) && Encode(more[i]) <= srcs[i]
    ensures forall s <- srcs :: SizeField(s) <= VALUE_SIZE
    ensures Stores(AddAll(d, srcs), Accepted(vs, more))
    decreases |srcs|
  {
    forall s | s in srcs ensures SizeField(s) <= VALUE_SIZE {
      var i :| 0 <= i < |srcs| && srcs[i] == s;
      EncodeFields(more[i], s);
    }
    if srcs != [] {
      AddStores(d, srcs[0], vs, more[0]);
      var r := Add(d, srcs[0]);
      AddAllStores(r.dest, if r.ok then vs + [more[0]] else vs, srcs[1..], more[1..]);
    }
  }

  /** The law of multi-values: after any additions to an empty structure, the values that found room
      come back by index, in order, and nothing else does. */
  lemma AddThenGet(d: seq<byte>, srcs: seq<seq<byte>>, values: seq<Value>, index: nat)
    requires |d| == STRUCT_SIZE && d[0] == EV_TYPE_NONE && SizeField(d) <= VALUE_SIZE
    requires |srcs| == |values|
    requires forall i :: 0 <= i < |srcs| ==>
                           |srcs[i]| == STRUCT_SIZE && Legal(values[i]) && Encode(values[i]) <= srcs[i]
    ensures forall s <- srcs :: SizeField(s) <= VALUE_SIZE
    ensures var ev := AddAll(d, srcs);
            var stored := Accepted([], values);
            && |ev| == STRUCT_SIZE && GetInside(ev, index)
            && var r := Get(ev, index);
               if index < |stored| then r.Some? && Encode(stored[index]) <= r.value else r.None?
  {
    AddAllStores(d, [], srcs, values);
    GetOfStored(AddAll(d, srcs), Accepted([], values), index);
  }

  // ----- the operations in place

  method ValueAdd(dest: array<byte>, src: array<byte>) returns (ok: bool)
    requires dest != src && dest.Length == src.Length == STRUCT_SIZE
    requires AddInside(dest[..], src[..])
    modifies dest
    ensures var r := Add(old(dest[..]), src[..]);
            ok == r.ok && dest[..] == r.dest
    decreases dest[0] != EV_TYPE_MULTI_VALUE
  {
    var d, s := dest[..], src[..];
    if s[0] == EV_TYPE_NONE || SizeField(s) == 0 {
      return false;
    }
    if d[0] == EV_TYPE_NONE {
      CopyTo(dest, 0, s);
      assert Overwrite(d, 0, s) == s;
      return true;
    }
    hide SizeField, AppendEntry, Wrap;
    var srcSize := (STRUCT_SIZE - (VALUE_SIZE - SizeField(s))) % U32_MODULUS;
    assert srcSize == EntrySize(SizeField(s));
    if d[0] == EV_TYPE_MULTI_VALUE {
      ok := AppendInPlace(dest, s, srcSize);
      return;
    }
    var prevSize := (STRUCT_SIZE - (VALUE_SIZE - SizeField(d))) % U32_MODULUS;
    assert prevSize == EntrySize(SizeField(d));
    hide EntrySize;
    if (prevSize + srcSize) % U32_MODULUS > VALUE_SIZE {
      return false;
    }
    WrapInPlace(dest, prevSize);
    WrapFields(d);
    ok := ValueAdd(dest, src);
  }

  /** The branch for a multi-value. */
  method AppendInPlace(dest: array<byte>, s: seq<byte>, srcSize: u32) returns (ok: bool)
    requires dest.Length == |s| == STRUCT_SIZE && srcSize == EntrySize(SizeField(s))
    requires FitsIfPassed(SizeField(dest[..]), srcSize)
    modifies dest
    ensures var r := AppendEntry(old(dest[..]), s);
            ok == r.ok && dest[..] == r.dest
  {
    hide FromLe32, Le32, EntrySize;
    var size := SizeField(dest[..]);
    if (size + srcSize) % U32_MODULUS > VALUE_SIZE {
      return false;
    }
    CopyTo(dest, HEADER_SIZE + size, s[..srcSize]);
    CopyTo(dest, 1, Le32(size + srcSize));
    return true;
  }

  /** The single value becomes the first entry. */
  method WrapInPlace(dest: array<byte>, prevSize: u32)
    requires dest.Length == STRUCT_SIZE && prevSize == EntrySize(SizeField(dest[..])) <= VALUE_SIZE
    modifies dest
    ensures dest[..] == Wrap(old(dest[..]))
  {
    hide FromLe32, Le32, EntrySize, Overwrite;
    var prev := dest[..];
    dest[0] := EV_TYPE_MULTI_VALUE;
    CopyTo(dest, 1, Le32(prevSize));
    CopyTo(dest, HEADER_SIZE, prev[..prevSize]);
  }

  type u16 = x: nat | x < 0x1_0000

  /** The walk over the entries. No index needs more than 65536 rounds, so that the counter of the
      rounds does not wrap. */
  method FindEntry(e: seq<byte>, size: u32, index: u16) returns (r: Found)
    requires |e| == STRUCT_SIZE && !Find(e, size, 0, 0, index).Outside?
    ensures r == Find(e, size, 0, 0, index)
  {
    hide FromLe32;
    var offset: u32, n: u16 := 0, 0;
    while offset < size
      invariant n <= index
      invariant Find(e, size, offset, n, index) == Find(e, size, 0, 0, index)
      decreases index - n
    {
      var at := HEADER_SIZE + offset;
      if e[at] == EV_TYPE_NONE {
        return Malformed;
      }
      var next := SizeAt(e, at);
      if next == 0 || (next + offset + HEADER_SIZE) % U32_MODULUS > VALUE_SIZE {
        return Malformed;
      }
      if n == index {
        return Entry(at, EntrySize(next));
      }
      offset := (offset + (HEADER_SIZE + next)) % U32_MODULUS;
      n := n + 1;
    }
    return Exhausted;
  }

  method ValueGet(ev: array<byte>, index: u16, dest: array<byte>) returns (ok: bool)
    requires dest != ev && dest.Length == ev.Length == STRUCT_SIZE
    requires GetInside(ev[..], index)
    modifies dest
    ensures var r := Get(ev[..], index);
            && ok == r.Some?
            && dest[..] == if ok then Overwrite(old(dest[..]), 0, r.value) else old(dest[..])
  {
    hide FromLe32, Overwrite;
    var e := ev[..];
    if e[0] == EV_TYPE_NONE {
      return false;
    }
    if e[0] == EV_TYPE_MULTI_VALUE {
      var size := SizeField(e);
      if size > VALUE_SIZE {
        size := VALUE_SIZE;
      }
      var found := FindEntry(e, (size - HEADER_SIZE) % U32_MODULUS, index);
      if found.Entry? {
        CopyTo(dest, 0, e[found.at..found.at + found.length]);
        return true;
      }
      if found.Malformed? {
        return false;
      }
    }
    if index == 0 {
      CopyTo(dest, 0, e);
      return true;
    }
    return false;
  }
}
