/**
 Packs of items that end in a caption: sent with each caption cut to its size, received back into
 fixed-size items. One pair of routines serves all pack types; the sizes of the structures are
 parameters.
 */
module CaptionPack {
  import opened Common

  /** A pack structure: a header that starts with the item count, then maxCount items. An item ends
      with its caption size and the caption array. */
  datatype Layout = Layout(headerSize: nat, itemSize: nat, captionMax: nat, maxCount: nat)
  {
    ghost predicate Valid() {
      && 4 <= headerSize && captionMax + 4 <= itemSize
      && maxCount < U32_MODULUS && ItemAt(maxCount) < U32_MODULUS / 2
    }

    /** The item without its caption. */
    function ItemHeader(): int {
      itemSize - captionMax
    }

    /** Where item a starts in a pack in memory. */
    function ItemAt(a: nat): nat {
      headerSize + itemSize * a
    }

    function PackSize(): nat {
      ItemAt(maxCount)
    }
  }

  lemma NextItem(l: Layout, a: nat)
    ensures l.ItemAt(a + 1) == l.ItemAt(a) + l.itemSize
  {}

  lemma ItemsInOrder(l: Layout, a: nat, b: nat)
    requires a <= b
    ensures l.ItemAt(a) <= l.ItemAt(b)
  {
    MulMonotonic(l.itemSize, a, b);
  }

  lemma ItemInPack(l: Layout, a: nat)
    requires a < l.maxCount
    ensures l.ItemAt(a) + l.itemSize == l.ItemAt(a + 1) <= l.PackSize()
  {
    NextItem(l, a);
    ItemsInOrder(l, a + 1, l.maxCount);
  }

  lemma MulMonotonic(x: nat, a: nat, b: nat)
    requires a <= b
    ensures x * a <= x * b
  {}

  /** Locations: a byte, an id, caption size and caption behind two counters. */
  const LOCATION_PACK := Layout(8, 9 + 401, 401, 20)

  lemma LocationPackFits()
    ensures LOCATION_PACK.Valid() && LOCATION_PACK.PackSize() == 8208
  {}

  function CountField(s: seq<byte>): u32
    requires |s| >= 4
  {
    FromLe32(s[..4])
  }

  function SetCount(s: seq<byte>, n: u32): (r: seq<byte>)
    requires |s| >= 4
    ensures |r| == |s|
  {
    Le32(n) + s[4..]
  }

  /** The caption size of the item that starts the bytes. */
  function CaptionSize(l: Layout, s: seq<byte>): u32
    requires l.Valid() && |s| >= l.ItemHeader()
  {
    FromLe32(s[l.ItemHeader() - 4..l.ItemHeader()])
  }

  // ----- the items

  predicate IsItem(l: Layout, item: seq<byte>) {
    |item| == l.itemSize
  }

  predicate LegalCaption(l: Layout, item: seq<byte>)
    requires l.Valid() && IsItem(l, item)
  {
    CaptionSize(l, item) <= l.captionMax
  }

  /** The item as it is sent. */
  function Cut(l: Layout, item: seq<byte>): (s: seq<byte>)
    requires l.Valid() && IsItem(l, item) && LegalCaption(l, item)
    ensures l.ItemHeader() <= |s| <= l.itemSize
  {
    item[..l.ItemHeader() + CaptionSize(l, item)]
  }

  /** The item as it is received: zeros behind the caption. */
  function Padded(l: Layout, s: seq<byte>): (item: seq<byte>)
    requires |s| <= l.itemSize
    ensures IsItem(l, item)
  {
    s + Zeros(l.itemSize - |s|)
  }

  function Legal(l: Layout, items: seq<seq<byte>>): (r: seq<seq<byte>>)
    requires l.Valid() && forall i <- items :: IsItem(l, i)
    ensures |r| <= |items| && forall i <- r :: IsItem(l, i) && LegalCaption(l, i)
  {
    if items == [] then []
    else Legal(l, items[..|items| - 1]) +
         if LegalCaption(l, items[|items| - 1]) then [items[|items| - 1]] else []
  }

  function CutAll(l: Layout, items: seq<seq<byte>>): seq<byte>
    requires l.Valid() && forall i <- items :: IsItem(l, i) && LegalCaption(l, i)
  {
    if items == [] then [] else Cut(l, items[0]) + CutAll(l, items[1..])
  }

  function PadAll(l: Layout, items: seq<seq<byte>>): (r: seq<seq<byte>>)
    requires l.Valid() && forall i <- items :: IsItem(l, i) && LegalCaption(l, i)
    ensures |r| == |items| && forall i <- r :: IsItem(l, i)
  {
    if items == [] then [] else [Padded(l, Cut(l, items[0]))] + PadAll(l, items[1..])
  }

  lemma {:induction false} CutAllSnoc(l: Layout, items: seq<seq<byte>>, item: seq<byte>)
    requires l.Valid() && (forall i <- items :: IsItem(l, i) && LegalCaption(l, i))
    requires IsItem(l, item) && LegalCaption(l, item)
    ensures forall i <- items + [item] :: IsItem(l, i) && LegalCaption(l, i)
    ensures CutAll(l, items + [item]) == CutAll(l, items) + Cut(l, item)
  {
    if items == [] {
      assert CutAll(l, [item]) == Cut(l, item) + [];
    } else {
      assert (items + [item])[1..] == items[1..] + [item];
      CutAllSnoc(l, items[1..], item);
      AppendAssoc(Cut(l, items[0]), CutAll(l, items[1..]), Cut(l, item));
    }
  }

  function ItemOf(l: Layout, pack: seq<byte>, a: nat): (item: seq<byte>)
    requires l.ItemAt(a) + l.itemSize <= |pack|
    ensures IsItem(l, item)
  {
    pack[l.ItemAt(a)..l.ItemAt(a) + l.itemSize]
  }

  /** The n items of a pack in memory. */
  function Items(l: Layout, pack: seq<byte>, n: nat): (items: seq<seq<byte>>)
    requires l.ItemAt(n) <= |pack|
    ensures |items| == n && forall i <- items :: IsItem(l, i)
  {
    if n == 0 then []
    else
      NextItem(l, n - 1);
      Items(l, pack, n - 1) + [ItemOf(l, pack, n - 1)]
  }

  // ----- sending

  /** The bytes sent for the first "count" items: items with an illegal caption size are left out,
      and the count says how many remain. */
  function Packed(l: Layout, pack: seq<byte>, count: nat): seq<byte>
    requires l.Valid() && |pack| == l.PackSize() && count <= l.maxCount
  {
    HeaderInPack(l);
    ItemsInOrder(l, count, l.maxCount);
    var legal := Legal(l, Items(l, pack, count));
    SetCount(pack[..l.headerSize], |legal|) + CutAll(l, legal)
  }

  /** How often memory is asked for: for the header, and to make room for each item sent. */
  function Allocations(l: Layout, pack: seq<byte>, count: nat): nat
    requires l.Valid() && |pack| == l.PackSize() && count <= l.maxCount
  {
    ItemsInOrder(l, count, l.maxCount);
    1 + |Legal(l, Items(l, pack, count))|
  }

  lemma {:induction false} LegalGrows(l: Layout, pack: seq<byte>, a: nat, n: nat)
    requires l.Valid() && a <= n && l.ItemAt(n) <= |pack|
    ensures l.ItemAt(a) <= |pack| && |Legal(l, Items(l, pack, a))| <= |Legal(l, Items(l, pack, n))|
    decreases n - a
  {
    hide Layout.ItemAt, Legal, Items;
    ItemsInOrder(l, a, n);
    if a < n {
      ItemsInOrder(l, a + 1, n);
      NextItem(l, a);
      LegalStep(l, pack, a);
      LegalGrows(l, pack, a + 1, n);
    }
  }

  /** "granted" says how many requests for memory are granted before one is refused. */
  method SetPack(l: Layout, pack: array<byte>, count: int, granted: nat) returns (r: Option<seq<byte>>)
    requires l.Valid() && pack.Length == l.PackSize()
    ensures r == if 1 <= count <= l.maxCount && Allocations(l, pack[..], count) <= granted
                 then Some(Packed(l, pack[..], count)) else None
  {
    if count < 1 || count > l.maxCount {
      return None;
    }
    if granted < 1 {
      return None;
    }
    hide Layout.ItemAt, Layout.PackSize, Layout.Valid, SetCount, CaptionSize, SentSoFar, Allocations, Packed;
    HeaderInPack(l);
    ghost var s := pack[..];
    var buffer := pack[..l.headerSize];
    ghost var header := buffer;
    NothingSentYet(l, s);
    var n := 0;
    var a := 0;
    while a < count
      invariant 0 <= a <= count && l.ItemAt(a) <= |s|
      invariant SentSoFar(l, s, a, n, header, buffer) && n < granted
    {
      ItemInPack(l, a);
      var item := pack[l.ItemAt(a)..l.ItemAt(a) + l.itemSize];
      SendItem(l, s, a, n, header, buffer, count);
      assert item == s[l.ItemAt(a)..l.ItemAt(a) + l.itemSize];
      if CaptionSize(l, item) <= l.captionMax {
        if n + 1 >= granted {
          return None;
        }
        buffer := buffer + item[..l.ItemHeader() + CaptionSize(l, item)];
        n := n + 1;
      }
      a := a + 1;
    }
    AllSent(l, s, a, n, header, buffer);
    SentIsCounted(l, s, a, n, header, buffer, count);
    return Some(SetCount(buffer, n));
  }

  /** The buffer after the first a items, n of them legal. */
  ghost predicate SentSoFar(l: Layout, pack: seq<byte>, a: nat, n: nat, header: seq<byte>, buffer: seq<byte>) {
    && l.Valid() && l.ItemAt(a) <= |pack|
    && n == |Legal(l, Items(l, pack, a))| <= a
    && buffer == header + CutAll(l, Legal(l, Items(l, pack, a)))
  }

  lemma NothingSentYet(l: Layout, pack: seq<byte>)
    requires l.Valid() && l.ItemAt(0) <= |pack| && |pack| >= l.headerSize
    ensures SentSoFar(l, pack, 0, 0, pack[..l.headerSize], pack[..l.headerSize])
  {
    assert pack[..l.headerSize] + [] == pack[..l.headerSize];
  }

  lemma SendStep(l: Layout, pack: seq<byte>, a: nat, n: nat, header: seq<byte>, buffer: seq<byte>)
    requires SentSoFar(l, pack, a, n, header, buffer)
    requires l.ItemAt(a + 1) <= |pack| && l.ItemAt(a + 1) == l.ItemAt(a) + l.itemSize
    ensures l.Valid()
    ensures var item := pack[l.ItemAt(a)..l.ItemAt(a) + l.itemSize];
            if CaptionSize(l, item) <= l.captionMax then
              SentSoFar(l, pack, a + 1, n + 1, header, buffer + item[..l.ItemHeader() + CaptionSize(l, item)])
            else
              SentSoFar(l, pack, a + 1, n, header, buffer)
  {
    hide Layout.ItemAt, CaptionSize, Legal, Items, CutAll;
    var legal := Legal(l, Items(l, pack, a));
    var item := ItemOf(l, pack, a);
    LegalStep(l, pack, a);
    if LegalCaption(l, item) {
      CutAllSnoc(l, legal, item);
      AppendAssoc(header, CutAll(l, legal), Cut(l, item));
    }
  }

  lemma SentIsCounted(l: Layout, pack: seq<byte>, a: nat, n: nat, header: seq<byte>, buffer: seq<byte>, count: nat)
    requires SentSoFar(l, pack, a, n, header, buffer)
    requires |pack| == l.PackSize() && a <= count <= l.maxCount
    ensures n < Allocations(l, pack, count) && (a == count ==> n + 1 == Allocations(l, pack, count))
  {
    hide Layout.ItemAt, Legal, Items, CutAll;
    ItemsInOrder(l, count, l.maxCount);
    LegalGrows(l, pack, a, count);
  }

  /** The a-th of the first "count" items is sent or skipped. */
  lemma SendItem(l: Layout, pack: seq<byte>, a: nat, n: nat, header: seq<byte>, buffer: seq<byte>, count: nat)
    requires SentSoFar(l, pack, a, n, header, buffer) && |pack| == l.PackSize() && a < count <= l.maxCount
    ensures l.Valid() && l.ItemAt(a) + l.itemSize == l.ItemAt(a + 1) <= |pack|
    ensures var item := pack[l.ItemAt(a)..l.ItemAt(a) + l.itemSize];
            var size := CaptionSize(l, item);
            if size <= l.captionMax then
              && l.ItemHeader() + size <= |item|
              && n + 1 < Allocations(l, pack, count)
              && SentSoFar(l, pack, a + 1, n + 1, header, buffer + item[..l.ItemHeader() + size])
            else
              SentSoFar(l, pack, a + 1, n, header, buffer)
  {
    hide SentSoFar, Layout.ItemAt, CaptionSize, Allocations;
    ItemInPack(l, a);
    SendStep(l, pack, a, n, header, buffer);
    var item := pack[l.ItemAt(a)..l.ItemAt(a) + l.itemSize];
    if CaptionSize(l, item) <= l.captionMax {
      SentIsCounted(l, pack, a + 1, n + 1, header, buffer + item[..l.ItemHeader() + CaptionSize(l, item)], count);
    }
  }

  lemma AllSent(l: Layout, pack: seq<byte>, count: nat, n: nat, header: seq<byte>, buffer: seq<byte>)
    requires SentSoFar(l, pack, count, n, header, buffer)
    requires |pack| == l.PackSize() && count <= l.maxCount && l.headerSize <= |pack| && header == pack[..l.headerSize]
    ensures 4 <= |buffer| && n < U32_MODULUS && SetCount(buffer, n) == Packed(l, pack, count)
  {
    hide Layout.ItemAt, Legal, Items, CutAll, SetCount;
    SetCountOfFront(header, CutAll(l, Legal(l, Items(l, pack, count))), n);
  }

  lemma HeaderInPack(l: Layout)
    ensures l.ItemAt(0) == l.headerSize <= l.PackSize()
  {
    ItemsInOrder(l, 0, l.maxCount);
  }

  lemma HeaderBeforeItems(l: Layout)
    ensures l.ItemAt(0) == l.headerSize
  {}

  lemma LegalStep(l: Layout, pack: seq<byte>, a: nat)
    requires l.Valid() && l.ItemAt(a + 1) <= |pack| && l.ItemAt(a + 1) == l.ItemAt(a) + l.itemSize
    ensures var item := ItemOf(l, pack, a);
            Legal(l, Items(l, pack, a + 1)) ==
            if LegalCaption(l, item) then Legal(l, Items(l, pack, a)) + [item] else Legal(l, Items(l, pack, a))
  {
    hide Layout.ItemAt, LegalCaption;
    var items := Items(l, pack, a + 1);
    assert items[..|items| - 1] == Items(l, pack, a) && items[|items| - 1] == ItemOf(l, pack, a);
  }

  lemma SetCountOfFront(front: seq<byte>, rest: seq<byte>, n: u32)
    requires |front| >= 4
    ensures SetCount(front + rest, n) == SetCount(front, n) + rest
  {
    assert (front + rest)[4..] == front[4..] + rest;
  }

  // ----- receiving

  /** The items found in the bytes behind the header, if there are as many as announced. */
  function Scan(l: Layout, s: seq<byte>, count: nat): (r: Option<seq<seq<byte>>>)
    requires l.Valid()
    ensures r.Some? ==> |r.value| == count && forall i <- r.value :: IsItem(l, i)
    decreases count
  {
    if count == 0 then Some([])
    else if |s| < l.ItemHeader() then None
    else
      var n := l.ItemHeader() + CaptionSize(l, s);
      if CaptionSize(l, s) > l.captionMax || |s| < n then None
      else
        var rest := Scan(l, s[n..], count - 1);
        if rest.None? then None else Some([Padded(l, s[..n])] + rest.value)
  }

  /** The pack structure that received bytes are turned into. */
  function Unpacked(l: Layout, data: seq<byte>): Option<seq<byte>>
    requires l.Valid()
  {
    if |data| < l.headerSize || |data| > l.PackSize() || CountField(data) > l.maxCount then None
    else
      var items := Scan(l, data[l.headerSize..], CountField(data));
      if items.None? then None else Some(data[..l.headerSize] + Concat(items.value))
  }

  /** Items found so far in front of what is still to be found. */
  function Prefixed(items: seq<seq<byte>>, r: Option<seq<seq<byte>>>): Option<seq<seq<byte>>> {
    if r.None? then None else Some(items + r.value)
  }

  lemma {:induction false} ConcatLength(l: Layout, items: seq<seq<byte>>)
    requires forall i <- items :: IsItem(l, i)
    ensures |Concat(items)| == l.itemSize * |items|
  {
    if items != [] {
      assert IsItem(l, items[0]);
      ConcatLength(l, items[1..]);
      assert l.itemSize * |items| == l.itemSize + l.itemSize * (|items| - 1);
    }
  }

  lemma ScanStep(l: Layout, items: seq<seq<byte>>, s: seq<byte>, count: nat)
    requires l.Valid() && count > 0 && |s| >= l.ItemHeader()
    requires CaptionSize(l, s) <= l.captionMax && |s| >= l.ItemHeader() + CaptionSize(l, s)
    ensures var n := l.ItemHeader() + CaptionSize(l, s);
            Prefixed(items, Scan(l, s, count)) == Prefixed(items + [Padded(l, s[..n])], Scan(l, s[n..], count - 1))
  {
    var n := l.ItemHeader() + CaptionSize(l, s);
    var rest := Scan(l, s[n..], count - 1);
    if rest.Some? {
      AppendAssoc(items, [Padded(l, s[..n])], rest.value);
    }
  }

  /** The pack under construction: header, the items found, zeros for those still to come. */
  ghost predicate Filled(l: Layout, pack: seq<byte>, header: seq<byte>, items: seq<seq<byte>>, n: nat) {
    && (forall i <- items :: IsItem(l, i))
    && |items| <= n && l.itemSize * |items| <= l.itemSize * n
    && |header| == l.headerSize
    && pack == (header + Concat(items)) + Zeros(l.itemSize * n - l.itemSize * |items|)
  }

  lemma ReplaceZeros(front: seq<byte>, s: seq<byte>, width: nat, rest: nat)
    requires |s| <= width <= rest
    ensures var pack := front + Zeros(rest);
            pack[..|front|] + s + pack[|front| + |s|..] == (front + (s + Zeros(width - |s|))) + Zeros(rest - width)
  {}

  lemma PaddedIs(l: Layout, s: seq<byte>)
    requires |s| <= l.itemSize
    ensures Padded(l, s) == s + Zeros(l.itemSize - |s|) && IsItem(l, Padded(l, s))
  {}

  /** Writing the bytes of an item over the zeros. */
  lemma FillStep(l: Layout, pack: seq<byte>, header: seq<byte>, items: seq<seq<byte>>, n: nat, s: seq<byte>)
    requires l.Valid() && Filled(l, pack, header, items, n) && |items| < n && |s| <= l.itemSize
    ensures |pack| == l.ItemAt(n)
    ensures var at := l.ItemAt(|items|);
            && at + |s| <= |pack|
            && Filled(l, pack[..at] + s + pack[at + |s|..], header, items + [Padded(l, s)], n)
  {
    hide Zeros, Padded, Layout.Valid;
    var a := |items|;
    MulMonotonic(l.itemSize, a + 1, n);
    assert l.itemSize * (a + 1) == l.itemSize * a + l.itemSize;
    ConcatLength(l, items);
    PaddedIs(l, s);
    ReplaceZeros(header + Concat(items), s, l.itemSize, l.itemSize * n - l.itemSize * a);
    ConcatAppend(items, [Padded(l, s)]);
    assert Concat([Padded(l, s)]) == Padded(l, s) + [] == Padded(l, s);
    AppendAssoc(header, Concat(items), Padded(l, s));
  }

  lemma FillStart(l: Layout, header: seq<byte>, n: nat)
    requires |header| == l.headerSize && l.Valid()
    ensures Filled(l, header + Zeros(l.itemSize * n), header, [], n)
  {
    assert header + [] == header;
    assert l.itemSize * 0 == 0;
    MulMonotonic(l.itemSize, 0, n);
  }

  lemma FillEnd(l: Layout, pack: seq<byte>, header: seq<byte>, items: seq<seq<byte>>)
    requires Filled(l, pack, header, items, |items|)
    ensures pack == header + Concat(items)
  {}

  method GetPack(l: Layout, data: seq<byte>, memory: bool) returns (r: Option<seq<byte>>)
    requires l.Valid()
    ensures r == if memory then Unpacked(l, data) else None
  {
    hide Layout.ItemAt, Filled, Scan, CaptionSize, SetCount, Padded, FromLe32, Prefixed;
    if |data| < l.headerSize || |data| > l.PackSize() {
      return None;
    }
    var count := CountField(data);
    if count > l.maxCount || !memory {
      return None;
    }
    var pack := data[..l.headerSize] + Zeros(l.itemSize * count);
    pack := SetCount(pack, 0);
    ghost var items: seq<seq<byte>> := [];
    ghost var header := SetCount(data[..l.headerSize], 0);
    SetCountOfFront(data[..l.headerSize], Zeros(l.itemSize * count), 0);
    FillStart(l, header, count);
    var found := 0;
    var offset := l.headerSize;
    var a := 0;
    NothingFoundYet(l, data[offset..], count);
    while a < count
      invariant 0 <= found <= a <= count && l.headerSize <= offset <= |data|
      invariant |items| == found && Filled(l, pack, header, items, count)
      invariant found == a ==>
                  Scan(l, data[l.headerSize..], count) == Prefixed(items, Scan(l, data[offset..], count - a))
      invariant found < a ==> |data| - offset < l.ItemHeader() && Scan(l, data[l.headerSize..], count).None?
    {
      if |data| - offset >= l.ItemHeader() {
        var size := CaptionSize(l, data[offset..]);
        if size <= l.captionMax && |data| - offset >= l.ItemHeader() + size {
          var n := l.ItemHeader() + size;
          var at := l.ItemAt(a);
          var bytes := data[offset..offset + n];
          assert bytes == data[offset..][..n] && data[offset..][n..] == data[offset + n..];
          ScanStep(l, items, data[offset..], count - a);
          FillStep(l, pack, header, items, count, bytes);
          pack := pack[..at] + bytes + pack[at + n..];
          items := items + [Padded(l, bytes)];
          offset := offset + n;
          found := found + 1;
        } else {
          ScanStops(l, items, data[offset..], count - a);
          break;
        }
      } else if found == a {
        ScanStops(l, items, data[offset..], count - a);
      }
      a := a + 1;
    }
    if count == found {
      FinishPack(l, data, items, pack, header, data[offset..]);
      return Some(SetCount(pack, found));
    }
    return None;
  }

  lemma NothingFoundYet(l: Layout, s: seq<byte>, count: nat)
    requires l.Valid()
    ensures Scan(l, s, count) == Prefixed([], Scan(l, s, count))
  {
    var r := Scan(l, s, count);
    if r.Some? {
      assert [] + r.value == r.value;
    }
  }

  lemma ScanStops(l: Layout, items: seq<seq<byte>>, s: seq<byte>, count: nat)
    requires l.Valid() && count > 0
    requires |s| < l.ItemHeader() || CaptionSize(l, s) > l.captionMax || |s| < l.ItemHeader() + CaptionSize(l, s)
    ensures Prefixed(items, Scan(l, s, count)).None?
  {}

  /** With all items found, restoring the count gives the unpacked structure. */
  lemma FinishPack(l: Layout, data: seq<byte>, items: seq<seq<byte>>, pack: seq<byte>, header: seq<byte>,
                   rest: seq<byte>)
    requires l.Valid() && l.headerSize <= |data| <= l.PackSize() && CountField(data) == |items| <= l.maxCount
    requires Filled(l, pack, header, items, |items|) && header == SetCount(data[..l.headerSize], 0)
    requires Scan(l, data[l.headerSize..], |items|) == Prefixed(items, Scan(l, rest, 0))
    ensures |pack| >= 4 && Some(SetCount(pack, |items|)) == Unpacked(l, data)
  {
    FillEnd(l, pack, header, items);
    SetCountOfFront(header, Concat(items), |items|);
    FromLe32RoundTrip(data[..4]);
    assert SetCount(header, |items|) == data[..l.headerSize];
    assert items + [] == items;
  }

  // ----- round trip

  lemma {:induction false} ScanOfCut(l: Layout, items: seq<seq<byte>>)
    requires l.Valid() && forall i <- items :: IsItem(l, i) && LegalCaption(l, i)
    ensures Scan(l, CutAll(l, items), |items|) == Some(PadAll(l, items))
  {
    if items != [] {
      CutInFront(l, items[0], CutAll(l, items[1..]));
      hide CaptionSize, Cut, Padded;
      ScanOfCut(l, items[1..]);
    }
  }

  /** A cut item in front of other bytes shows its caption size and can be taken off again. */
  lemma CutInFront(l: Layout, item: seq<byte>, rest: seq<byte>)
    requires l.Valid() && IsItem(l, item) && LegalCaption(l, item)
    ensures var s := Cut(l, item) + rest;
            var n := l.ItemHeader() + CaptionSize(l, item);
            && CaptionSize(l, s) == CaptionSize(l, item)
            && |s| >= n && s[..n] == Cut(l, item) && s[n..] == rest
  {
    hide FromLe32;
    var s, h := Cut(l, item) + rest, l.ItemHeader();
    assert s[h - 4..h] == item[h - 4..h];
  }

  lemma {:induction false} CutAllFits(l: Layout, items: seq<seq<byte>>)
    requires l.Valid() && forall i <- items :: IsItem(l, i) && LegalCaption(l, i)
    ensures l.headerSize + |CutAll(l, items)| <= l.ItemAt(|items|)
  {
    if items == [] {
      HeaderBeforeItems(l);
    } else {
      CutAllFits(l, items[1..]);
      NextItem(l, |items| - 1);
    }
  }

  lemma PackedFields(l: Layout, pack: seq<byte>, count: nat)
    requires l.Valid() && |pack| == l.PackSize() && count <= l.maxCount && l.ItemAt(count) <= |pack|
    requires l.headerSize <= |pack|
    ensures var legal := Legal(l, Items(l, pack, count));
            var data := Packed(l, pack, count);
            && l.headerSize <= |data| <= l.PackSize() && CountField(data) == |legal|
            && data[..l.headerSize] == SetCount(pack[..l.headerSize], |legal|)
            && data[l.headerSize..] == CutAll(l, legal)
  {
    hide Layout.ItemAt, Legal, CutAll, Items;
    var legal := Legal(l, Items(l, pack, count));
    var data := Packed(l, pack, count);
    Le32RoundTrip(|legal|);
    assert data[..4] == Le32(|legal|);
    CutAllFits(l, legal);
    ItemsInOrder(l, |legal|, l.maxCount);
  }

  /** What was packed unpacks to the items with a legal caption size, in order, with the count
      corrected and zeros behind each caption. */
  lemma PackRoundTrip(l: Layout, pack: seq<byte>, count: nat)
    requires l.Valid() && |pack| == l.PackSize() && count <= l.maxCount
    ensures l.headerSize <= |pack| && l.ItemAt(count) <= |pack|
    ensures var legal := Legal(l, Items(l, pack, count));
            Unpacked(l, Packed(l, pack, count)) ==
            Some(SetCount(pack[..l.headerSize], |legal|) + Concat(PadAll(l, legal)))
  {
    ItemsInOrder(l, count, l.maxCount);
    ItemsInOrder(l, 0, l.maxCount);
    HeaderBeforeItems(l);
    hide Layout.ItemAt, Legal, CutAll, Items, Packed, SetCount;
    PackedFields(l, pack, count);
    ScanOfCut(l, Legal(l, Items(l, pack, count)));
  }

  /** A pack in order: the count says how many items there are, each caption size is legal, and behind
      each caption there are zeros. */
  ghost predicate Tidy(l: Layout, pack: seq<byte>, count: nat)
    requires l.Valid() && |pack| == l.PackSize() && count <= l.maxCount
  {
    && l.headerSize <= |pack| && CountIs(pack, count)
    && forall a :: 0 <= a < count ==> l.ItemAt(a) + l.itemSize <= |pack| && TidyItem(l, ItemOf(l, pack, a))
  }

  ghost predicate CountIs(pack: seq<byte>, count: nat)
    requires |pack| >= 4
  {
    pack[0] as int + 0x100 * pack[1] as int + 0x1_0000 * pack[2] as int + 0x100_0000 * pack[3] as int == count
  }

  ghost predicate TidyItem(l: Layout, item: seq<byte>)
    requires l.Valid() && IsItem(l, item)
  {
    var h := l.itemSize - l.captionMax;
    var size := item[h - 4] as int + 0x100 * item[h - 3] as int
                + 0x1_0000 * item[h - 2] as int + 0x100_0000 * item[h - 1] as int;
    size <= l.captionMax && forall k :: h + size <= k < l.itemSize ==> item[k] == 0
  }

  lemma TidyItemStays(l: Layout, item: seq<byte>)
    requires l.Valid() && IsItem(l, item) && TidyItem(l, item)
    ensures LegalCaption(l, item) && Padded(l, Cut(l, item)) == item
  {
    var h := l.ItemHeader();
    assert CaptionSize(l, item) == FromLe32(item[h - 4..h]);
  }

  lemma {:induction false} TidyItemsStay(l: Layout, items: seq<seq<byte>>)
    requires l.Valid() && forall i <- items :: IsItem(l, i) && TidyItem(l, i)
    ensures Legal(l, items) == items && PadAll(l, items) == items
    decreases |items|
  {
    hide TidyItem, Cut, Padded, LegalCaption, IsItem;
    if items != [] {
      var n := |items| - 1;
      TidyLegal(l, items);
      TidyPadded(l, items);
    }
  }

  lemma {:induction false} TidyLegal(l: Layout, items: seq<seq<byte>>)
    requires l.Valid() && forall i <- items :: IsItem(l, i) && TidyItem(l, i)
    ensures Legal(l, items) == items
    decreases |items|
  {
    hide TidyItem, LegalCaption, IsItem;
    if items != [] {
      var n := |items| - 1;
      assert items[n] in items && forall i <- items[..n] :: i in items;
      TidyItemStays(l, items[n]);
      TidyLegal(l, items[..n]);
      assert items == items[..n] + [items[n]];
    }
  }

  lemma {:induction false} TidyPadded(l: Layout, items: seq<seq<byte>>)
    requires l.Valid() && forall i <- items :: IsItem(l, i) && TidyItem(l, i)
    ensures (forall i <- items :: LegalCaption(l, i)) && PadAll(l, items) == items
    decreases |items|
  {
    hide TidyItem, Cut, Padded, LegalCaption, IsItem;
    if items != [] {
      assert items[0] in items && forall i <- items[1..] :: i in items;
      TidyItemStays(l, items[0]);
      TidyPadded(l, items[1..]);
      assert items == [items[0]] + items[1..];
    }
  }

  lemma {:induction false} ItemsOfPack(l: Layout, pack: seq<byte>, n: nat)
    requires l.ItemAt(n) <= |pack|
    ensures l.headerSize <= l.ItemAt(n) && Concat(Items(l, pack, n)) == pack[l.headerSize..l.ItemAt(n)]
    ensures forall item <- Items(l, pack, n) ::
              exists a :: 0 <= a < n && l.ItemAt(a) + l.itemSize <= |pack| && item == ItemOf(l, pack, a)
    decreases n
  {
    hide Layout.ItemAt;
    HeaderBeforeItems(l);
    if n > 0 {
      NextItem(l, n - 1);
      ItemsOfPack(l, pack, n - 1);
      var before, item := Items(l, pack, n - 1), ItemOf(l, pack, n - 1);
      ConcatAppend(before, [item]);
      assert Concat([item]) == item + [] == item;
      assert pack[l.headerSize..l.ItemAt(n)] == pack[l.headerSize..l.ItemAt(n - 1)] + item;
    }
  }

  /** A pack in order arrives as it was, byte for byte, without the items that were not there. */
  lemma TidyPackArrives(l: Layout, pack: seq<byte>, count: nat)
    requires l.Valid() && |pack| == l.PackSize() && count <= l.maxCount && Tidy(l, pack, count)
    ensures l.headerSize + l.itemSize * count <= |pack|
    ensures Unpacked(l, Packed(l, pack, count)) == Some(pack[..l.headerSize + l.itemSize * count])
  {
    hide Unpacked, Packed, Tidy;
    ItemsInOrder(l, count, l.maxCount);
    TidyPackUnpacks(l, pack, count);
  }

  lemma TidyPackUnpacks(l: Layout, pack: seq<byte>, count: nat)
    requires l.Valid() && |pack| == l.PackSize() && count <= l.maxCount && Tidy(l, pack, count)
    requires l.ItemAt(count) <= |pack|
    ensures Unpacked(l, Packed(l, pack, count)) == Some(pack[..l.ItemAt(count)])
  {
    hide Layout.ItemAt, Unpacked, Packed, Legal, PadAll, Items, ItemOf, SetCount, CountIs, TidyItem, IsItem,
         LegalCaption;
    PackRoundTrip(l, pack, count);
    TidyItemsOf(l, pack, count);
    var items := Items(l, pack, count);
    ItemsOfPack(l, pack, count);
    TidyItemsStay(l, items);
    CountOfHeader(pack, l.headerSize, count);
    CountStays(pack[..l.headerSize], count);
    assert pack[..l.ItemAt(count)] == pack[..l.headerSize] + pack[l.headerSize..l.ItemAt(count)];
  }

  lemma TidyItemsOf(l: Layout, pack: seq<byte>, count: nat)
    requires l.Valid() && |pack| == l.PackSize() && count <= l.maxCount && Tidy(l, pack, count)
    requires l.ItemAt(count) <= |pack|
    ensures forall i <- Items(l, pack, count) :: IsItem(l, i) && TidyItem(l, i)
  {
    hide Layout.ItemAt, Items, ItemOf, TidyItem;
    ItemsOfPack(l, pack, count);
    forall i | i in Items(l, pack, count) ensures IsItem(l, i) && TidyItem(l, i) {
      var a :| 0 <= a < count && l.ItemAt(a) + l.itemSize <= |pack| && i == ItemOf(l, pack, a);
    }
  }

  lemma CountOfHeader(pack: seq<byte>, size: nat, count: nat)
    requires 4 <= size <= |pack| && CountIs(pack, count)
    ensures CountIs(pack[..size], count)
  {}

  lemma CountStays(header: seq<byte>, count: u32)
    requires |header| >= 4 && CountIs(header, count)
    ensures SetCount(header, count) == header
  {
    FromLe32RoundTrip(header[..4]);
    assert header[..4] + header[4..] == header;
  }

  /** An item with a caption size above the maximum is left out, the others stay in order. */
  lemma TooLongIsLeftOut(l: Layout, items: seq<seq<byte>>, item: seq<byte>)
    requires l.Valid() && (forall i <- items :: IsItem(l, i)) && IsItem(l, item)
    ensures forall i <- items + [item] :: IsItem(l, i)
    ensures var h := l.itemSize - l.captionMax;
            var size := item[h - 4] as int + 0x100 * item[h - 3] as int
                        + 0x1_0000 * item[h - 2] as int + 0x100_0000 * item[h - 1] as int;
            Legal(l, items + [item]) == if size <= l.captionMax then Legal(l, items) + [item] else Legal(l, items)
  {
    assert (items + [item])[..|items|] == items;
    assert CaptionSize(l, item) == FromLe32(item[l.ItemHeader() - 4..l.ItemHeader()]);
    assert Legal(l, items) + [] == Legal(l, items);
  }
}
