/**
 Port dispatch: address ranges compared by "ends before the other starts", used as the order of a
 std::map. Overlapping ranges compare as equal, so looking up a one-port range finds the range that
 contains the port.
 */
module PortDispatch {

  datatype Option<+T> = None | Some(value: T)

  datatype Range = Range(start: nat, length: nat)

  const TOP: nat := 0x1_0000_0000_0000_0000

  /** operator<, in 64-bit unsigned arithmetic. */
  predicate Less(a: Range, b: Range) {
    (a.start + a.length - 1) % 0x1_0000_0000_0000_0000 < b.start
  }

  /** Non-empty, and not past the end of the address space. */
  predicate WellFormed(r: Range) {
    r.length > 0 && r.start + r.length <= TOP
  }

  predicate Contains(r: Range, p: nat) {
    r.start <= p < r.start + r.length
  }

  /** Neither ends before the other starts. */
  predicate Overlap(a: Range, b: Range) {
    !Less(a, b) && !Less(b, a)
  }

  /** Comparing as equal is having a port in common. */
  lemma OverlapExactly(a: Range, b: Range)
    requires WellFormed(a) && WellFormed(b)
    ensures Overlap(a, b) <==> exists p :: Contains(a, p) && Contains(b, p)
  {
    if Overlap(a, b) {
      var p := if a.start <= b.start then b.start else a.start;
      assert Contains(a, p) && Contains(b, p);
    }
  }

  lemma LessTransitive(a: Range, b: Range, c: Range)
    requires WellFormed(a) && WellFormed(b) && WellFormed(c) && Less(a, b) && !Less(c, b)
    ensures Less(a, c) || Overlap(b, c)
    ensures Less(b, c) ==> Less(a, c)
  {
  }

  // ---------------------------------------------------------------- the map

  /** The map's search tree, of any shape. */
  datatype Tree<V> = Leaf | Node(left: Tree<V>, key: Range, value: V, right: Tree<V>)

  type Entry<V> = (Range, V)

  predicate Has<V(==)>(t: Tree<V>, x: Entry<V>) {
    t.Node? && (x == (t.key, t.value) || Has(t.left, x) || Has(t.right, x))
  }

  /** Every key ends before the keys to its right start. */
  ghost predicate Ordered<V(!new)>(t: Tree<V>) {
    t.Node? ==>
      && WellFormed(t.key) && Ordered(t.left) && Ordered(t.right)
      && (forall x :: Has(t.left, x) ==> Less(x.0, t.key))
      && (forall x :: Has(t.right, x) ==> Less(t.key, x.0))
  }

  lemma {:induction false} KeysWellFormed<V(!new)>(t: Tree<V>, x: Entry<V>)
    requires Ordered(t) && Has(t, x)
    ensures WellFormed(x.0)
  {
    if Has(t.left, x) {
      KeysWellFormed(t.left, x);
    } else if Has(t.right, x) {
      KeysWellFormed(t.right, x);
    }
  }

  /** The keys are totally ordered, so pairwise disjoint. */
  lemma {:induction false} KeysApart<V(!new)>(t: Tree<V>, x: Entry<V>, y: Entry<V>)
    requires Ordered(t) && Has(t, x) && Has(t, y)
    ensures x == y || Less(x.0, y.0) || Less(y.0, x.0)
  {
    KeysWellFormed(t, x);
    KeysWellFormed(t, y);
    if Has(t.left, x) && Has(t.left, y) {
      KeysApart(t.left, x, y);
    } else if Has(t.right, x) && Has(t.right, y) {
      KeysApart(t.right, x, y);
    } else if Has(t.left, x) && Has(t.right, y) {
      LessTransitive(x.0, t.key, y.0);
    } else if Has(t.left, y) && Has(t.right, x) {
      LessTransitive(y.0, t.key, x.0);
    }
  }

  // ---------------------------------------------------------------- lookup

  /** The first node whose key does not end before `k` starts. */
  function LowerBound<V>(t: Tree<V>, k: Range): Option<Entry<V>> {
    match t
    case Leaf => None
    case Node(l, key, v, r) =>
      if Less(key, k) then LowerBound(r, k)
      else
        var below := LowerBound(l, k);
        if below.None? then Some((key, v)) else below
  }

  function Find<V>(t: Tree<V>, k: Range): Option<V> {
    var bound := LowerBound(t, k);
    if bound.None? || Less(k, bound.value.0) then None else Some(bound.value.1)
  }

  lemma {:induction false} LowerBoundExactly<V(!new)>(t: Tree<V>, k: Range)
    requires Ordered(t) && WellFormed(k)
    ensures var b := LowerBound(t, k);
      && (b.None? ==> forall x :: Has(t, x) ==> Less(x.0, k))
      && (b.Some? ==> Has(t, b.value) && !Less(b.value.0, k))
      && (b.Some? ==> forall x :: Has(t, x) && !Less(x.0, k) ==> x == b.value || Less(b.value.0, x.0))
  {
    if t.Node? {
      var b := LowerBound(t, k);
      LowerBoundExactly(t.left, k);
      LowerBoundExactly(t.right, k);
      forall x | Has(t, x)
        ensures b.None? ==> Less(x.0, k)
        ensures b.Some? && !Less(x.0, k) ==> x == b.value || Less(b.value.0, x.0)
      {
        KeysWellFormed(t, x);
        if b.Some? {
          KeysWellFormed(t, b.value);
          KeysApart(t, x, b.value);
        }
        LeftOf(t, k, x);
      }
    }
  }

  /** When a node's key ends before `k` starts, so do the keys to its left. */
  lemma LeftOf<V(!new)>(t: Tree<V>, k: Range, x: Entry<V>)
    requires t.Node? && Ordered(t) && WellFormed(k) && Has(t, x)
    ensures Less(t.key, k) && Has(t.left, x) ==> Less(x.0, k)
  {
    KeysWellFormed(t, x);
  }

  /** Looking up a port finds the value of the one range that contains it, or nothing; the tree's
      shape does not matter. */
  lemma FindExactly<V(!new)>(t: Tree<V>, p: nat)
    requires Ordered(t) && p < TOP
    ensures Find(t, Range(p, 1)).None? ==> forall x :: Has(t, x) ==> !Contains(x.0, p)
    ensures forall x :: Has(t, x) && Contains(x.0, p) ==> Find(t, Range(p, 1)) == Some(x.1)
    ensures Find(t, Range(p, 1)).Some? ==>
      exists x :: Has(t, x) && Contains(x.0, p) && Find(t, Range(p, 1)) == Some(x.1)
  {
    var k := Range(p, 1);
    var b := LowerBound(t, k);
    LowerBoundExactly(t, k);
    if b.Some? {
      KeysWellFormed(t, b.value);
      PortInRange(b.value.0, p);
    }
    forall x | Has(t, x)
      ensures Find(t, k).None? ==> !Contains(x.0, p)
      ensures Contains(x.0, p) ==> Find(t, k) == Some(x.1)
    {
      KeysWellFormed(t, x);
      PortInRange(x.0, p);
      if b.Some? {
        LessThrough(b.value.0, x.0, p);
      }
    }
  }

  lemma PortInRange(r: Range, p: nat)
    requires WellFormed(r) && p < TOP
    ensures Contains(r, p) <==> Overlap(r, Range(p, 1))
  {
  }

  lemma LessThrough(a: Range, b: Range, p: nat)
    requires WellFormed(a) && WellFormed(b) && p < TOP
    ensures Less(a, b) && Contains(b, p) ==> Less(a, Range(p, 1))
  {
  }

  // ---------------------------------------------------------------- insertion

  datatype Insertion<V> = Refused | Inserted(t: Tree<V>)

  /** Descend to the place for `k`; the key last passed on the left must end before it. */
  function Place<V>(t: Tree<V>, k: Range, v: V, before: Option<Range>): Insertion<V> {
    match t
    case Leaf => if before.None? || Less(before.value, k) then Inserted(Node(Leaf, k, v, Leaf)) else Refused
    case Node(l, key, w, r) =>
      if Less(k, key) then
        var i := Place(l, k, v, before);
        if i.Refused? then Refused else Inserted(Node(i.t, key, w, r))
      else
        var i := Place(r, k, v, Some(key));
        if i.Refused? then Refused else Inserted(Node(l, key, w, i.t))
  }

  /** emplace: an entry whose key compares equal to one that is there is refused. */
  function Emplace<V>(t: Tree<V>, k: Range, v: V): Tree<V> {
    var i := Place(t, k, v, None);
    if i.Refused? then t else i.t
  }

  /** The keys a descent has passed on the left: `before` is the last of them. */
  ghost predicate Passed<V(!new)>(t: Tree<V>, k: Range, before: Option<Range>) {
    before.Some? ==>
      WellFormed(before.value) && !Less(k, before.value) && forall x :: Has(t, x) ==> Less(before.value, x.0)
  }

  ghost predicate Clash<V(!new)>(t: Tree<V>, k: Range, before: Option<Range>) {
    (before.Some? && Overlap(before.value, k)) || exists x :: Has(t, x) && Overlap(x.0, k)
  }

  /** Refused exactly on a clash, and otherwise ordered with just that entry more. */
  ghost predicate PlacedWell<V(!new)>(t: Tree<V>, k: Range, v: V, before: Option<Range>) {
    var p := Place(t, k, v, before);
    && (p.Refused? <==> Clash(t, k, before))
    && (p.Inserted? ==> Ordered(p.t) && forall x :: Has(p.t, x) <==> Has(t, x) || x == (k, v))
  }

  lemma {:induction false} PlaceExactly<V(!new)>(t: Tree<V>, k: Range, v: V, before: Option<Range>)
    requires Ordered(t) && WellFormed(k) && Passed(t, k, before)
    ensures PlacedWell(t, k, v, before)
  {
    if t.Node? {
      if Less(k, t.key) {
        PlaceExactly(t.left, k, v, before);
        PlacedLeft(t, k, v, before);
      } else {
        PlaceExactly(t.right, k, v, Some(t.key));
        PlacedRight(t, k, v, before);
      }
    }
  }

  lemma PlacedLeft<V(!new)>(t: Tree<V>, k: Range, v: V, before: Option<Range>)
    requires t.Node? && Ordered(t) && WellFormed(k) && Less(k, t.key) && PlacedWell(t.left, k, v, before)
    ensures PlacedWell(t, k, v, before)
  {
    forall x | Has(t.right, x) ensures !Overlap(x.0, k) {
      KeysWellFormed(t.right, x);
    }
    var p := Place(t.left, k, v, before);
    assert p.Inserted? ==> forall x :: Has(p.t, x) ==> Less(x.0, t.key);
  }

  lemma PlacedRight<V(!new)>(t: Tree<V>, k: Range, v: V, before: Option<Range>)
    requires t.Node? && Ordered(t) && WellFormed(k) && Passed(t, k, before)
    requires !Less(k, t.key) && PlacedWell(t.right, k, v, Some(t.key))
    ensures PlacedWell(t, k, v, before)
  {
    ClashRight(t, k, before);
    var p := Place(t.right, k, v, Some(t.key));
    if p.Inserted? {
      assert !Overlap(t.key, k);
      assert forall x :: Has(p.t, x) ==> Less(t.key, x.0);
    }
  }

  lemma ClashRight<V(!new)>(t: Tree<V>, k: Range, before: Option<Range>)
    requires t.Node? && Ordered(t) && WellFormed(k) && Passed(t, k, before) && !Less(k, t.key)
    ensures Clash(t, k, before) <==> Clash(t.right, k, Some(t.key))
  {
    assert Has(t, (t.key, t.value));
    forall x | Has(t.left, x) && Overlap(x.0, k) ensures Overlap(t.key, k) {
      KeysWellFormed(t.left, x);
    }
  }

  /** emplace keeps the map ordered, adds the entry exactly when it overlaps none that is there, and
      changes nothing else. */
  lemma EmplaceExactly<V(!new)>(t: Tree<V>, k: Range, v: V)
    requires Ordered(t) && WellFormed(k)
    ensures Ordered(Emplace(t, k, v))
    ensures (exists x :: Has(t, x) && Overlap(x.0, k)) ==> Emplace(t, k, v) == t
    ensures !(exists x :: Has(t, x) && Overlap(x.0, k)) ==>
      forall x :: Has(Emplace(t, k, v), x) <==> Has(t, x) || x == (k, v)
  {
    PlaceExactly(t, k, v, None);
  }

  // ---------------------------------------------------------------- building a table

  function Build<V>(es: seq<Entry<V>>): Tree<V> {
    if es == [] then Leaf
    else Emplace(Build(es[..|es| - 1]), es[|es| - 1].0, es[|es| - 1].1)
  }

  /** Membership in the plain list of entries that are apart from all accepted before them. */
  ghost predicate Accepted<V(!new)>(es: seq<Entry<V>>, x: Entry<V>)
    decreases |es|
  {
    && es != []
    && var init := es[..|es| - 1];
       Accepted(init, x)
       || (x == es[|es| - 1] && forall y: Entry<V> :: Accepted(init, y) ==> !Overlap(y.0, x.0))
  }

  ghost predicate AllWellFormed<V>(es: seq<Entry<V>>) {
    forall i :: 0 <= i < |es| ==> WellFormed(es[i].0)
  }

  lemma {:induction false} BuildExactly<V(!new)>(es: seq<Entry<V>>)
    requires AllWellFormed(es)
    ensures Ordered(Build(es)) && forall x :: Has(Build(es), x) <==> Accepted(es, x)
    decreases |es|
  {
    if es != [] {
      var init, e := es[..|es| - 1], es[|es| - 1];
      BuildExactly(init);
      EmplaceExactly(Build(init), e.0, e.1);
    }
  }

  /** For every sequence of well-formed entries, looking a port up in the map built from them gives
      the one accepted range that contains it, as a scan of the list would, or nothing. */
  lemma DispatchIsScan<V(!new)>(es: seq<Entry<V>>, p: nat)
    requires AllWellFormed(es) && p < TOP
    ensures var found := Find(Build(es), Range(p, 1));
      && (found.None? <==> forall x :: Accepted(es, x) ==> !Contains(x.0, p))
      && (forall x :: Accepted(es, x) && Contains(x.0, p) ==> found == Some(x.1))
  {
    BuildExactly(es);
    FindExactly(Build(es), p);
  }

  /** Nothing is refused from a list whose entries are apart. */
  lemma {:induction false} AcceptsAll<V(!new)>(es: seq<Entry<V>>, x: Entry<V>)
    requires forall y, z :: y in es && z in es && y != z ==> !Overlap(y.0, z.0)
    ensures Accepted(es, x) <==> x in es
    decreases |es|
  {
    if es != [] {
      var init, e := es[..|es| - 1], es[|es| - 1];
      assert es == init + [e];
      forall y: Entry<V> ensures Accepted(init, y) <==> y in init {
        AcceptsAll(init, y);
      }
    }
  }

  // ---------------------------------------------------------------- the emulator's tables

  datatype Handler =
    | Prescaler | Com1 | Com2 | Com3 | Com4 | HexDisplay
    | ChipSelect0 | ChipSelect1 | ChipSelect2 | ChipSelect3 | ChipSelect4 | ChipSelect5 | ChipSelect6 | ChipSelect7
    | Rtc
    | Keyboard | Lcd | ProductCode | OptionCode | Jumper | PostCode | A20Gate | ManufacturerSpecific
    | DiskRegisters | TimerConfiguration | Port1Pin | Port3Pin

  function RangeOf(h: Handler): Range {
    match h
    case Prescaler => Range(0xF804, 2)
    case Com1 => Range(0x3F8, 8)
    case Com2 => Range(0x2F8, 8)
    case Com3 => Range(0x3E8, 8)
    case Com4 => Range(0x2E8, 8)
    case HexDisplay => Range(0xE000, 8)
    case ChipSelect0 => Range(0xF400, 8)
    case ChipSelect1 => Range(0xF408, 8)
    case ChipSelect2 => Range(0xF410, 8)
    case ChipSelect3 => Range(0xF418, 8)
    case ChipSelect4 => Range(0xF420, 8)
    case ChipSelect5 => Range(0xF428, 8)
    case ChipSelect6 => Range(0xF430, 8)
    case ChipSelect7 => Range(0xF438, 8)
    case Rtc => Range(0x70, 2)
    case Keyboard => Range(0x60, 5)
    case Lcd => Range(0x72, 2)
    case ProductCode => Range(0x74, 1)
    case OptionCode => Range(0x75, 1)
    case Jumper => Range(0x77, 1)
    case PostCode => Range(0x80, 1)
    case A20Gate => Range(0x92, 1)
    case ManufacturerSpecific => Range(0x198, 8)
    case DiskRegisters => Range(0xD000, 8)
    case TimerConfiguration => Range(0xF834, 1)
    case Port1Pin => Range(0xF860, 1)
    case Port3Pin => Range(0xF870, 1)
  }

  const DEVICES: seq<Handler> :=
    [Prescaler, Com1, Com2, Com3, Com4, HexDisplay, ChipSelect0, ChipSelect1, ChipSelect2, ChipSelect3,
     ChipSelect4, ChipSelect5, ChipSelect6, ChipSelect7, Rtc]

  const HANDLERS: seq<Handler> :=
    [Keyboard, Lcd, ProductCode, OptionCode, Jumper, PostCode, A20Gate, ManufacturerSpecific,
     DiskRegisters, TimerConfiguration, Port1Pin, Port3Pin]

  function Entries(hs: seq<Handler>): (es: seq<Entry<Handler>>)
    ensures |es| == |hs| && forall i :: 0 <= i < |hs| ==> es[i] == (RangeOf(hs[i]), hs[i])
  {
    seq(|hs|, i requires 0 <= i < |hs| => (RangeOf(hs[i]), hs[i]))
  }

  /** A port goes to the device table first and to the handler table next. */
  function Dispatch(p: nat): Option<Handler> {
    var device := Find(Build(Entries(DEVICES)), Range(p, 1));
    if device.Some? then device else Find(Build(Entries(HANDLERS)), Range(p, 1))
  }

  /** The ports in ascending order, with who answers them. */
  function Owner(p: nat): Option<Handler> {
    if p < 0x60 then None else if p < 0x65 then Some(Keyboard)
    else if p < 0x70 then None else if p < 0x72 then Some(Rtc) else if p < 0x74 then Some(Lcd)
    else if p == 0x74 then Some(ProductCode) else if p == 0x75 then Some(OptionCode)
    else if p == 0x77 then Some(Jumper) else if p == 0x80 then Some(PostCode) else if p == 0x92 then Some(A20Gate)
    else if p < 0x198 then None else if p < 0x1A0 then Some(ManufacturerSpecific)
    else if p < 0x2E8 then None else if p < 0x2F0 then Some(Com4)
    else if p < 0x2F8 then None else if p < 0x300 then Some(Com2)
    else if p < 0x3E8 then None else if p < 0x3F0 then Some(Com3)
    else if p < 0x3F8 then None else if p < 0x400 then Some(Com1)
    else if p < 0xD000 then None else if p < 0xD008 then Some(DiskRegisters)
    else if p < 0xE000 then None else if p < 0xE008 then Some(HexDisplay)
    else if p < 0xF400 then None else if p < 0xF408 then Some(ChipSelect0) else if p < 0xF410 then Some(ChipSelect1)
    else if p < 0xF418 then Some(ChipSelect2) else if p < 0xF420 then Some(ChipSelect3)
    else if p < 0xF428 then Some(ChipSelect4) else if p < 0xF430 then Some(ChipSelect5)
    else if p < 0xF438 then Some(ChipSelect6) else if p < 0xF440 then Some(ChipSelect7)
    else if p == 0xF804 || p == 0xF805 then Some(Prescaler) else if p == 0xF834 then Some(TimerConfiguration)
    else if p == 0xF860 then Some(Port1Pin) else if p == 0xF870 then Some(Port3Pin)
    else None
  }

  lemma OwnerExactly(h: Handler, p: nat)
    ensures WellFormed(RangeOf(h)) && (Contains(RangeOf(h), p) <==> Owner(p) == Some(h))
  {
  }

  /** A table of the emulator: nothing is refused, and a lookup gives the port's owner if it lists it. */
  lemma TableExactly(hs: seq<Handler>, p: nat)
    requires p < TOP
    ensures Find(Build(Entries(hs)), Range(p, 1))
         == if Owner(p).Some? && Owner(p).value in hs then Owner(p) else None
  {
    var es := Entries(hs);
    forall i | 0 <= i < |es| ensures WellFormed(es[i].0) {
      OwnerExactly(hs[i], p);
    }
    forall y, z | y in es && z in es && y != z ensures !Overlap(y.0, z.0) {
      HandlersApart(y.1, z.1);
    }
    forall x: Entry<Handler> ensures Accepted(es, x) <==> x in es {
      AcceptsAll(es, x);
    }
    DispatchIsScan(es, p);
    forall x | x in es ensures Contains(x.0, p) <==> Owner(p) == Some(x.1) {
      OwnerExactly(x.1, p);
    }
    if Owner(p).Some? && Owner(p).value in hs {
      var i :| 0 <= i < |hs| && hs[i] == Owner(p).value;
      assert es[i] in es;
    }
  }

  lemma HandlersApart(g: Handler, h: Handler)
    requires g != h
    ensures !Overlap(RangeOf(g), RangeOf(h))
  {
    OwnerExactly(g, 0);
    OwnerExactly(h, 0);
    OverlapExactly(RangeOf(g), RangeOf(h));
    forall p ensures !(Contains(RangeOf(g), p) && Contains(RangeOf(h), p)) {
      if p >= 0 {
        OwnerExactly(g, p);
        OwnerExactly(h, p);
      }
    }
  }

  /** No entry of the emulator's two tables is refused and no port is in both: every port reaches
      exactly its owner, whichever table lists it. */
  lemma EveryPortReachesItsOwner(p: nat)
    requires p < TOP
    ensures Dispatch(p) == Owner(p)
  {
    TableExactly(DEVICES, p);
    TableExactly(HANDLERS, p);
    EveryHandlerIsListed();
  }

  function PlaceInTables(h: Handler): nat {
    match h
    case Prescaler => 0
    case Com1 => 1
    case Com2 => 2
    case Com3 => 3
    case Com4 => 4
    case HexDisplay => 5
    case ChipSelect0 => 6
    case ChipSelect1 => 7
    case ChipSelect2 => 8
    case ChipSelect3 => 9
    case ChipSelect4 => 10
    case ChipSelect5 => 11
    case ChipSelect6 => 12
    case ChipSelect7 => 13
    case Rtc => 14
    case Keyboard => 15
    case Lcd => 16
    case ProductCode => 17
    case OptionCode => 18
    case Jumper => 19
    case PostCode => 20
    case A20Gate => 21
    case ManufacturerSpecific => 22
    case DiskRegisters => 23
    case TimerConfiguration => 24
    case Port1Pin => 25
    case Port3Pin => 26
  }

  lemma EveryHandlerIsListed()
    ensures forall h: Handler :: h in DEVICES || h in HANDLERS
  {
    forall h: Handler ensures h in DEVICES || h in HANDLERS {
      var i := PlaceInTables(h);
      assert if i < 15 then DEVICES[i] == h else HANDLERS[i - 15] == h;
    }
  }
}
