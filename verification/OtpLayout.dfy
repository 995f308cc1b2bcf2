/** `otp_ctrl_mmap_offsets_rs`: a running-offset allocator for the OTP partitions and their items. */
module OtpLayout {
  import opened Common
  import opened OtpMap

  datatype Item = Item(name: string, size: string)

  datatype Partition = Partition(
    name: string, size: Option<string>, swDigest: bool, hwDigest: bool, zeroizable: bool, items: seq<Item>) {

    predicate HasDigest() {
      swDigest || hwDigest
    }
  }

  /** One generated line: `pub(crate) const <name>: usize = <value>`. */
  datatype Constant = Constant(name: string, value: nat)

  /** The generator panics at the first of these. */
  datatype LayoutError =
    | InvalidItemSize(partition: nat, item: nat)
    | InvalidPartitionSize(partition: nat)
    | ExceedsDeclaredSize(partition: nat)

  // ---------- Names and numbers ----------

  function ConstChar(c: char): char {
    if 'a' <= c <= 'z' then c - 'a' + 'A'
    else if 'A' <= c <= 'Z' || '0' <= c <= '9' then c
    else '_'
  }

  function ConstName(name: string): (r: string)
    ensures |r| == |name|
  {
    seq(|name|, i requires 0 <= i < |name| => ConstChar(name[i]))
  }

  function Digits(s: string): Option<nat> {
    if s == [] then Some(0)
    else
      var c := s[|s| - 1];
      var front := Digits(s[..|s| - 1]);
      if front.None? || !('0' <= c <= '9') then None
      else Some(10 * front.value + (c - '0') as nat)
  }

  /** `str::parse::<usize>()` on a 64-bit host. */
  function ParseUsize(s: string): (r: Option<nat>)
    ensures r.Some? ==> r.value < 0x1_0000_0000_0000_0000
  {
    var digits := if s != [] && s[0] == '+' then s[1..] else s;
    var n := if digits == [] then None else Digits(digits);
    if n.Some? && n.value < 0x1_0000_0000_0000_0000 then n else None
  }

  function NextMultipleOf8(n: nat): (r: nat)
    ensures r % 8 == 0 && n <= r < n + 8
  {
    (n + 7) / 8 * 8
  }

  // ---------- The layout ----------

  /** Where one partition and its parts end up; `items` has one more element, the end of the last item. */
  datatype Placed = Placed(start: nat, items: seq<nat>, digest: Option<nat>, marker: Option<nat>, end: nat)

  /** The offset of each item and the end of the last one, or the first item whose size does not parse. */
  function ItemOffsets(items: seq<Item>, start: nat): (r: Result<seq<nat>, nat>)
    ensures r.Success? ==> |r.value| == |items| + 1
    ensures r.Failure? ==> r.error < |items|
  {
    if items == [] then Success([start])
    else
      var front := ItemOffsets(items[..|items| - 1], start);
      if front.Failure? then front
      else
        var size := ParseUsize(items[|items| - 1].size);
        if size.None? then Failure(|items| - 1)
        else Success(front.value + [front.value[|items| - 1] + size.value])
  }

  function PlaceTail(p: Partition, start: nat, items: seq<nat>): Placed
    requires items != []
  {
    var itemsEnd := items[|items| - 1];
    var digest := if p.HasDigest() then Some(NextMultipleOf8(itemsEnd)) else None;
    var afterDigest := if p.HasDigest() then NextMultipleOf8(itemsEnd) + 8 else itemsEnd;
    var marker := if p.zeroizable then Some(afterDigest) else None;
    Placed(start, items, digest, marker, if p.zeroizable then afterDigest + 8 else afterDigest)
  }

  function Place(p: Partition, index: nat, start: nat): Result<Placed, LayoutError> {
    var items := ItemOffsets(p.items, start);
    if items.Failure? then Failure(InvalidItemSize(index, items.error))
    else
      var placed := PlaceTail(p, start, items.value);
      if p.size.None? then Success(placed)
      else
        var declared := ParseUsize(p.size.value);
        if declared.None? then Failure(InvalidPartitionSize(index))
        else if placed.end - start > declared.value then Failure(ExceedsDeclaredSize(index))
        else Success(placed.(end := start + declared.value))
  }

  /** Each partition starts where the one before it ended. */
  function Layout(ps: seq<Partition>): (r: Result<seq<Placed>, LayoutError>)
    ensures r.Success? ==> |r.value| == |ps|
  {
    if ps == [] then Success([])
    else
      var front := Layout(ps[..|ps| - 1]);
      if front.Failure? then front
      else
        var placed := Place(ps[|ps| - 1], |ps| - 1, End(front.value));
        if placed.Failure? then Failure(placed.error) else Success(front.value + [placed.value])
  }

  function End(placed: seq<Placed>): nat {
    if placed == [] then 0 else placed[|placed| - 1].end
  }

  // ---------- The generated constants ----------

  type Aliases = map<string, seq<string>>

  function Offset(name: string, value: nat): Constant {
    Constant(name + "_OFFSET", value)
  }

  function AliasConstants(names: seq<string>, value: nat): (r: seq<Constant>)
    ensures |r| == |names|
  {
    seq(|names|, i requires 0 <= i < |names| => Offset(names[i], value))
  }

  /** The item's own constant and one for every fuse field that names the item. */
  function ItemConstants(item: Item, value: nat, aliases: Aliases): seq<Constant> {
    var name := ConstName(item.name);
    [Offset(name, value)] + if name in aliases then AliasConstants(aliases[name], value) else []
  }

  function ItemsConstants(items: seq<Item>, offsets: seq<nat>, aliases: Aliases): seq<Constant>
    requires |items| <= |offsets|
  {
    if items == [] then []
    else ItemsConstants(items[..|items| - 1], offsets, aliases)
         + ItemConstants(items[|items| - 1], offsets[|items| - 1], aliases)
  }

  function PartitionConstants(p: Partition, placed: Placed, aliases: Aliases): seq<Constant>
    requires |p.items| <= |placed.items| && placed.start <= placed.end
  {
    [Offset(ConstName(p.name), placed.start)]
    + ItemsConstants(p.items, placed.items, aliases)
    + [Constant(ConstName(p.name) + "_SIZE", placed.end - placed.start)]
  }

  ghost predicate Matches(ps: seq<Partition>, placed: seq<Placed>) {
    |ps| == |placed| && forall i :: 0 <= i < |ps| ==> |ps[i].items| <= |placed[i].items| && placed[i].start <= placed[i].end
  }

  function PartitionsConstants(ps: seq<Partition>, placed: seq<Placed>, aliases: Aliases): seq<Constant>
    requires Matches(ps, placed)
  {
    if ps == [] then []
    else
      PartitionsConstants(ps[..|ps| - 1], placed[..|ps| - 1], aliases)
      + PartitionConstants(ps[|ps| - 1], placed[|ps| - 1], aliases)
  }

  // ---------- Each partition is sound on its own ----------

  predicate Spans(item: Item, from: nat, to: nat) {
    ParseUsize(item.size).Some? && to == from + ParseUsize(item.size).value
  }

  /** Items follow one another from the partition's start; digest and marker come after them, inside it. */
  ghost predicate WellPlaced(p: Partition, d: Placed) {
    && |d.items| == |p.items| + 1
    && d.items[0] == d.start
    && (forall k :: 0 <= k < |p.items| ==> Spans(p.items[k], d.items[k], d.items[k + 1]))
    && var itemsEnd := d.items[|p.items|];
       && d.start <= itemsEnd
       && (p.HasDigest() <==> d.digest.Some?) && (p.zeroizable <==> d.marker.Some?)
       && (d.digest.Some? ==> d.digest.value % 8 == 0 && itemsEnd <= d.digest.value < itemsEnd + 8)
       && var afterDigest := if d.digest.Some? then d.digest.value + 8 else itemsEnd;
          && (d.marker.Some? ==> d.marker.value == afterDigest)
          && var used := if d.marker.Some? then afterDigest + 8 else afterDigest;
             && used <= d.end
             && (if p.size.Some? then
                   ParseUsize(p.size.value).Some? && d.end == d.start + ParseUsize(p.size.value).value
                 else d.end == used)
  }

  lemma {:induction false} ItemOffsetsStep(items: seq<Item>, start: nat)
    requires ItemOffsets(items, start).Success?
    ensures var o := ItemOffsets(items, start).value;
            && o[0] == start
            && start <= o[|items|]
            && forall k :: 0 <= k < |items| ==> Spans(items[k], o[k], o[k + 1])
  {
    if items != [] {
      ItemOffsetsStep(items[..|items| - 1], start);
    }
  }

  lemma PlaceSound(p: Partition, index: nat, start: nat)
    requires Place(p, index, start).Success?
    ensures WellPlaced(p, Place(p, index, start).value)
    ensures Place(p, index, start).value.start == start
  {
    ItemOffsetsStep(p.items, start);
  }

  lemma {:induction false} LayoutSound(ps: seq<Partition>)
    requires Layout(ps).Success?
    ensures var d := Layout(ps).value;
            && (forall i :: 0 <= i < |ps| ==> WellPlaced(ps[i], d[i]))
            && (ps != [] ==> d[0].start == 0)
            && (forall i :: 0 < i < |ps| ==> d[i].start == d[i - 1].end)
            && Matches(ps, d)
  {
    if ps != [] {
      var front := ps[..|ps| - 1];
      LayoutSound(front);
      var placed := Place(ps[|ps| - 1], |ps| - 1, End(Layout(front).value));
      PlaceSound(ps[|ps| - 1], |ps| - 1, End(Layout(front).value));
      var before, d := Layout(front).value, Layout(ps).value;
      assert d == before + [placed.value];
      forall i | 0 <= i < |ps| ensures WellPlaced(ps[i], d[i]) {
        assert i < |front| ==> ps[i] == front[i] && d[i] == before[i];
      }
      forall i | 0 < i < |ps| ensures d[i].start == d[i - 1].end {
        assert d[i - 1] == before[i - 1] && (i < |front| ==> d[i] == before[i]);
      }
    }
  }

  // ---------- The whole map ----------

  /** The partitions tile [0, end) in order: every byte below the end is in exactly one of them. */
  lemma PartitionsTile(ps: seq<Partition>, a: nat)
    requires Layout(ps).Success?
    ensures var d := Layout(ps).value;
            && (a < End(d) <==> exists i :: 0 <= i < |d| && d[i].start <= a < d[i].end)
            && (forall i, j :: 0 <= i < j < |d| ==> d[i].end <= d[j].start)
  {
    LayoutSound(ps);
    var d := Layout(ps).value;
    forall i, j | 0 <= i < j < |d| ensures d[i].end <= d[j].start {
      Ordered(ps, i, j);
    }
    if a < End(d) {
      var i := Containing(ps, a, |d|);
    }
  }

  lemma {:induction false} Ordered(ps: seq<Partition>, i: nat, j: nat)
    requires Layout(ps).Success? && i < j < |ps|
    ensures Layout(ps).value[i].end <= Layout(ps).value[j].start
  {
    LayoutSound(ps);
    if i + 1 < j {
      Ordered(ps, i, j - 1);
      assert WellPlaced(ps[j - 1], Layout(ps).value[j - 1]);
    }
  }

  lemma {:induction false} Containing(ps: seq<Partition>, a: nat, n: nat) returns (i: nat)
    requires Layout(ps).Success? && 0 < n <= |ps| && a < Layout(ps).value[n - 1].end
    ensures i < n && Layout(ps).value[i].start <= a < Layout(ps).value[i].end
  {
    LayoutSound(ps);
    i := n - 1;
    if a < Layout(ps).value[i].start {
      i := Containing(ps, a, n - 1);
    }
  }

  lemma {:induction false} ItemsOrdered(p: Partition, d: Placed, k: nat, l: nat)
    requires WellPlaced(p, d) && k <= l <= |p.items|
    ensures d.start <= d.items[k] <= d.items[l] <= d.end
  {
    if k < l {
      ItemsOrdered(p, d, k, l - 1);
      assert Spans(p.items[l - 1], d.items[l - 1], d.items[l]);
    } else if 0 < k {
      ItemsOrdered(p, d, k - 1, l - 1);
      assert Spans(p.items[l - 1], d.items[l - 1], d.items[l]);
    }
    EndBound(p, d, l);
  }

  lemma {:induction false} EndBound(p: Partition, d: Placed, l: nat)
    requires WellPlaced(p, d) && l <= |p.items|
    ensures d.items[l] <= d.items[|p.items|] <= d.end
    decreases |p.items| - l
  {
    if l < |p.items| {
      EndBound(p, d, l + 1);
      assert Spans(p.items[l], d.items[l], d.items[l + 1]);
    }
  }

  /** Items of the map never overlap, within a partition or across partitions, and lie inside their own. */
  lemma ItemsDisjoint(ps: seq<Partition>, i: nat, k: nat, j: nat, l: nat)
    requires Layout(ps).Success?
    requires i < |ps| && k < |ps[i].items| && j < |ps| && l < |ps[j].items|
    requires i < j || (i == j && k < l)
    ensures var d := Layout(ps).value;
            && |d[i].items| > k + 1 && |d[j].items| > l + 1
            && d[i].start <= d[i].items[k] <= d[i].items[k + 1] <= d[i].end
            && d[i].items[k + 1] <= d[j].items[l]
  {
    LayoutSound(ps);
    var d := Layout(ps).value;
    assert WellPlaced(ps[i], d[i]) && WellPlaced(ps[j], d[j]);
    ItemsOrdered(ps[i], d[i], k, k + 1);
    if i == j {
      ItemsOrdered(ps[i], d[i], k + 1, l);
    } else {
      Ordered(ps, i, j);
      ItemsOrdered(ps[j], d[j], l, l);
    }
  }

  // ---------- Agreement with the UDS/FE flow ----------

  /** A secret partition of `bytes` bytes with digest and zeroization marker, declared at its natural size if at all. */
  ghost predicate SecretShaped(p: Partition, d: Placed, bytes: nat) {
    && WellPlaced(p, d)
    && d.items[|p.items|] == d.start + bytes
    && p.HasDigest() && p.zeroizable
    && (p.size.Some? ==> ParseUsize(p.size.value) == Some(bytes + 16))
  }

  lemma SecretParts(p: Partition, d: Placed, bytes: nat, rows: nat)
    requires SecretShaped(p, d, bytes) && d.start + bytes == 8 * rows
    ensures d.digest == Some(d.start + bytes) && d.marker == Some(d.start + bytes + 8) && d.end == d.start + bytes + 16
  {
  }

  /** The map has a UDS partition at `u`, 8-aligned, followed by the four FE partitions. */
  ghost predicate HasSecrets(ps: seq<Partition>, d: seq<Placed>, u: nat) {
    && Layout(ps) == Success(d) && u + 5 <= |ps|
    && d[u].start % 8 == 0
    && SecretShaped(ps[u], d[u], 64)
    && forall i :: u < i < u + 5 ==> SecretShaped(ps[i], d[i], 8)
  }

  lemma {:induction false} FeStart(ps: seq<Partition>, d: seq<Placed>, u: nat, i: nat)
    requires HasSecrets(ps, d, u) && u < i < u + 5
    ensures d[i].start == d[u].start + 80 + 24 * (i - u - 1)
  {
    LayoutSound(ps);
    var rows := d[u].start / 8;
    if i == u + 1 {
      SecretParts(ps[u], d[u], 64, rows + 8);
    } else {
      FeStart(ps, d, u, i - 1);
      SecretParts(ps[i - 1], d[i - 1], 8, rows + 11 + 3 * (i - 1 - u - 1));
    }
  }

  /** The generated offsets and the flow's hand-written address arithmetic agree for every partition. */
  lemma AgreesWithFlow(ps: seq<Partition>, d: seq<Placed>, u: nat, f: Flow)
    requires HasSecrets(ps, d, u) && ValidFlow(f)
    requires d[u].start + 176 <= TWO_TO_THE_32
    ensures var base, placed := d[u].start, d[if f.Uds? then u else u + 1 + f.partition];
            && placed.start == SeedAddress(base, f)
            && placed.digest == Some(DigestAddress(base, f) as nat)
            && placed.marker == Some(MarkerAddress(base, f) as nat)
  {
    FlowAddressesPlain(d[u].start, f);
    var i := if f.Uds? then u else u + 1 + f.partition;
    if f.Fe? {
      FeStart(ps, d, u, i);
    }
    assert SecretShaped(ps[i], d[i], SeedBytes(f));
    SecretParts(ps[i], d[i], SeedBytes(f), d[u].start / 8 + if f.Uds? then 8 else 11 + 3 * f.partition);
  }

  lemma PlainSum(a: Word, n: nat)
    requires a + n < TWO_TO_THE_32
    ensures WrappingAdd(a, n) == a + n
  {
  }

  lemma FlowAddressesPlain(base: Word, f: Flow)
    requires ValidFlow(f) && base + 176 <= TWO_TO_THE_32
    ensures SeedAddress(base, f) == base + if f.Uds? then 0 else 80 + 24 * f.partition
    ensures DigestAddress(base, f) == SeedAddress(base, f) + SeedBytes(f)
    ensures MarkerAddress(base, f) == DigestAddress(base, f) + 8
  {
    FlowAddresses(base, f);
    PlainSum(base, 4 * SeedWord(f));
    PlainSum(base, 4 * DigestWord(f));
    PlainSum(base, 4 * MarkerWord(f));
  }

  // ---------- The generator ----------

  method GenerateOffsets(ps: seq<Partition>, aliases: Aliases) returns (r: Result<seq<Constant>, LayoutError>)
    ensures r.Failure? ==> Layout(ps) == Failure(r.error)
    ensures r.Success? ==> Layout(ps).Success? && Matches(ps, Layout(ps).value)
    ensures r.Success? ==>
              r.value == PartitionsConstants(ps, Layout(ps).value, aliases)
                         + [Constant("OTP_CTRL_MMAP_SIZE", End(Layout(ps).value))]
  {
    var output, offset := [], 0;
    ghost var placed: seq<Placed> := [];
    for i := 0 to |ps|
      invariant Layout(ps[..i]) == Success(placed) && Matches(ps[..i], placed) && offset == End(placed)
      invariant output == PartitionsConstants(ps[..i], placed, aliases)
    {
      LayoutStep(ps, i);
      var start := offset;
      var emitted := EmitPartition(ps[i], i, start, aliases);
      if emitted.Failure? {
        LayoutFails(ps, i + 1);
        return Failure(emitted.error);
      }
      ConstantsStep(ps, i, placed, Place(ps[i], i, start).value, aliases);
      placed := placed + [Place(ps[i], i, start).value];
      output, offset := output + emitted.value.0, emitted.value.1;
    }
    TakeAll(ps);
    return Success(output + [Constant("OTP_CTRL_MMAP_SIZE", offset)]);
  }

  lemma LayoutStep(ps: seq<Partition>, i: nat)
    requires i < |ps| && Layout(ps[..i]).Success?
    ensures var placed := Place(ps[i], i, End(Layout(ps[..i]).value));
            Layout(ps[..i + 1]) == if placed.Success? then Success(Layout(ps[..i]).value + [placed.value]) else Failure(placed.error)
  {
    TakeNext(ps, i);
  }

  lemma ConstantsStep(ps: seq<Partition>, i: nat, placed: seq<Placed>, d: Placed, aliases: Aliases)
    requires i < |ps| && Matches(ps[..i], placed) && |ps[i].items| <= |d.items| && d.start <= d.end
    ensures Matches(ps[..i + 1], placed + [d])
    ensures PartitionsConstants(ps[..i + 1], placed + [d], aliases)
            == PartitionsConstants(ps[..i], placed, aliases) + PartitionConstants(ps[i], d, aliases)
  {
    assert forall j :: 0 <= j < i ==> ps[..i][j] == ps[j] && (placed + [d])[j] == placed[j];
    assert ps[..i + 1][..i] == ps[..i] && (placed + [d])[..i] == placed;
  }

  lemma {:induction false} LayoutFails(ps: seq<Partition>, n: nat)
    requires n <= |ps| && Layout(ps[..n]).Failure?
    ensures Layout(ps) == Layout(ps[..n])
    decreases |ps| - n
  {
    if n == |ps| {
      assert ps[..n] == ps;
    } else {
      TakeNext(ps, n);
      LayoutFails(ps, n + 1);
    }
  }

  /** The body of the loop over the partitions: the constants it adds and the new running offset. */
  method EmitPartition(p: Partition, index: nat, start: nat, aliases: Aliases) returns (r: Result<(seq<Constant>, nat), LayoutError>)
    ensures r.Failure? ==> Place(p, index, start) == Failure(r.error)
    ensures r.Success? ==>
              var placed := Place(p, index, start);
              && placed.Success? && |p.items| <= |placed.value.items| && placed.value.start <= placed.value.end
              && r.value == (PartitionConstants(p, placed.value, aliases), placed.value.end)
  {
    var output := [Offset(ConstName(p.name), start)];
    var items := EmitItems(p.items, start, aliases);
    if items.Failure? {
      return Failure(InvalidItemSize(index, items.error));
    }
    output := output + items.value.0;
    var offset := items.value.1;
    ItemOffsetsStep(p.items, start);
    if p.swDigest || p.hwDigest {
      offset := NextMultipleOf8(offset);
      offset := offset + 8;
    }
    if p.zeroizable {
      offset := offset + 8;
    }
    if p.size.Some? {
      var declared := ParseUsize(p.size.value);
      if declared.None? {
        return Failure(InvalidPartitionSize(index));
      }
      if offset - start > declared.value {
        return Failure(ExceedsDeclaredSize(index));
      }
      offset := start + declared.value;
    }
    output := output + [Constant(ConstName(p.name) + "_SIZE", offset - start)];
    return Success((output, offset));
  }

  /** The loop over one partition's items. */
  method EmitItems(items: seq<Item>, start: nat, aliases: Aliases) returns (r: Result<(seq<Constant>, nat), nat>)
    ensures r.Failure? ==> ItemOffsets(items, start) == Failure(r.error)
    ensures r.Success? ==>
              var offsets := ItemOffsets(items, start);
              offsets.Success? && r.value == (ItemsConstants(items, offsets.value, aliases), offsets.value[|items|])
  {
    var output: seq<Constant>, offset := [], start;
    ghost var offsets: seq<nat> := [start];
    for k := 0 to |items|
      invariant ItemOffsets(items[..k], start) == Success(offsets) && |offsets| == k + 1 && offset == offsets[k]
      invariant output == ItemsConstants(items[..k], offsets, aliases)
    {
      var item := items[k];
      TakeNext(items, k);
      var emitted := EmitItem(item, offset, aliases);
      var size := ParseUsize(item.size);
      if size.None? {
        ItemOffsetsFail(items, start, k + 1);
        return Failure(k);
      }
      ItemsConstantsExtend(items[..k], offsets, offsets + [offset + size.value], aliases);
      output := output + emitted;
      offset := offset + size.value;
      offsets := offsets + [offset];
    }
    TakeAll(items);
    return Success((output, offset));
  }

  method EmitItem(item: Item, offset: nat, aliases: Aliases) returns (output: seq<Constant>)
    ensures output == ItemConstants(item, offset, aliases)
  {
    var name := ConstName(item.name);
    output := [Offset(name, offset)];
    if name in aliases {
      for i := 0 to |aliases[name]|
        invariant output == [Offset(name, offset)] + AliasConstants(aliases[name], offset)[..i]
      {
        output := output + [Offset(aliases[name][i], offset)];
      }
    }
  }

  lemma {:induction false} ItemOffsetsFail(items: seq<Item>, start: nat, n: nat)
    requires n <= |items| && ItemOffsets(items[..n], start).Failure?
    ensures ItemOffsets(items, start) == ItemOffsets(items[..n], start)
    decreases |items| - n
  {
    if n == |items| {
      assert items[..n] == items;
    } else {
      TakeNext(items, n);
      ItemOffsetsFail(items, start, n + 1);
    }
  }

  lemma {:induction false} ItemsConstantsExtend(items: seq<Item>, offsets: seq<nat>, more: seq<nat>, aliases: Aliases)
    requires |items| <= |offsets| && offsets <= more
    ensures ItemsConstants(items, offsets, aliases) == ItemsConstants(items, more, aliases)
  {
    if items != [] {
      ItemsConstantsExtend(items[..|items| - 1], offsets, more, aliases);
    }
  }
}
