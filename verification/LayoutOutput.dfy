/** What the layout generator's numerals, names, errors and constants mean, stated without its own functions. */
module LayoutOutput {
  import opened Common
  import opened OtpLayout

  // ---------- Numerals and names ----------

  function DigitChar(d: nat): char
    requires d < 10
  {
    "0123456789"[d]
  }

  /** The decimal numeral of `n`. */
  function Decimal(n: nat): (s: string)
    ensures s != [] && s[0] != '+'
  {
    if n < 10 then [DigitChar(n)] else Decimal(n / 10) + [DigitChar(n % 10)]
  }

  lemma {:induction false} DigitsOfDecimal(n: nat)
    ensures Digits(Decimal(n)) == Some(n)
  {
    var s := Decimal(n);
    if n < 10 {
      assert s[..|s| - 1] == [];
    } else {
      DigitsOfDecimal(n / 10);
      assert s[..|s| - 1] == Decimal(n / 10);
    }
  }

  /** Every number of 64 bits is parsed from its numeral, with or without a sign; larger numbers do not parse. */
  lemma ParsesDecimal(n: nat)
    ensures ParseUsize(Decimal(n)) == if n < 0x1_0000_0000_0000_0000 then Some(n) else None
    ensures ParseUsize("+" + Decimal(n)) == ParseUsize(Decimal(n))
  {
    DigitsOfDecimal(n);
    assert ("+" + Decimal(n))[1..] == Decimal(n);
  }

  lemma {:induction false} DigitsFail(s: string)
    ensures Digits(s).None? <==> exists i :: 0 <= i < |s| && !('0' <= s[i] <= '9')
  {
    if s != [] {
      DigitsFail(s[..|s| - 1]);
      assert forall i :: 0 <= i < |s| - 1 ==> s[..|s| - 1][i] == s[i];
    }
  }

  /** Only digits, at least one, after an optional sign, can parse. */
  lemma OnlyNumeralsParse(s: string)
    requires ParseUsize(s).Some?
    ensures var digits := if s != [] && s[0] == '+' then s[1..] else s;
            digits != [] && forall i :: 0 <= i < |digits| ==> '0' <= digits[i] <= '9'
  {
    DigitsFail(if s != [] && s[0] == '+' then s[1..] else s);
  }

  /** Letters become capitals, digits stay, everything else becomes an underscore. */
  lemma ConstNameOf(name: string, i: nat)
    requires i < |name|
    ensures var c, r := name[i], ConstName(name)[i];
            && ('a' <= c <= 'z' ==> r as int == c as int - 'a' as int + 'A' as int)
            && ('A' <= c <= 'Z' || '0' <= c <= '9' ==> r == c)
            && (!('a' <= c <= 'z' || 'A' <= c <= 'Z' || '0' <= c <= '9') ==> r == '_')
  {
  }

  // ---------- Where the generator panics ----------

  ghost predicate Sized(items: seq<Item>) {
    forall k :: 0 <= k < |items| ==> ParseUsize(items[k].size).Some?
  }

  ghost function TotalSize(items: seq<Item>): nat
    requires Sized(items)
  {
    if items == [] then 0 else ParseUsize(items[0].size).value + TotalSize(items[1..])
  }

  lemma {:induction false} TotalSizeLast(items: seq<Item>)
    requires items != [] && Sized(items)
    ensures TotalSize(items) == TotalSize(items[..|items| - 1]) + ParseUsize(items[|items| - 1].size).value
  {
    if |items| > 1 {
      TotalSizeLast(items[1..]);
      assert items[1..][..|items| - 2] == items[..|items| - 1][1..];
    } else {
      assert items[1..] == [] && items[..0] == [];
    }
  }

  ghost predicate FirstUnsized(items: seq<Item>, k: nat) {
    k < |items| && ParseUsize(items[k].size).None? && Sized(items[..k])
  }

  lemma {:induction false} ItemOffsetsOutcome(items: seq<Item>, start: nat)
    ensures var r := ItemOffsets(items, start);
            if Sized(items) then r.Success? && r.value[|items|] == start + TotalSize(items)
            else r.Failure? && FirstUnsized(items, r.error)
  {
    if items != [] {
      var front := items[..|items| - 1];
      ItemOffsetsOutcome(front, start);
      SplitLast(items);
      if Sized(items) {
        TotalSizeLast(items);
      } else if !Sized(front) {
        var k := ItemOffsets(front, start).error;
        assert items[..k] == front[..k];
      }
    }
  }

  /** The bytes that items, digest and marker take from `start`; a digest starts at the next multiple of eight. */
  ghost function Occupied(p: Partition, start: nat): nat
    requires Sized(p.items)
  {
    var itemsEnd := start + TotalSize(p.items);
    var padding := if itemsEnd % 8 == 0 then 0 else 8 - itemsEnd % 8;
    TotalSize(p.items) + (if p.swDigest || p.hwDigest then padding + 8 else 0) + if p.zeroizable then 8 else 0
  }

  lemma NextMultiple(n: nat)
    ensures NextMultipleOf8(n) == n + if n % 8 == 0 then 0 else 8 - n % 8
  {
  }

  /** One partition: the three panics, in the order in which they are looked for, and the end if there is none. */
  lemma PlaceOutcome(p: Partition, index: nat, start: nat)
    ensures var r := Place(p, index, start);
            if !Sized(p.items) then exists k :: FirstUnsized(p.items, k) && r == Failure(InvalidItemSize(index, k))
            else if p.size.None? then r.Success? && r.value.end == start + Occupied(p, start)
            else
              match ParseUsize(p.size.value)
              case None => r == Failure(InvalidPartitionSize(index))
              case Some(declared) =>
                if Occupied(p, start) > declared then r == Failure(ExceedsDeclaredSize(index))
                else r.Success? && r.value.end == start + declared
  {
    ItemOffsetsOutcome(p.items, start);
    if Sized(p.items) {
      NextMultiple(start + TotalSize(p.items));
    }
  }

  /** The partitions before `i` can be placed, and `i` cannot. */
  ghost predicate FailsAt(ps: seq<Partition>, i: nat, e: LayoutError) {
    && i < |ps|
    && Layout(ps[..i]).Success?
    && Place(ps[i], i, End(Layout(ps[..i]).value)) == Failure(e)
  }

  /** The whole map: the generator panics exactly at the first partition that cannot be placed. */
  lemma {:induction false} LayoutOutcome(ps: seq<Partition>, e: LayoutError)
    ensures Layout(ps) == Failure(e) <==> exists i: nat :: FailsAt(ps, i, e)
  {
    forall i: nat | FailsAt(ps, i, e) ensures Layout(ps) == Failure(e) {
      LayoutStep(ps, i);
      LayoutFails(ps, i + 1);
    }
    if ps != [] && Layout(ps) == Failure(e) {
      var n := |ps| - 1;
      if Layout(ps[..n]).Success? {
        assert FailsAt(ps, n, e);
      } else {
        LayoutOutcome(ps[..n], e);
        var i: nat :| FailsAt(ps[..n], i, e);
        assert ps[..n][..i] == ps[..i];
        assert FailsAt(ps, i, e);
      }
    }
  }

  // ---------- Which constants there are ----------

  /** `c` gives `value` the item's name or the name of a fuse field mapped to the item. */
  ghost predicate NamesItem(item: Item, value: nat, aliases: Aliases, c: Constant) {
    var name := ConstName(item.name);
    && c.value == value
    && (|| c.name == name + "_OFFSET"
        || (name in aliases && exists a :: a in aliases[name] && c.name == a + "_OFFSET"))
  }

  lemma ItemConstantsAre(item: Item, value: nat, aliases: Aliases, c: Constant)
    ensures c in ItemConstants(item, value, aliases) <==> NamesItem(item, value, aliases, c)
  {
    var name := ConstName(item.name);
    if name in aliases {
      AliasConstantsAre(aliases[name], value, c);
    }
  }

  lemma AliasConstantsAre(names: seq<string>, value: nat, c: Constant)
    ensures c in AliasConstants(names, value) <==> c.value == value && exists a :: a in names && c.name == a + "_OFFSET"
  {
    var r := AliasConstants(names, value);
    if c.value == value && exists a :: a in names && c.name == a + "_OFFSET" {
      var a :| a in names && c.name == a + "_OFFSET";
      var i :| 0 <= i < |names| && names[i] == a;
      assert r[i] == c;
    }
  }

  lemma {:induction false} ItemsConstantsAre(items: seq<Item>, offsets: seq<nat>, aliases: Aliases, c: Constant)
    requires |items| <= |offsets|
    ensures c in ItemsConstants(items, offsets, aliases)
            <==> exists k :: 0 <= k < |items| && NamesItem(items[k], offsets[k], aliases, c)
  {
    if items != [] {
      var n := |items| - 1;
      ItemsConstantsAre(items[..n], offsets, aliases, c);
      ItemConstantsAre(items[n], offsets[n], aliases, c);
      assert forall k :: 0 <= k < n ==> items[..n][k] == items[k];
      assert NamesItem(items[n], offsets[n], aliases, c) ==> exists k :: 0 <= k < |items| && NamesItem(items[k], offsets[k], aliases, c);
    }
  }

  /** A constant of partition `p`: its start, its size, or the start of an item's interval. */
  ghost predicate Describes(p: Partition, d: Placed, aliases: Aliases, c: Constant)
    requires |p.items| <= |d.items|
  {
    || c == Constant(ConstName(p.name) + "_OFFSET", d.start)
    || (c.name == ConstName(p.name) + "_SIZE" && d.start + c.value == d.end)
    || exists k :: 0 <= k < |p.items| && NamesItem(p.items[k], d.items[k], aliases, c)
  }

  lemma PartitionConstantsAre(p: Partition, d: Placed, aliases: Aliases, c: Constant)
    requires |p.items| <= |d.items| && d.start <= d.end
    ensures c in PartitionConstants(p, d, aliases) <==> Describes(p, d, aliases, c)
  {
    ItemsConstantsAre(p.items, d.items, aliases, c);
  }

  /** The generated file holds exactly the constants that describe the layout's partitions and items. */
  lemma {:induction false} ConstantsDescribeLayout(ps: seq<Partition>, d: seq<Placed>, aliases: Aliases, c: Constant)
    requires Matches(ps, d)
    ensures c in PartitionsConstants(ps, d, aliases) <==> exists i :: 0 <= i < |ps| && Describes(ps[i], d[i], aliases, c)
  {
    if ps != [] {
      var n := |ps| - 1;
      assert forall i :: 0 <= i < n ==> ps[..n][i] == ps[i] && d[..n][i] == d[i];
      ConstantsDescribeLayout(ps[..n], d[..n], aliases, c);
      PartitionConstantsAre(ps[n], d[n], aliases, c);
      assert Describes(ps[n], d[n], aliases, c) ==> exists i :: 0 <= i < |ps| && Describes(ps[i], d[i], aliases, c);
    }
  }
}
