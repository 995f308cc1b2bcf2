/** Firmware identities, the groups one cargo run can serve, and the planner's comparator. */
module FwIds {
  import opened Common
  import opened Orders

  datatype HwVersion = Latest | V2_0 | V2_1 | V2_2

  datatype FirmwareType =
    | Source(features: seq<string>, hwRevision: Option<HwVersion>)
    | TaggedReleaseFromNetwork(versionTag: string, url: string)

  datatype FwId = FwId(crateName: string, binName: string, fwType: FirmwareType) {
    function Features(): seq<string> {
      if fwType.Source? then fwType.features else []
    }

    function HwRevision(): Option<HwVersion> {
      if fwType.Source? then fwType.hwRevision else None
    }

    function Group(): BuildGroup {
      BuildGroup(crateName, Features(), HwRevision())
    }
  }

  /** What one cargo invocation fixes for every binary it builds. */
  datatype BuildGroup = BuildGroup(crateName: string, features: seq<string>, hwRevision: Option<HwVersion>)

  datatype CargoInvocation = CargoInvocation(group: BuildGroup, fwids: seq<FwId>)

  // The orders Rust derives, field by field and variant by variant

  function HwRank(hw: Option<HwVersion>): nat {
    match hw
    case None => 0
    case Some(Latest) => 1
    case Some(V2_0) => 2
    case Some(V2_1) => 3
    case Some(V2_2) => 4
  }

  function FirmwareTypeCompare(a: FirmwareType, b: FirmwareType): Ordering {
    match (a, b)
    case (Source(f, h), Source(f', h')) => StringsCompare(f, f').Then(NatCompare(HwRank(h), HwRank(h')))
    case (TaggedReleaseFromNetwork(v, u), TaggedReleaseFromNetwork(v', u')) =>
      StringCompare(v, v').Then(StringCompare(u, u'))
    case (Source(_, _), TaggedReleaseFromNetwork(_, _)) => Less
    case (TaggedReleaseFromNetwork(_, _), Source(_, _)) => Greater
  }

  lemma FirmwareTypeOrder()
    ensures TotalOrder(FirmwareTypeCompare)
  {
    forall a, b { FirmwareTypeAntisymmetric(a, b); }
    forall a, b, c | FirmwareTypeCompare(a, b) == Less && FirmwareTypeCompare(b, c) == Less
      ensures FirmwareTypeCompare(a, c) == Less
    {
      StringOrder();
      StringsOrder();
    }
  }

  lemma FirmwareTypeAntisymmetric(a: FirmwareType, b: FirmwareType)
    ensures FirmwareTypeCompare(a, b) == Equal <==> a == b
    ensures FirmwareTypeCompare(a, b) == Less <==> FirmwareTypeCompare(b, a) == Greater
  {
    StringOrder();
    StringsOrder();
    if a.Source? && b.Source? {
      assert HwRank(a.hwRevision) == HwRank(b.hwRevision) <==> a.hwRevision == b.hwRevision;
    }
  }

  function FwIdCompare(a: FwId, b: FwId): Ordering {
    StringCompare(a.crateName, b.crateName)
    .Then(StringCompare(a.binName, b.binName))
    .Then(FirmwareTypeCompare(a.fwType, b.fwType))
  }

  lemma FwIdOrder()
    ensures TotalOrder(FwIdCompare)
  {
    StringOrder();
    FirmwareTypeOrder();
  }

  /** The comparator handed to `sort_unstable_by`: largest first; the hardware revision is not compared. */
  function InvocationCompare(a: CargoInvocation, b: CargoInvocation): Ordering {
    NatCompare(|b.fwids|, |a.fwids|)
    .Then(StringCompare(a.group.crateName, b.group.crateName))
    .Then(StringsCompare(a.group.features, b.group.features))
    .Then(Lexicographic(FwIdCompare, a.fwids, b.fwids))
  }

  /** The laws of the comparator that hold of any two, or three, invocations. */
  lemma InvocationPreorder(a: CargoInvocation, b: CargoInvocation, c: CargoInvocation)
    ensures InvocationCompare(a, b) == Less <==> InvocationCompare(b, a) == Greater
    ensures InvocationCompare(a, b) == Equal ==> a.fwids == b.fwids
    ensures InvocationCompare(a, b) != Greater && InvocationCompare(b, c) != Greater
            ==> InvocationCompare(a, c) != Greater
  {
    StringOrder();
    StringsOrder();
    FwIdOrder();
    LexicographicEqual(FwIdCompare, a.fwids, b.fwids);
    LexicographicEqual(FwIdCompare, b.fwids, c.fwids);
    LexicographicEqual(FwIdCompare, a.fwids, c.fwids);
    if Lexicographic(FwIdCompare, a.fwids, b.fwids) == Less && Lexicographic(FwIdCompare, b.fwids, c.fwids) == Less {
      LexicographicTransitive(FwIdCompare, a.fwids, b.fwids, c.fwids);
    }
  }
}
