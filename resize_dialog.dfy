/**
 * The resize dialog's rules: the smallest size a partition may be shrunk to
 * (never below 8 MB, never by more than diskpart's `shrink querymax`
 * reported), the largest size it may be extended to (its size plus the free
 * space after it), and whether the size entered is a shrink or an extend and
 * by how much.
 */
module ResizeDialog {
  import opened Common
  import opened Text

  datatype ResizeOperation = Shrink | Extend

  /** The smallest partition the dialog allows, in MB. */
  const MinSizeMb: int := 8

  class ResizePartitionViewModel {
    const currentSizeMb: int
    /** The largest total size after an extend: current size plus free space. */
    const maxSizeMb: int
    /** From `shrink querymax`; 0 when it is not known. */
    const maxShrinkMb: int
    var newSizeMb: int

    constructor(currentSizeMb: int64, availableFreeMb: int64, maxShrinkMb: int64)
      ensures this.currentSizeMb == currentSizeMb
      ensures this.maxSizeMb == currentSizeMb as int + availableFreeMb as int
      ensures this.maxShrinkMb == maxShrinkMb
      ensures newSizeMb == currentSizeMb
      ensures !IsValid()
    {
      this.currentSizeMb := currentSizeMb;
      this.maxSizeMb := currentSizeMb as int + availableFreeMb as int;
      this.maxShrinkMb := maxShrinkMb;
      newSizeMb := currentSizeMb;
    }

    /** `Math.Max(MinSizeMb, CurrentSizeMb - MaxShrinkMb)`. */
    function MinNewSizeMb(): (m: int)
      ensures m >= MinSizeMb && m >= currentSizeMb - maxShrinkMb
      ensures m == MinSizeMb || m == currentSizeMb - maxShrinkMb
    {
      if MinSizeMb >= currentSizeMb - maxShrinkMb then MinSizeMb else currentSizeMb - maxShrinkMb
    }

    /**
     * Whether `shrink querymax` gave a limit; its text shows exactly then, and
     * without one the dialog allows no shrink at all.
     */
    predicate HasShrinkLimit()
      ensures HasShrinkLimit() <==> ShrinkLimitText() != []
      ensures !HasShrinkLimit() ==> MinNewSizeMb() >= currentSizeMb
    {
      maxShrinkMb > 0
    }

    /** "Maximum shrinkable: N GB" from 1024 MB on, "N MB" below, nothing when unknown. */
    function ShrinkLimitText(): (text: string)
      ensures text == [] <==> maxShrinkMb <= 0
    {
      if maxShrinkMb > 0 then
        "Maximum shrinkable: "
        + (if maxShrinkMb >= 1024 then GroupedDecimal(maxShrinkMb / 1024) + " GB" else GroupedDecimal(maxShrinkMb) + " MB")
      else ""
    }

    /** Shrink below the current size, extend otherwise; with the delta it gives back the size entered. */
    function Operation(): (op: ResizeOperation)
      reads this
      ensures op == Shrink ==> DeltaMb() > 0 && newSizeMb == currentSizeMb - DeltaMb()
      ensures op == Extend ==> newSizeMb == currentSizeMb + DeltaMb()
    {
      if newSizeMb < currentSizeMb then Shrink else Extend
    }

    /** `Math.Abs(NewSizeMb - CurrentSizeMb)`. */
    function DeltaMb(): (d: int)
      reads this
      ensures d >= 0
      ensures d == newSizeMb - currentSizeMb || d == currentSizeMb - newSizeMb
    {
      if newSizeMb >= currentSizeMb then newSizeMb - currentSizeMb else currentSizeMb - newSizeMb
    }

    /**
     * The sizes the dialog accepts: different from the current one and within
     * both bounds, inclusive. A valid request keeps at least 8 MB, shrinks by
     * no more than diskpart reported it can reclaim, and extends by no more
     * than the free space.
     */
    predicate IsValid()
      reads this
      ensures IsValid() <==>
        newSizeMb != currentSizeMb
        && newSizeMb >= MinSizeMb
        && newSizeMb >= currentSizeMb - maxShrinkMb
        && newSizeMb <= maxSizeMb
      ensures IsValid() ==> DeltaMb() > 0 && newSizeMb >= MinSizeMb
      ensures IsValid() && Operation() == Shrink ==> DeltaMb() <= maxShrinkMb && HasShrinkLimit()
      ensures IsValid() && Operation() == Extend ==> DeltaMb() <= maxSizeMb - currentSizeMb
    {
      newSizeMb != currentSizeMb && newSizeMb >= MinNewSizeMb() && newSizeMb <= maxSizeMb
    }

    /** "Shrink by N MB" or "Extend by N MB", as the operation says. */
    function OperationDescription(): (text: string)
      reads this
      ensures |text| > 10 && (text[..10] == "Shrink by " <==> Operation() == Shrink)
      ensures text[|text| - 3..] == " MB"
    {
      var verb := if Operation() == Shrink then "Shrink by " else "Extend by ";
      var text := verb + GroupedDecimal(DeltaMb()) + " MB";
      assert text[..10] == verb && "Extend by "[0] != "Shrink by "[0];
      text
    }

    method SetNewSizeMb(value: int64)
      modifies this`newSizeMb
      ensures newSizeMb == value
    {
      newSizeMb := value;
    }
  }

  /** The shrink limit text reads back as the limit, in GB from 1024 MB on and in MB below. */
  lemma ShrinkLimitTextReadsBack(vm: ResizePartitionViewModel)
    requires vm.HasShrinkLimit()
    ensures exists number: string, unit: string ::
      vm.ShrinkLimitText() == "Maximum shrinkable: " + number + unit
      && (forall i :: 0 <= i < |number| ==> IsGroupedChar(number[i]))
      && GroupedValue(number) == (if vm.maxShrinkMb >= 1024 then vm.maxShrinkMb / 1024 else vm.maxShrinkMb)
      && unit == (if vm.maxShrinkMb >= 1024 then " GB" else " MB")
  {
    var v := if vm.maxShrinkMb >= 1024 then vm.maxShrinkMb / 1024 else vm.maxShrinkMb;
    var unit := if vm.maxShrinkMb >= 1024 then " GB" else " MB";
    GroupedDecimalRoundTrip(v);
    assert vm.ShrinkLimitText() == "Maximum shrinkable: " + GroupedDecimal(v) + unit;
  }

  /** The operation description reads back as the operation and the size of the change. */
  lemma OperationDescriptionReadsBack(vm: ResizePartitionViewModel)
    ensures exists verb: string, number: string ::
      vm.OperationDescription() == verb + number + " MB"
      && (forall i :: 0 <= i < |number| ==> IsGroupedChar(number[i]))
      && GroupedValue(number) == vm.DeltaMb()
      && verb == (if vm.Operation() == Shrink then "Shrink by " else "Extend by ")
  {
    var verb := if vm.Operation() == Shrink then "Shrink by " else "Extend by ";
    GroupedDecimalRoundTrip(vm.DeltaMb());
    assert vm.OperationDescription() == verb + GroupedDecimal(vm.DeltaMb()) + " MB";
  }
}
