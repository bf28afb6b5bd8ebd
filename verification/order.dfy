/**
  The order as a whole: the total the user settles on, its distribution and
  the pizza lines of the order text.
 */
module Order {
  import opened Optional
  import opened Totals
  import opened Distribution
  import opened Items
  import opened Prompts

  /** The adjustment prompt: the calculated total as default, at least one. */
  function AdjustmentPrompt(participants: int, staff: int, weeks: int): (p: NumberPrompt)
    ensures p.default.Some? && p.default.value >= 1
    ensures p.minValue == Some(1)
  {
    NumberPrompt(Some(CalculatedTotal(participants, staff, weeks)), Some(1))
  }

  /** What an order for `total` pizzas should satisfy: no variety has a
      negative count, Verde and Kickiricki have at least one each, the counts
      add up to the total (or to two for a total of one), and the pizza lines
      read back as exactly the varieties with a positive count. */
  predicate SoundOrder(total: int)
  {
    var d := Distribute(total);
    && (forall i :: 0 <= i < |d| ==> d[i].quantity >= 0)
    && Lookup(d, Verde).Some? && Lookup(d, Verde).value >= 1
    && Lookup(d, Kickiricki).Some? && Lookup(d, Kickiricki).value >= 1
    && Sum(d) == (if total >= 2 then total else 2)
    && ParseItems(ItemList(d)) == Some(AsItems(Served(d)))
  }

  /** Every total the adjustment prompt can hand on gives a sound order. */
  lemma PositiveTotalsAreSound(total: int)
    requires total >= 1
    ensures SoundOrder(total)
  {
    DistributionNonNegative(total);
    ForcedVarietiesGetOne(total);
    DistributionTotal(total);
    ParseItemList(Distribute(total));
  }

  /** Whatever total the user settles on at the adjustment prompt, it is at
      least one and its order is sound. */
  lemma SettledOrder(participants: int, staff: int, weeks: int, attempts: seq<Attempt>)
    requires FirstAccepted(AdjustmentPrompt(participants, staff, weeks), attempts).Some?
    ensures var t := FirstAccepted(AdjustmentPrompt(participants, staff, weeks), attempts).value.1;
      t >= 1 && SoundOrder(t)
  {
    var t := FirstAccepted(AdjustmentPrompt(participants, staff, weeks), attempts).value.1;
    AdjustedTotalPositive(CalculatedTotal(participants, staff, weeks), attempts);
    PositiveTotalsAreSound(t);
  }
}
