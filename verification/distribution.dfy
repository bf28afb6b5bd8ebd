/**
  Splitting the total across pizza varieties.

  Six varieties have a ratio and are served in a fixed order; each takes its
  ratio of the pool that is LEFT after the varieties before it (not of the
  original total), rounded toward zero. Verde and Kickiricki are raised to at
  least one pizza even when that drives the pool negative. The seventh
  variety, Fior di Margherita, takes whatever is left, or nothing if the pool
  went negative.

  The allocator is modelled as a fold over an ordered table of shares that
  threads the remaining pool from one share to the next.
 */
module Distribution {
  import opened Truncation
  import opened Optional

  /** The varieties on the menu of the order. */
  datatype Variety = Gamberetti | Funghi | Verde | Kickiricki | Prosciutto | Salame | FiorDiMargherita

  /** The name a variety is ordered under. */
  function Name(v: Variety): string
  {
    match v
    case Gamberetti => "Gamberetti"
    case Funghi => "Funghi"
    case Verde => "Verde"
    case Kickiricki => "Kickiricki"
    case Prosciutto => "Prosciutto"
    case Salame => "Salame"
    case FiorDiMargherita => "Fior di Margherita"
  }

  /** One ratio variety: its ratio, one over `divisor` (every ratio of the
      order is a unit fraction), and whether it is raised to at least one
      pizza. */
  datatype Share = Share(variety: Variety, divisor: nat, forcedMin: bool)

  /** A share with a positive divisor. */
  type ValidShare = s: Share | 0 < s.divisor witness Share(Gamberetti, 1, false)

  /** One line of the distribution: a variety and its pizza count. */
  datatype Entry = Entry(variety: Variety, quantity: int)

  /** The entries produced for a table and the pool left after them. */
  datatype Allocation = Allocation(entries: seq<Entry>, remaining: int)

  /** The ratio varieties in declaration order. */
  const Ratios: seq<ValidShare> := [
    Share(Gamberetti, 7, false),
    Share(Funghi, 4, false),
    Share(Verde, 4, true),
    Share(Kickiricki, 4, true),
    Share(Prosciutto, 3, false),
    Share(Salame, 3, false)
  ]

  /** The variety that absorbs the remainder. */
  const Remainder: Variety := FiorDiMargherita

  /** Every variety of a distribution, in order. */
  const VarietyOrder: seq<Variety> := [
    Gamberetti, Funghi, Verde, Kickiricki, Prosciutto, Salame, FiorDiMargherita
  ]

  /** The allocator raises a variety to one pizza when its name is one of
      these two. */
  predicate IsForcedName(name: string)
  {
    name == "Verde" || name == "Kickiricki"
  }

  /** Sum of the quantities of a sequence of entries. */
  function Sum(entries: seq<Entry>): int
  {
    if |entries| == 0 then 0 else entries[0].quantity + Sum(entries[1..])
  }

  function Varieties(entries: seq<Entry>): (vs: seq<Variety>)
    ensures |vs| == |entries|
    ensures forall i :: 0 <= i < |entries| ==> vs[i] == entries[i].variety
  {
    if |entries| == 0 then [] else [entries[0].variety] + Varieties(entries[1..])
  }

  /** Number of shares of a table that carry the forced minimum. */
  function ForcedCount(table: seq<ValidShare>): nat
  {
    if |table| == 0 then 0 else (if table[0].forcedMin then 1 else 0) + ForcedCount(table[1..])
  }

  /** What one share takes from `pool`: its ratio of the pool truncated toward
      zero, raised to one when the share is forced. From a non-negative pool
      it never takes more than the pool, except the one forced pizza. */
  function Take(s: ValidShare, pool: int): (q: int)
    ensures s.forcedMin ==> q >= 1
    ensures 0 <= pool ==> 0 <= q
    ensures 0 <= pool ==> q <= pool || (s.forcedMin && q == 1)
    ensures pool < 0 && !s.forcedMin ==> pool <= q <= 0
    ensures pool < 0 && s.forcedMin ==> q == 1
  {
    TruncDivShrinks(pool, s.divisor);
    var raw := TruncDiv(pool, s.divisor);
    if s.forcedMin then (if raw < 1 then 1 else raw) else raw
  }

  /** The fold: each share in turn takes from the pool the previous shares
      left. Nothing is lost or invented: the quantities plus the final pool add
      up to the starting pool, and the entries follow the table's order. */
  function Allocate(table: seq<ValidShare>, pool: int): (a: Allocation)
    ensures |a.entries| == |table|
    ensures Sum(a.entries) + a.remaining == pool
    decreases |table|
  {
    if |table| == 0 then Allocation([], pool)
    else
      var q := Take(table[0], pool);
      var rest := Allocate(table[1..], pool - q);
      var entries := [Entry(table[0].variety, q)] + rest.entries;
      assert entries[1..] == rest.entries;
      Allocation(entries, rest.remaining)
  }

  /** The fold lists the table's varieties in the table's order. */
  lemma {:induction false} AllocateVarieties(table: seq<ValidShare>, pool: int)
    ensures forall i :: 0 <= i < |table| ==> Allocate(table, pool).entries[i].variety == table[i].variety
    decreases |table|
  {
    if |table| > 0 {
      var q := Take(table[0], pool);
      var rest := Allocate(table[1..], pool - q);
      AllocateVarieties(table[1..], pool - q);
      AllocateStep(table, pool, q, rest.entries, rest.remaining);
      forall i | 1 <= i < |table|
        ensures Allocate(table, pool).entries[i].variety == table[i].variety
      {
        assert table[1..][i - 1] == table[i];
      }
    }
  }

  /** The allocator of the order calculator: the six ratio varieties, as the
      fold allocates them, followed by Fior di Margherita. */
  function Distribute(total: int): (d: seq<Entry>)
    ensures |d| == 7
    ensures forall i :: 0 <= i < 6 ==> d[i] == Allocate(Ratios, total).entries[i]
    ensures d[6].variety == Remainder
  {
    var a := Allocate(Ratios, total);
    a.entries + [Entry(Remainder, if a.remaining < 0 then 0 else a.remaining)]
  }

  /** The first six entries of a distribution are the fold's entries. */
  lemma DistributePrefix(total: int)
    ensures Distribute(total)[..6] == Allocate(Ratios, total).entries
  {
  }

  /** Fior di Margherita gets what the six ratio varieties left of the total,
      or nothing when the forced minimums overdrew it. */
  lemma RemainderTakesRest(total: int)
    ensures var d := Distribute(total);
            d[6].quantity == if Sum(d[..6]) <= total then total - Sum(d[..6]) else 0
  {
    DistributePrefix(total);
  }

  /** The distribution lists every variety once, in the declaration order of
      the ratios, with Fior di Margherita last. */
  lemma DistributionOrder(total: int)
    ensures Varieties(Distribute(total)) == VarietyOrder
  {
    RatiosInOrder();
    AllocateVarieties(Ratios, total);
    OrderFromTable(Distribute(total), Allocate(Ratios, total).entries, Ratios, VarietyOrder);
  }

  /** A sequence that extends a fold's entries by one entry lists the table's
      varieties followed by that entry's: the order of the table decides the
      order of the distribution. */
  lemma OrderFromTable(d: seq<Entry>, entries: seq<Entry>, table: seq<ValidShare>, order: seq<Variety>)
    requires |d| == |table| + 1 == |order| && |entries| == |table|
    requires forall i :: 0 <= i < |table| ==> d[i] == entries[i]
    requires forall i :: 0 <= i < |table| ==> entries[i].variety == table[i].variety
    requires forall i :: 0 <= i < |table| ==> table[i].variety == order[i]
    requires d[|table|].variety == order[|table|]
    ensures Varieties(d) == order
  {
  }

  /** The ratio table lists the first six varieties in the order of a
      distribution. */
  lemma RatiosInOrder()
    ensures |Ratios| + 1 == |VarietyOrder|
    ensures forall i :: 0 <= i < |Ratios| ==> Ratios[i].variety == VarietyOrder[i]
    ensures VarietyOrder[6] == Remainder
  {
  }

  /** The quantity recorded for a variety: the first entry for it, if any. */
  function Lookup(entries: seq<Entry>, v: Variety): Option<int>
  {
    if |entries| == 0 then None
    else if entries[0].variety == v then Some(entries[0].quantity)
    else Lookup(entries[1..], v)
  }

  /** Independent statement of the fold: the quantity at position `i` is what
      share `i` takes from the starting pool minus everything taken before it. */
  lemma {:induction false} AllocateIsSequential(table: seq<ValidShare>, pool: int, i: nat)
    requires i < |table|
    ensures var a := Allocate(table, pool);
            a.entries[i].quantity == Take(table[i], pool - Sum(a.entries[..i]))
    decreases i, 1
  {
    if i == 0 {
      AllocateFirst(table, pool);
    } else {
      AllocateLater(table, pool, i);
    }
  }

  /** The first share takes from the whole pool. */
  lemma AllocateFirst(table: seq<ValidShare>, pool: int)
    requires 0 < |table|
    ensures var a := Allocate(table, pool);
            a.entries[0].quantity == Take(table[0], pool - Sum(a.entries[..0]))
  {
    var q := Take(table[0], pool);
    var rest := Allocate(table[1..], pool - q);
    AllocateStep(table, pool, q, rest.entries, rest.remaining);
    assert Allocate(table, pool).entries[..0] == [];
  }

  /** A later share takes what it takes in the rest of the table, from the
      pool the first share left. */
  lemma {:induction false} AllocateLater(table: seq<ValidShare>, pool: int, i: nat)
    requires 0 < i < |table|
    ensures var a := Allocate(table, pool);
            a.entries[i].quantity == Take(table[i], pool - Sum(a.entries[..i]))
    decreases i, 0
  {
    var q := Take(table[0], pool);
    var rest := Allocate(table[1..], pool - q);
    AllocateIsSequential(table[1..], pool - q, i - 1);
    AllocateStep(table, pool, q, rest.entries, rest.remaining);
    assert table[1..][i - 1] == table[i];
    SequentialCons(Allocate(table, pool).entries, Entry(table[0].variety, q), rest.entries, table[i], pool, i);
  }

  /** The sequential reading survives prepending an entry that took its
      quantity from the pool first. */
  lemma SequentialCons(all: seq<Entry>, e: Entry, entries: seq<Entry>, s: ValidShare, pool: int, i: nat)
    requires all == [e] + entries
    requires 0 < i <= |entries|
    requires entries[i - 1].quantity == Take(s, pool - e.quantity - Sum(entries[..i - 1]))
    ensures all[i].quantity == Take(s, pool - Sum(all[..i]))
  {
    ConsPrefix(e, entries, i - 1);
  }

  /** Indexing and prefix sums past a prepended entry. */
  lemma ConsPrefix(e: Entry, entries: seq<Entry>, k: nat)
    requires k < |entries|
    ensures ([e] + entries)[k + 1] == entries[k]
    ensures Sum(([e] + entries)[..k + 1]) == e.quantity + Sum(entries[..k])
  {
    assert ([e] + entries)[..k + 1][1..] == entries[..k];
  }

  /** Every forced share of any table gets at least one pizza, whatever the
      pool. */
  lemma ForcedSharesGetOne(table: seq<ValidShare>, pool: int, i: nat)
    requires i < |table| && table[i].forcedMin
    ensures Allocate(table, pool).entries[i].quantity >= 1
  {
    AllocateIsSequential(table, pool, i);
  }

  /** Walking the table with a running deficit (one pizza per forced share
      passed), no ratio share turns the deficit into a whole negative pizza:
      truncation toward zero maps a pool in (-divisor, 0] to zero. */
  predicate AbsorbsDeficit(table: seq<ValidShare>, deficit: nat)
  {
    |table| == 0 ||
      (&& (table[0].forcedMin || deficit < table[0].divisor)
       && AbsorbsDeficit(table[1..], deficit + if table[0].forcedMin then 1 else 0))
  }

  /** One step of the fold keeps the quantity non-negative and lets a forced
      share overdraw the pool by at most one more pizza. */
  lemma TakeWithinDeficit(s: ValidShare, pool: int, deficit: nat)
    requires pool >= -(deficit as int)
    requires !s.forcedMin ==> deficit < s.divisor
    ensures Take(s, pool) >= 0
    ensures pool - Take(s, pool) >= -(deficit as int) - (if s.forcedMin then 1 else 0)
  {
    if !s.forcedMin && pool < 0 {
      TruncDivUnique(pool, s.divisor, 0);
    }
  }

  /** Non-negativity of the fold. Each forced share can overdraw the pool by
      one pizza; as long as no later ratio share turns the resulting deficit
      into a whole negative pizza, every quantity is non-negative and the pool
      is overdrawn by at most one pizza per forced share. */
  lemma {:induction false} AllocateNonNegative(table: seq<ValidShare>, pool: int, deficit: nat)
    requires AbsorbsDeficit(table, deficit)
    requires pool >= -(deficit as int)
    ensures forall i :: 0 <= i < |table| ==> Allocate(table, pool).entries[i].quantity >= 0
    ensures Allocate(table, pool).remaining >= -(deficit + ForcedCount(table))
    decreases |table|
  {
    if |table| > 0 {
      var s := table[0];
      var q := Take(s, pool);
      TakeWithinDeficit(s, pool, deficit);
      AllocateNonNegative(table[1..], pool - q, deficit + if s.forcedMin then 1 else 0);
      var a := Allocate(table, pool);
      var rest := Allocate(table[1..], pool - q);
      assert a.entries == [Entry(s.variety, q)] + rest.entries;
    }
  }

  /** Walking the table, every share can still pay for the forced minimums
      from it onwards (itself included): that many pizzas, times its ratio,
      stay below one. */
  predicate LeavesRoomForForced(table: seq<ValidShare>)
  {
    |table| == 0 ||
      (&& ForcedCount(table) < table[0].divisor
       && LeavesRoomForForced(table[1..]))
  }

  /** Exactness of the fold. When the starting pool covers the forced
      minimums, and every share leaves room for the forced ones after it, the
      pool never goes negative. */
  lemma {:induction false} AllocateKeepsPool(table: seq<ValidShare>, pool: int)
    requires LeavesRoomForForced(table)
    requires pool >= ForcedCount(table)
    ensures Allocate(table, pool).remaining >= 0
    decreases |table|
  {
    if |table| > 0 {
      var s := table[0];
      FractionLeavesEnough(pool, s.divisor, ForcedCount(table));
      AllocateKeepsPool(table[1..], pool - Take(s, pool));
    }
  }

  /** A share of one `divisor`-th, with `divisor` above `f`, taken from a
      pool of at least `f` leaves at least `f` behind. */
  lemma FractionLeavesEnough(pool: int, divisor: int, f: nat)
    requires f < divisor && f <= pool
    ensures pool - TruncDiv(pool, divisor) >= f
  {
    var q := TruncDiv(pool, divisor);
    var m := pool - f;
    TruncDivBounds(pool, divisor);
    MulMonotone(f + 1, divisor, m + 1);
    MulMonotone(0, m, f);
    assert (m + 1) * (f + 1) == m * f + m + f + 1;
    if q > m {
      MulMonotone(m + 1, q, divisor);
    }
  }

  /** The table carries the forced minimum exactly on the two varieties the
      allocator checks by name. */
  lemma RatiosForcedByName()
    ensures forall i :: 0 <= i < |Ratios| ==>
      (Ratios[i].forcedMin <==> IsForcedName(Name(Ratios[i].variety)))
  {
  }

  /** Verde and Kickiricki get at least one pizza for every total. */
  lemma ForcedVarietiesGetOne(total: int)
    ensures Lookup(Distribute(total), Verde).Some?
    ensures Lookup(Distribute(total), Verde).value >= 1
    ensures Lookup(Distribute(total), Kickiricki).Some?
    ensures Lookup(Distribute(total), Kickiricki).value >= 1
  {
    ForcedEntries(total);
    LookupForced(Distribute(total));
  }

  /** In a sequence that starts with Gamberetti, Funghi, Verde and
      Kickiricki, the lookups of the two forced varieties find the third and
      fourth entries. */
  lemma LookupForced(d: seq<Entry>)
    requires 4 <= |d|
    requires d[0].variety == Gamberetti && d[1].variety == Funghi
    requires d[2].variety == Verde && d[3].variety == Kickiricki
    ensures Lookup(d, Verde) == Some(d[2].quantity)
    ensures Lookup(d, Kickiricki) == Some(d[3].quantity)
  {
    LookupAt(d, 2, Verde);
    LookupAt(d, 3, Kickiricki);
  }

  /** The first four entries of a distribution: Verde and Kickiricki come
      third and fourth, after two other varieties, with at least one pizza. */
  lemma ForcedEntries(total: int)
    ensures Distribute(total)[0].variety == Gamberetti
    ensures Distribute(total)[1].variety == Funghi
    ensures Distribute(total)[2].variety == Verde && Distribute(total)[2].quantity >= 1
    ensures Distribute(total)[3].variety == Kickiricki && Distribute(total)[3].quantity >= 1
  {
    var d := Distribute(total);
    var a := Allocate(Ratios, total);
    ForcedSharesGetOne(Ratios, total, 2);
    ForcedSharesGetOne(Ratios, total, 3);
  }

  /** The lookup finds the first entry for a variety. */
  lemma {:induction false} LookupAt(entries: seq<Entry>, i: nat, v: Variety)
    requires i < |entries| && entries[i].variety == v
    requires forall j :: 0 <= j < i ==> entries[j].variety != v
    ensures Lookup(entries, v) == Some(entries[i].quantity)
  {
    if i > 0 {
      assert entries[0].variety != v;
      LookupAt(entries[1..], i - 1, v);
    }
  }

  /** For a non-negative total no variety gets a negative count: after the two
      forced varieties the pool is overdrawn by at most two pizzas, and a
      third of that truncates to zero. */
  lemma DistributionNonNegative(total: int)
    requires total >= 0
    ensures forall i :: 0 <= i < |Distribute(total)| ==> Distribute(total)[i].quantity >= 0
  {
    RatiosAreBalanced();
    AllocateNonNegative(Ratios, total, 0);
    var d := Distribute(total);
    var a := Allocate(Ratios, total);
    assert d[..6] == a.entries;
    assert |d| == 7;
    forall i | 0 <= i < 7
      ensures d[i].quantity >= 0
    {
      if i < 6 {
        assert d[i] == a.entries[i];
      }
    }
  }

  /** From two pizzas up the distribution accounts for exactly the total. */
  lemma DistributionSumsToTotal(total: int)
    requires total >= 2
    ensures Sum(Distribute(total)) == total
  {
    RatiosAreBalanced();
    AllocateKeepsPool(Ratios, total);
    var d := Distribute(total);
    SumAppend(d[..6], d[6]);
    assert d == d[..6] + [d[6]];
  }

  /** The declared ratios meet both side conditions of the generic lemmas:
      at most two pizzas of deficit reach the thirds, and every share leaves
      room for the forced varieties after it. */
  lemma RatiosAreBalanced()
    ensures ForcedCount(Ratios) == 2
    ensures AbsorbsDeficit(Ratios, 0)
    ensures LeavesRoomForForced(Ratios)
  {
    var r1, r2, r3, r4, r5 := Ratios[1..], Ratios[2..], Ratios[3..], Ratios[4..], Ratios[5..];
    assert r1[1..] == r2 && r2[1..] == r3 && r3[1..] == r4 && r4[1..] == r5;
    assert r5 == [Ratios[5]] && r5[1..] == [];
    assert ForcedCount(r5) == 0;
    assert ForcedCount(r4) == 0;
    assert ForcedCount(r3) == 1;
    assert ForcedCount(r2) == 2;
    assert ForcedCount(Ratios) == 2;
    assert AbsorbsDeficit(r4, 2);
    assert AbsorbsDeficit(r2, 0);
    assert LeavesRoomForForced(r2);
  }

  /** What a share takes, stated without the fold: given the value `raw` of
      `pool / divisor` rounded toward zero (a remainder of the dividend's
      sign, smaller than the divisor), the share takes `raw`, or one pizza if
      it is forced and `raw` is below one. */
  lemma TakeIs(s: ValidShare, pool: int, raw: int)
    requires 0 <= pool ==> 0 <= pool - raw * s.divisor < s.divisor
    requires pool < 0 ==> -(s.divisor as int) < pool - raw * s.divisor <= 0
    ensures Take(s, pool) == if s.forcedMin && raw < 1 then 1 else raw
  {
    TruncDivUnique(pool, s.divisor, raw);
  }

  /** One step of the fold, from the allocation of the rest of the table. */
  lemma AllocateStep(table: seq<ValidShare>, pool: int, q: int, rest: seq<Entry>, remaining: int)
    requires |table| > 0 && Take(table[0], pool) == q
    requires Allocate(table[1..], pool - q) == Allocation(rest, remaining)
    ensures Allocate(table, pool) == Allocation([Entry(table[0].variety, q)] + rest, remaining)
  {
  }

  /** The distribution from the allocation of the ratio varieties. */
  lemma DistributeFrom(total: int, entries: seq<Entry>, remaining: int)
    ensures Allocate(Ratios, total) == Allocation(entries, remaining) ==>
      Distribute(total) == entries + [Entry(FiorDiMargherita, if remaining < 0 then 0 else remaining)]
  {
  }

  /** For one pizza, or none, the forced minimums overshoot: the two forced
      varieties get one each and nothing else is ordered, so the distribution
      holds two pizzas, not the total. */
  lemma SmallTotalsOvershoot(total: int)
    requires 0 <= total <= 1
    ensures Distribute(total) == [
      Entry(Gamberetti, 0), Entry(Funghi, 0), Entry(Verde, 1), Entry(Kickiricki, 1),
      Entry(Prosciutto, 0), Entry(Salame, 0), Entry(FiorDiMargherita, 0)]
  {
    SmallTotalsAllocation(total);
    DistributeFrom(total, [
      Entry(Gamberetti, 0), Entry(Funghi, 0), Entry(Verde, 1), Entry(Kickiricki, 1),
      Entry(Prosciutto, 0), Entry(Salame, 0)], total - 2);
    SnocSeven(Entry(Gamberetti, 0), Entry(Funghi, 0), Entry(Verde, 1), Entry(Kickiricki, 1),
      Entry(Prosciutto, 0), Entry(Salame, 0), Entry(FiorDiMargherita, 0));
  }

  /** The six ratio varieties for a total of zero or one: the pool ends two
      pizzas below the total. */
  lemma SmallTotalsAllocation(total: int)
    requires 0 <= total <= 1
    ensures Allocate(Ratios, total) == Allocation([
      Entry(Gamberetti, 0), Entry(Funghi, 0), Entry(Verde, 1), Entry(Kickiricki, 1),
      Entry(Prosciutto, 0), Entry(Salame, 0)], total - 2)
  {
    SmallTotalsMiddle(total);
    TakeIs(Ratios[0], total, 0);
    AllocateStep(Ratios, total, 0, [Entry(Funghi, 0), Entry(Verde, 1), Entry(Kickiricki, 1),
      Entry(Prosciutto, 0), Entry(Salame, 0)], total - 2);
    ConsSix(Entry(Gamberetti, 0), Entry(Funghi, 0), Entry(Verde, 1), Entry(Kickiricki, 1),
      Entry(Prosciutto, 0), Entry(Salame, 0));
  }

  /** Funghi and Verde for a total of zero or one: a quarter of at most one
      pizza is none, and Verde is forced to one. */
  lemma SmallTotalsMiddle(total: int)
    requires 0 <= total <= 1
    ensures Allocate(Ratios[1..], total) == Allocation([
      Entry(Funghi, 0), Entry(Verde, 1), Entry(Kickiricki, 1),
      Entry(Prosciutto, 0), Entry(Salame, 0)], total - 2)
  {
    var r1, r2, r3 := Ratios[1..], Ratios[2..], Ratios[3..];
    assert r1[1..] == r2 && r2[1..] == r3;
    SmallTotalsTail(total);
    TakeIs(Ratios[2], total, 0);
    AllocateStep(r2, total, 1, [Entry(Kickiricki, 1), Entry(Prosciutto, 0), Entry(Salame, 0)], total - 2);
    TakeIs(Ratios[1], total, 0);
    AllocateStep(r1, total, 0, [Entry(Verde, 1)] + [Entry(Kickiricki, 1), Entry(Prosciutto, 0), Entry(Salame, 0)], total - 2);
    ConsFive(Entry(Funghi, 0), Entry(Verde, 1), Entry(Kickiricki, 1),
      Entry(Prosciutto, 0), Entry(Salame, 0));
  }

  /** The last three steps for a total of zero or one: Kickiricki takes its
      forced pizza from the pool Verde left, and the thirds of the overdrawn
      pool truncate to zero. */
  lemma SmallTotalsTail(total: int)
    requires 0 <= total <= 1
    ensures Allocate(Ratios[3..], total - 1)
      == Allocation([Entry(Kickiricki, 1), Entry(Prosciutto, 0), Entry(Salame, 0)], total - 2)
  {
    var r3, r4, r5 := Ratios[3..], Ratios[4..], Ratios[5..];
    assert r3[1..] == r4 && r4[1..] == r5 && r5[1..] == [];
    TakeIs(Ratios[5], total - 2, 0);
    AllocateStep(r5, total - 2, 0, [], total - 2);
    TakeIs(Ratios[4], total - 2, 0);
    AllocateStep(r4, total - 2, 0, [Entry(Salame, 0)] + [], total - 2);
    TakeIs(Ratios[3], total - 1, 0);
    AllocateStep(r3, total - 1, 1, [Entry(Prosciutto, 0)] + ([Entry(Salame, 0)] + []), total - 2);
    ConsThree(Entry(Kickiricki, 1), Entry(Prosciutto, 0), Entry(Salame, 0));
  }

  /** The worked example for twenty pizzas: every variety takes its ratio of
      what is left (Funghi gets a quarter of 18, not of 20). */
  lemma TwentyPizzasExample()
    ensures Distribute(20) == [
      Entry(Gamberetti, 2), Entry(Funghi, 4), Entry(Verde, 3), Entry(Kickiricki, 2),
      Entry(Prosciutto, 3), Entry(Salame, 2), Entry(FiorDiMargherita, 4)]
    ensures Sum(Distribute(20)) == 20
  {
    TwentyPizzasAllocation();
    DistributeFrom(20, [
      Entry(Gamberetti, 2), Entry(Funghi, 4), Entry(Verde, 3), Entry(Kickiricki, 2),
      Entry(Prosciutto, 3), Entry(Salame, 2)], 4);
    SnocSeven(Entry(Gamberetti, 2), Entry(Funghi, 4), Entry(Verde, 3), Entry(Kickiricki, 2),
      Entry(Prosciutto, 3), Entry(Salame, 2), Entry(FiorDiMargherita, 4));
    SumOfList([Entry(Gamberetti, 2), Entry(Funghi, 4), Entry(Verde, 3), Entry(Kickiricki, 2),
      Entry(Prosciutto, 3), Entry(Salame, 2), Entry(FiorDiMargherita, 4)]);
  }

  /** The six ratio varieties for twenty pizzas, leaving four. */
  lemma TwentyPizzasAllocation()
    ensures Allocate(Ratios, 20) == Allocation([
      Entry(Gamberetti, 2), Entry(Funghi, 4), Entry(Verde, 3), Entry(Kickiricki, 2),
      Entry(Prosciutto, 3), Entry(Salame, 2)], 4)
  {
    TwentyPizzasMiddle();
    TakeIs(Ratios[0], 20, 2);
    AllocateStep(Ratios, 20, 2, [Entry(Funghi, 4), Entry(Verde, 3), Entry(Kickiricki, 2),
      Entry(Prosciutto, 3), Entry(Salame, 2)], 4);
    ConsSix(Entry(Gamberetti, 2), Entry(Funghi, 4), Entry(Verde, 3), Entry(Kickiricki, 2),
      Entry(Prosciutto, 3), Entry(Salame, 2));
  }

  /** Funghi and Verde for twenty pizzas, from the eighteen Gamberetti left. */
  lemma TwentyPizzasMiddle()
    ensures Allocate(Ratios[1..], 18) == Allocation([
      Entry(Funghi, 4), Entry(Verde, 3), Entry(Kickiricki, 2),
      Entry(Prosciutto, 3), Entry(Salame, 2)], 4)
  {
    var r1, r2, r3 := Ratios[1..], Ratios[2..], Ratios[3..];
    assert r1[1..] == r2 && r2[1..] == r3;
    TwentyPizzasTail();
    TakeIs(Ratios[2], 14, 3);
    AllocateStep(r2, 14, 3, [Entry(Kickiricki, 2), Entry(Prosciutto, 3), Entry(Salame, 2)], 4);
    TakeIs(Ratios[1], 18, 4);
    AllocateStep(r1, 18, 4, [Entry(Verde, 3)] + [Entry(Kickiricki, 2), Entry(Prosciutto, 3), Entry(Salame, 2)], 4);
    ConsFive(Entry(Funghi, 4), Entry(Verde, 3), Entry(Kickiricki, 2),
      Entry(Prosciutto, 3), Entry(Salame, 2));
  }

  /** The last three steps for twenty pizzas, from the eleven Verde left. */
  lemma TwentyPizzasTail()
    ensures Allocate(Ratios[3..], 11)
      == Allocation([Entry(Kickiricki, 2), Entry(Prosciutto, 3), Entry(Salame, 2)], 4)
  {
    var r3, r4, r5 := Ratios[3..], Ratios[4..], Ratios[5..];
    assert r3[1..] == r4 && r4[1..] == r5 && r5[1..] == [];
    TakeIs(Ratios[5], 6, 2);
    AllocateStep(r5, 6, 2, [], 4);
    TakeIs(Ratios[4], 9, 3);
    AllocateStep(r4, 9, 3, [Entry(Salame, 2)] + [], 4);
    TakeIs(Ratios[3], 11, 2);
    AllocateStep(r3, 11, 2, [Entry(Prosciutto, 3)] + ([Entry(Salame, 2)] + []), 4);
    ConsThree(Entry(Kickiricki, 2), Entry(Prosciutto, 3), Entry(Salame, 2));
  }

  /** Prepending to a display of five entries. */
  lemma ConsSix(e0: Entry, e1: Entry, e2: Entry, e3: Entry, e4: Entry, e5: Entry)
    ensures [e0] + [e1, e2, e3, e4, e5] == [e0, e1, e2, e3, e4, e5]
  {
  }

  /** Building a display of five entries from two prepended to three. */
  lemma ConsFive(e1: Entry, e2: Entry, e3: Entry, e4: Entry, e5: Entry)
    ensures [e1] + ([e2] + [e3, e4, e5]) == [e1, e2, e3, e4, e5]
  {
  }

  /** Building a display of three entries from the back. */
  lemma ConsThree(e3: Entry, e4: Entry, e5: Entry)
    ensures [e3] + ([e4] + ([e5] + [])) == [e3, e4, e5]
  {
  }

  /** Appending the remainder entry to a display of six. */
  lemma SnocSeven(e0: Entry, e1: Entry, e2: Entry, e3: Entry, e4: Entry, e5: Entry, e6: Entry)
    ensures [e0, e1, e2, e3, e4, e5] + [e6] == [e0, e1, e2, e3, e4, e5, e6]
  {
  }

  /** The sum of a seven-entry distribution, written out. */
  lemma SumOfList(d: seq<Entry>)
    requires |d| == 7
    ensures Sum(d) == d[0].quantity + d[1].quantity + d[2].quantity + d[3].quantity
                      + d[4].quantity + d[5].quantity + d[6].quantity
  {
    var d1, d2, d3, d4, d5, d6 := d[1..], d[2..], d[3..], d[4..], d[5..], d[6..];
    assert d1[1..] == d2 && d2[1..] == d3 && d3[1..] == d4 && d4[1..] == d5 && d5[1..] == d6;
    assert d6[1..] == [];
    assert Sum(d6) == d[6].quantity;
  }

  /** The sum of a distribution, for every total the order can start from:
      the total itself from two pizzas up, and two for a total of zero or
      one. */
  lemma DistributionTotal(total: int)
    requires total >= 0
    ensures Sum(Distribute(total)) == if total >= 2 then total else 2
    ensures Sum(Distribute(total)) == total <==> total >= 2
  {
    if total >= 2 {
      DistributionSumsToTotal(total);
    } else {
      SmallTotalsOvershoot(total);
      SumOfList([Entry(Gamberetti, 0), Entry(Funghi, 0), Entry(Verde, 1), Entry(Kickiricki, 1),
        Entry(Prosciutto, 0), Entry(Salame, 0), Entry(FiorDiMargherita, 0)]);
    }
  }

  /** Sum distributes over appending one entry. */
  lemma {:induction false} SumAppend(entries: seq<Entry>, e: Entry)
    ensures Sum(entries + [e]) == Sum(entries) + e.quantity
  {
    if |entries| > 0 {
      assert (entries + [e])[1..] == entries[1..] + [e];
      SumAppend(entries[1..], e);
    }
  }
}
