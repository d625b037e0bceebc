// The settlement thread: it pays dealers for their sales once a grace period is
// over. Money is in integer cents; the clock counts seconds of UTC.

module Settlements {
  import opened Options

  const DAY := 86400

  // ---- Dates as the tables store and compare them ----

  /** How sale dates are written: counter sales with the time of day, marketplace sales without. */
  datatype Origin = Counter | Marketplace

  /**
   * A stored date as a number in the order of its text. A bare date sorts before every time of its
   * own day, so each day takes one place more than it has seconds.
   */
  function StampAt(origin: Origin, clock: nat): int {
    DayStart(clock / DAY) + if origin.Counter? then 1 + clock % DAY else 0
  }

  /** The bare date of a day. */
  function DayStart(day: int): int {
    day * (DAY + 1)
  }

  // ---- Tables ----

  /** A sale of an item, with the dealer who owns the item, if any; `fees` are platform fee and shipping together. */
  datatype Sale = Sale(owner: Option<nat>, stamp: int, price: int, net: int, fees: int)

  datatype Status = Pending | Paid | Cancelled

  datatype Settlement = Settlement(owner: nat, start: int, end: int, totalSales: int, totalFees: int, netDue: int,
                                   status: Status)

  datatype Book = Book(clock: nat, sales: seq<Sale>, settlements: seq<Settlement>)

  /**
   * `zeroSumIsZero` tells whether the store prints a sum of 0 over some rows as the text "0", and
   * `zone` how many seconds the server's local time is ahead of UTC at a moment.
   */
  datatype Config = Config(grace: int, checkHour: int, zeroSumIsZero: bool, zone: int -> int)

  function LocalTime(t: int, cfg: Config): int {
    t + cfg.zone(t)
  }

  /** The thread acts in one local hour of the day. */
  predicate AtHour(clock: nat, cfg: Config) {
    LocalTime(clock, cfg) % DAY / 3600 == cfg.checkHour
  }

  /** The local date as it was `grace` days before the clock. */
  function Cutoff(clock: nat, cfg: Config): int {
    DayStart(LocalTime(clock - cfg.grace * DAY, cfg) / DAY)
  }

  datatype Event =
    | CounterSale(wait: nat, owner: Option<nat>, price: int, platformFee: int, shipping: int)
    | MarketplaceSale(wait: nat, owner: Option<nat>, price: int)
    | Tick(wait: nat)
    | MarkPaid(wait: nat, index: nat)

  // ---- Queries ----

  /** The settlement keeps a sale of this date out of later ones. */
  predicate Covers(st: Settlement, owner: nat, stamp: int) {
    st.owner == owner && st.end >= stamp && st.status != Cancelled
  }

  predicate Covered(sts: seq<Settlement>, owner: nat, stamp: int) {
    exists k :: 0 <= k < |sts| && Covers(sts[k], owner, stamp)
  }

  predicate Due(sale: Sale, sts: seq<Settlement>, cutoff: int, owner: nat) {
    sale.owner == Some(owner) && sale.stamp <= cutoff && !Covered(sts, owner, sale.stamp)
  }

  /** Which sales the two queries of a tick select for a dealer. */
  function DueMask(b: Book, cutoff: int, owner: nat): (mask: seq<bool>)
    ensures |mask| == |b.sales|
    ensures forall i :: 0 <= i < |mask| ==> mask[i] == Due(b.sales[i], b.settlements, cutoff, owner)
  {
    seq(|b.sales|, i requires 0 <= i < |b.sales| => Due(b.sales[i], b.settlements, cutoff, owner))
  }

  function SumNet(sales: seq<Sale>, mask: seq<bool>): int
    requires |mask| == |sales|
  {
    if sales == [] then 0
    else SumNet(sales[1..], mask[1..]) + if mask[0] then sales[0].net else 0
  }

  function SumFees(sales: seq<Sale>, mask: seq<bool>): int
    requires |mask| == |sales|
  {
    if sales == [] then 0
    else SumFees(sales[1..], mask[1..]) + if mask[0] then sales[0].fees else 0
  }

  /** The earliest and latest date among the selected sales. */
  function Span(sales: seq<Sale>, mask: seq<bool>): (r: Option<(int, int)>)
    requires |mask| == |sales|
    ensures r.None? <==> forall i :: 0 <= i < |mask| ==> !mask[i]
    ensures r.Some? ==> forall i :: 0 <= i < |mask| && mask[i] ==> r.value.0 <= sales[i].stamp <= r.value.1
    ensures r.Some? ==> exists i :: 0 <= i < |mask| && mask[i] && sales[i].stamp == r.value.1
    ensures r.Some? ==> exists i :: 0 <= i < |mask| && mask[i] && sales[i].stamp == r.value.0
  {
    if sales == [] then None
    else
      var n := |sales| - 1;
      var rest, s := Span(sales[..n], mask[..n]), sales[n].stamp;
      if !mask[n] then rest
      else if rest.None? then Some((s, s))
      else Some((if s < rest.value.0 then s else rest.value.0, if s > rest.value.1 then s else rest.value.1))
  }

  predicate HasDue(b: Book, cutoff: int, owner: nat) {
    exists i :: 0 <= i < |b.sales| && Due(b.sales[i], b.settlements, cutoff, owner)
  }

  /** The dealers with due sales, each once. */
  function DueOwners(b: Book, cutoff: int, n: nat): (owners: seq<nat>)
    requires n <= |b.sales|
    ensures forall i, j :: 0 <= i < j < |owners| ==> owners[i] != owners[j]
    ensures forall o :: o in owners <==> exists i :: 0 <= i < n && Due(b.sales[i], b.settlements, cutoff, o)
  {
    if n == 0 then []
    else
      var rest, s := DueOwners(b, cutoff, n - 1), b.sales[n - 1];
      if s.owner.Some? && Due(s, b.settlements, cutoff, s.owner.value) && s.owner.value !in rest
      then rest + [s.owner.value] else rest
  }

  // ---- Steps ----

  /** The total the skip test sees as "0". */
  predicate Skipped(b: Book, cutoff: int, owner: nat, cfg: Config) {
    var mask := DueMask(b, cutoff, owner);
    Span(b.sales, mask).None? || (cfg.zeroSumIsZero && SumNet(b.sales, mask) == 0)
  }

  function SettleOwner(b: Book, cutoff: int, owner: nat, cfg: Config): Book {
    if Skipped(b, cutoff, owner, cfg) then b
    else
      var mask := DueMask(b, cutoff, owner);
      var (start, end) := Span(b.sales, mask).value;
      var net, fees := SumNet(b.sales, mask), SumFees(b.sales, mask);
      b.(settlements := b.settlements + [Settlement(owner, start, end, net, fees, net - fees, Pending)])
  }

  function SettleAll(b: Book, cutoff: int, owners: seq<nat>, cfg: Config): Book
    decreases owners
  {
    if owners == [] then b else SettleAll(SettleOwner(b, cutoff, owners[0], cfg), cutoff, owners[1..], cfg)
  }

  function RunTick(b: Book, cfg: Config): Book {
    if !AtHour(b.clock, cfg) then b
    else
      var cutoff := Cutoff(b.clock, cfg);
      SettleAll(b, cutoff, DueOwners(b, cutoff, |b.sales|), cfg)
  }

  function Step(b: Book, e: Event, cfg: Config): Book {
    var now := b.(clock := b.clock + e.wait);
    match e
    case CounterSale(_, owner, price, platformFee, shipping) =>
      if price <= 0 then now
      else
        now.(sales := now.sales + [Sale(owner, StampAt(Counter, now.clock), price, price - platformFee - shipping,
                                        platformFee + shipping)])
    case MarketplaceSale(_, owner, price) =>
      now.(sales := now.sales + [Sale(owner, StampAt(Marketplace, now.clock), price, price, 0)])
    case Tick(_) => RunTick(now, cfg)
    case MarkPaid(_, index) =>
      if index >= |now.settlements| then now
      else now.(settlements := now.settlements[index := now.settlements[index].(status := Paid)])
  }

  const EMPTY := Book(0, [], [])

  function Run(es: seq<Event>, cfg: Config): Book
    decreases es
  {
    if es == [] then EMPTY else Step(Run(es[..|es| - 1], cfg), es[|es| - 1], cfg)
  }

  // ---- Which sales a tick may select ----

  /**
   * A tick goes by days: it can select a counter sale of an earlier UTC day than its local cutoff, and a
   * marketplace sale of the cutoff's day too.
   */
  lemma SelectedByDay(b: Book, e: Event, cfg: Config, tick: nat, owner: nat)
    requires (e.CounterSale? && e.price > 0) || e.MarketplaceSale?
    requires e.owner == Some(owner)
    ensures var t := Step(b, e, cfg);
            var day := (b.clock + e.wait) / 86400;
            var past := tick - 86400 * cfg.grace;
            var cutoff := (past + cfg.zone(past)) / 86400;
            && |t.sales| == |b.sales| + 1
            && (t.sales[|b.sales|].stamp <= Cutoff(tick, cfg) <==>
                if e.CounterSale? then day < cutoff else day <= cutoff)
            && (Due(t.sales[|b.sales|], t.settlements, Cutoff(tick, cfg), owner) <==>
                && (if e.CounterSale? then day < cutoff else day <= cutoff)
                && !Covered(t.settlements, owner, t.sales[|b.sales|].stamp))
  {
  }

  // ---- Which settlement paid for a sale ----

  /** The sale was settled by settlement `k`: the first that covers it. */
  predicate PaidBy(b: Book, k: nat, i: nat)
    requires k < |b.settlements| && i < |b.sales|
  {
    var st, sale := b.settlements[k], b.sales[i];
    && sale.owner == Some(st.owner) && Covers(st, st.owner, sale.stamp)
    && !Covered(b.settlements[..k], st.owner, sale.stamp)
  }

  function PaidMask(b: Book, k: nat): (mask: seq<bool>)
    requires k < |b.settlements|
    ensures |mask| == |b.sales|
    ensures forall i :: 0 <= i < |mask| ==> mask[i] == PaidBy(b, k, i)
  {
    seq(|b.sales|, i requires 0 <= i < |b.sales| => PaidBy(b, k, i))
  }

  /** A settlement pays exactly for the sales it settles, and for its fees. */
  predicate Balanced(b: Book, k: nat)
    requires k < |b.settlements|
  {
    var st, mask := b.settlements[k], PaidMask(b, k);
    && st.totalSales == SumNet(b.sales, mask) && st.totalFees == SumFees(b.sales, mask)
    && st.totalSales == st.totalFees + st.netDue
  }

  ghost predicate Conserved(b: Book) {
    forall k :: 0 <= k < |b.settlements| ==> Balanced(b, k)
  }

  lemma CoveredPrefix(sts: seq<Settlement>, k: nat, j: nat, owner: nat, stamp: int)
    requires j < k <= |sts| && Covers(sts[j], owner, stamp)
    ensures Covered(sts[..k], owner, stamp)
  {
    assert sts[..k][j] == sts[j];
  }

  /** No sale is settled twice. */
  lemma PaidOnce(b: Book, j: nat, k: nat, i: nat)
    requires j < |b.settlements| && k < |b.settlements| && i < |b.sales|
    requires PaidBy(b, j, i) && PaidBy(b, k, i)
    ensures j == k
  {
    var owner, stamp := b.sales[i].owner.value, b.sales[i].stamp;
    if j < k {
      CoveredPrefix(b.settlements, k, j, owner, stamp);
    } else if k < j {
      CoveredPrefix(b.settlements, j, k, owner, stamp);
    }
  }

  /** A covered sale is settled by the first settlement that covers it. */
  lemma {:induction false} SomePayer(b: Book, i: nat, n: nat) returns (k: nat)
    requires i < |b.sales| && b.sales[i].owner.Some? && n <= |b.settlements|
    requires Covered(b.settlements[..n], b.sales[i].owner.value, b.sales[i].stamp)
    ensures k < n && PaidBy(b, k, i)
    decreases n
  {
    var owner, stamp := b.sales[i].owner.value, b.sales[i].stamp;
    var m: nat :| m < n && Covers(b.settlements[..n][m], owner, stamp);
    assert m < n - 1 ==> b.settlements[..n - 1][m] == b.settlements[m];
    if Covered(b.settlements[..n - 1], owner, stamp) {
      k := SomePayer(b, i, n - 1);
    } else {
      k := n - 1;
    }
  }

  // ---- The ledger: which sales each settlement was made for ----

  function DueSet(b: Book, cutoff: int, owner: nat): (s: set<nat>)
    ensures forall i :: i in s ==> i < |b.sales|
  {
    set i: nat | i < |b.sales| && Due(b.sales[i], b.settlements, cutoff, owner)
  }

  /** The sales summed for each settlement of a tick, as they stood when it was made. */
  function TickLedger(b: Book, cutoff: int, owners: seq<nat>, cfg: Config): seq<set<nat>>
    decreases owners
  {
    if owners == [] then []
    else
      (if Skipped(b, cutoff, owners[0], cfg) then [] else [DueSet(b, cutoff, owners[0])]) +
      TickLedger(SettleOwner(b, cutoff, owners[0], cfg), cutoff, owners[1..], cfg)
  }

  function Noted(b: Book, ledger: seq<set<nat>>, e: Event, cfg: Config): seq<set<nat>> {
    var now := b.(clock := b.clock + e.wait);
    if e.Tick? && AtHour(now.clock, cfg) then
      ledger + TickLedger(now, Cutoff(now.clock, cfg), DueOwners(now, Cutoff(now.clock, cfg), |now.sales|), cfg)
    else ledger
  }

  /** For every settlement of a run, the sales that went into its sums. */
  function Ledger(es: seq<Event>, cfg: Config): seq<set<nat>>
    decreases es
  {
    if es == [] then [] else Noted(Run(es[..|es| - 1], cfg), Ledger(es[..|es| - 1], cfg), es[|es| - 1], cfg)
  }

  function MaskOf(s: set<nat>, n: nat): (mask: seq<bool>)
    ensures |mask| == n && forall i :: 0 <= i < n ==> mask[i] == (i in s)
  {
    seq(n, i requires 0 <= i < n => i in s)
  }

  /** The settlement sums its ledger entry, stands, and is the one that settled those sales. */
  predicate RowRecorded(b: Book, k: nat, s: set<nat>)
    requires k < |b.settlements|
  {
    var st, mask := b.settlements[k], MaskOf(s, |b.sales|);
    && st.status != Cancelled
    && (forall i :: i in s ==> i < |b.sales| && PaidBy(b, k, i))
    && st.totalSales == SumNet(b.sales, mask) && st.totalFees == SumFees(b.sales, mask)
    && st.totalSales == st.totalFees + st.netDue
  }

  ghost predicate Recorded(b: Book, ledger: seq<set<nat>>) {
    |ledger| == |b.settlements| && forall k :: 0 <= k < |ledger| ==> RowRecorded(b, k, ledger[k])
  }

  /** No settlement settles a sale beyond those it was made for. */
  ghost predicate Final(b: Book, ledger: seq<set<nat>>)
    requires |ledger| == |b.settlements|
  {
    forall k: nat, i: nat :: k < |ledger| && i < |b.sales| && PaidBy(b, k, i) ==> i in ledger[k]
  }

  /** Every settlement ends before the clock's own day. */
  ghost predicate Closed(b: Book) {
    forall k :: 0 <= k < |b.settlements| ==> b.settlements[k].end < DayStart(b.clock / DAY)
  }

  /** At every hour at which the thread acts, its cutoff lies before the day that new sales are dated. */
  ghost predicate GraceEnough(cfg: Config) {
    forall c: nat :: AtHour(c, cfg) ==> Cutoff(c, cfg) < DayStart(c / DAY)
  }

  // ---- What every step keeps ----

  lemma DaysGrow(a: nat, c: nat)
    requires a <= c
    ensures DayStart(a / DAY) <= DayStart(c / DAY)
  {
  }

  lemma WaitKeeps(b: Book, ledger: seq<set<nat>>, wait: nat)
    requires Recorded(b, ledger)
    ensures var t := b.(clock := b.clock + wait);
            && Recorded(t, ledger) && (Final(b, ledger) ==> Final(t, ledger)) && (Closed(b) ==> Closed(t))
  {
    hide SumNet, SumFees;
    var t := b.(clock := b.clock + wait);
    DaysGrow(b.clock, t.clock);
    forall k: nat, i: nat | k < |b.settlements| && i < |b.sales| ensures PaidBy(t, k, i) == PaidBy(b, k, i) {
    }
    forall k | 0 <= k < |ledger| ensures RowRecorded(t, k, ledger[k]) {
      assert RowRecorded(b, k, ledger[k]);
    }
  }

  lemma {:induction false} SumSnoc(sales: seq<Sale>, mask: seq<bool>, sale: Sale, m: bool)
    requires |mask| == |sales|
    ensures SumNet(sales + [sale], mask + [m]) == SumNet(sales, mask) + if m then sale.net else 0
    ensures SumFees(sales + [sale], mask + [m]) == SumFees(sales, mask) + if m then sale.fees else 0
    decreases sales
  {
    if sales != [] {
      SumSnoc(sales[1..], mask[1..], sale, m);
      assert (sales + [sale])[1..] == sales[1..] + [sale] && (mask + [m])[1..] == mask[1..] + [m];
    }
  }

  /** A new sale joins no settlement made before, given that it is dated after every settlement's end. */
  lemma SaleKeeps(b: Book, ledger: seq<set<nat>>, sale: Sale)
    requires Recorded(b, ledger)
    ensures var t := b.(sales := b.sales + [sale]);
            && Recorded(t, ledger)
            && (Final(b, ledger) && Closed(b) && sale.stamp >= DayStart(b.clock / DAY) ==>
                  Final(t, ledger) && Closed(t))
  {
    hide SumNet, SumFees, DayStart;
    var t := b.(sales := b.sales + [sale]);
    var n := |b.sales|;
    forall k: nat, i: nat | k < |b.settlements| && i < n ensures PaidBy(t, k, i) == PaidBy(b, k, i) {
      assert t.sales[i] == b.sales[i];
    }
    forall k | 0 <= k < |ledger| ensures RowRecorded(t, k, ledger[k]) {
      assert RowRecorded(b, k, ledger[k]);
      assert MaskOf(ledger[k], n + 1) == MaskOf(ledger[k], n) + [false];
      SumSnoc(b.sales, MaskOf(ledger[k], n), sale, false);
    }
  }

  /** Marking a settlement paid changes neither what it settles nor any sum. */
  lemma PaidKeeps(b: Book, ledger: seq<set<nat>>, index: nat)
    requires Recorded(b, ledger) && index < |b.settlements|
    ensures var t := b.(settlements := b.settlements[index := b.settlements[index].(status := Paid)]);
            && Recorded(t, ledger) && (Final(b, ledger) ==> Final(t, ledger)) && (Closed(b) ==> Closed(t))
  {
    hide SumNet, SumFees, DayStart;
    var t := b.(settlements := b.settlements[index := b.settlements[index].(status := Paid)]);
    assert RowRecorded(b, index, ledger[index]);
    forall k: nat, i: nat | k < |b.settlements| && i < |b.sales| ensures PaidBy(t, k, i) == PaidBy(b, k, i) {
      SameCover(b.settlements[..k], t.settlements[..k], t.settlements[k].owner, b.sales[i].stamp);
    }
    forall k | 0 <= k < |ledger| ensures RowRecorded(t, k, ledger[k]) {
      assert RowRecorded(b, k, ledger[k]);
    }
  }

  lemma SameCover(s: seq<Settlement>, t: seq<Settlement>, owner: nat, stamp: int)
    requires |s| == |t|
    requires forall k :: 0 <= k < |s| ==> (Covers(s[k], owner, stamp) <==> Covers(t[k], owner, stamp))
    ensures Covered(s, owner, stamp) == Covered(t, owner, stamp)
  {
  }

  /** The period of a settlement runs exactly from the first to the last sale it settles. */
  predicate SpansExactly(b: Book, k: nat)
    requires k < |b.settlements|
  {
    var st := b.settlements[k];
    && (forall i :: 0 <= i < |b.sales| && PaidBy(b, k, i) ==> st.start <= b.sales[i].stamp <= st.end)
    && (exists i :: 0 <= i < |b.sales| && PaidBy(b, k, i) && b.sales[i].stamp == st.start)
    && (exists i :: 0 <= i < |b.sales| && PaidBy(b, k, i) && b.sales[i].stamp == st.end)
  }

  /** The new settlement of a tick settles exactly the sales the tick selected. */
  lemma SelectedArePaid(b: Book, cutoff: int, owner: nat, cfg: Config)
    requires !Skipped(b, cutoff, owner, cfg)
    ensures var t := SettleOwner(b, cutoff, owner, cfg);
            && |t.settlements| == |b.settlements| + 1
            && PaidMask(t, |b.settlements|) == DueMask(b, cutoff, owner)
            && SpansExactly(t, |b.settlements|)
            && t.settlements[|b.settlements|].end <= cutoff && t.settlements[|b.settlements|].status == Pending
  {
    hide SumNet, SumFees;
    var t := SettleOwner(b, cutoff, owner, cfg);
    var n := |b.settlements|;
    var mask := DueMask(b, cutoff, owner);
    var first :| 0 <= first < |mask| && mask[first] && b.sales[first].stamp == Span(b.sales, mask).value.0;
    var last :| 0 <= last < |mask| && mask[last] && b.sales[last].stamp == Span(b.sales, mask).value.1;
    assert t.settlements[..n] == b.settlements;
    assert t.settlements[n].end <= cutoff;
  }

  /** A turn adds its settlement to the ledger with the sales it summed, and leaves every earlier entry as it is. */
  lemma SettleKeeps(b: Book, ledger: seq<set<nat>>, cutoff: int, owner: nat, cfg: Config)
    requires Recorded(b, ledger)
    ensures var t := SettleOwner(b, cutoff, owner, cfg);
            var after := ledger + if Skipped(b, cutoff, owner, cfg) then [] else [DueSet(b, cutoff, owner)];
            && Recorded(t, after) && (Final(b, ledger) ==> Final(t, after))
            && (Closed(b) && cutoff < DayStart(b.clock / DAY) ==> Closed(t))
            && t.clock == b.clock
  {
    hide SumNet, SumFees, Skipped, DayStart, SpansExactly;
    var t := SettleOwner(b, cutoff, owner, cfg);
    if Skipped(b, cutoff, owner, cfg) {
      assert ledger + [] == ledger;
    } else {
      var n, after := |b.settlements|, ledger + [DueSet(b, cutoff, owner)];
      SelectedArePaid(b, cutoff, owner, cfg);
      assert MaskOf(DueSet(b, cutoff, owner), |b.sales|) == DueMask(b, cutoff, owner);
      forall k: nat, i: nat | k < n && i < |b.sales| ensures PaidBy(t, k, i) == PaidBy(b, k, i) {
        assert t.settlements[..k] == b.settlements[..k];
      }
      forall i: nat | i < |b.sales| ensures PaidBy(t, n, i) == (i in DueSet(b, cutoff, owner)) {
        assert PaidMask(t, n)[i] == DueMask(b, cutoff, owner)[i];
      }
      forall k | 0 <= k < |after| ensures RowRecorded(t, k, after[k]) {
        if k < n {
          assert RowRecorded(b, k, ledger[k]);
        }
      }
    }
  }

  lemma {:induction false} SettleAllKeeps(b: Book, ledger: seq<set<nat>>, cutoff: int, owners: seq<nat>, cfg: Config)
    requires Recorded(b, ledger)
    ensures var t, after := SettleAll(b, cutoff, owners, cfg), ledger + TickLedger(b, cutoff, owners, cfg);
            && Recorded(t, after) && (Final(b, ledger) ==> Final(t, after))
            && (Closed(b) && cutoff < DayStart(b.clock / DAY) ==> Closed(t))
    decreases owners
  {
    hide RowRecorded, Final, Closed, SettleOwner, Skipped, DayStart, DueSet;
    if owners == [] {
      assert ledger + [] == ledger;
    } else {
      var own := if Skipped(b, cutoff, owners[0], cfg) then [] else [DueSet(b, cutoff, owners[0])];
      var next := SettleOwner(b, cutoff, owners[0], cfg);
      SettleKeeps(b, ledger, cutoff, owners[0], cfg);
      SettleAllKeeps(next, ledger + own, cutoff, owners[1..], cfg);
      assert ledger + own + TickLedger(next, cutoff, owners[1..], cfg) ==
             ledger + (own + TickLedger(next, cutoff, owners[1..], cfg));
    }
  }

  /** Sales, ticks and payment marks keep the ledger true; with enough grace no entry is ever added to. */
  lemma StepKeeps(b: Book, ledger: seq<set<nat>>, e: Event, cfg: Config)
    requires Recorded(b, ledger)
    ensures var t, after := Step(b, e, cfg), Noted(b, ledger, e, cfg);
            && Recorded(t, after)
            && (GraceEnough(cfg) && Final(b, ledger) && Closed(b) ==> Final(t, after) && Closed(t))
  {
    hide RowRecorded, Final, Closed, SettleAll, DueOwners, TickLedger, Cutoff, AtHour;
    var now := b.(clock := b.clock + e.wait);
    WaitKeeps(b, ledger, e.wait);
    match e
    case CounterSale(_, owner, price, platformFee, shipping) =>
      var fees := platformFee + shipping;
      SaleKeeps(now, ledger, Sale(owner, StampAt(Counter, now.clock), price, price - platformFee - shipping, fees));
    case MarketplaceSale(_, owner, price) =>
      SaleKeeps(now, ledger, Sale(owner, StampAt(Marketplace, now.clock), price, price, 0));
    case Tick(_) =>
      var cutoff := Cutoff(now.clock, cfg);
      SettleAllKeeps(now, ledger, cutoff, DueOwners(now, cutoff, |now.sales|), cfg);
    case MarkPaid(_, index) =>
      if index < |now.settlements| {
        PaidKeeps(now, ledger, index);
      }
  }

  lemma {:induction false} RunLedger(es: seq<Event>, cfg: Config)
    ensures Recorded(Run(es, cfg), Ledger(es, cfg))
    ensures GraceEnough(cfg) ==> Final(Run(es, cfg), Ledger(es, cfg)) && Closed(Run(es, cfg))
    decreases es
  {
    hide RowRecorded, Final, Closed, Step, Noted, GraceEnough;
    if es == [] {
      EmptyRecorded();
    } else {
      RunLedger(es[..|es| - 1], cfg);
      StepKeeps(Run(es[..|es| - 1], cfg), Ledger(es[..|es| - 1], cfg), es[|es| - 1], cfg);
    }
  }

  lemma EmptyRecorded()
    ensures Recorded(EMPTY, []) && Final(EMPTY, []) && Closed(EMPTY)
  {
  }

  /** Over every run, whatever the grace period, no sale goes into the sums of two settlements. */
  lemma SummedOnce(es: seq<Event>, cfg: Config, j: nat, k: nat)
    requires j < k < |Ledger(es, cfg)|
    ensures Ledger(es, cfg)[j] !! Ledger(es, cfg)[k]
  {
    hide Run, Ledger, SumNet, SumFees;
    var b, ledger := Run(es, cfg), Ledger(es, cfg);
    RunLedger(es, cfg);
    assert RowRecorded(b, j, ledger[j]) && RowRecorded(b, k, ledger[k]);
    forall i | i in ledger[j] ensures i !in ledger[k] {
      if i in ledger[k] {
        PaidOnce(b, j, k, i);
      }
    }
  }

  /** With enough grace, the sales a settlement was made for are those it settles, for good. */
  lemma SummedForGood(es: seq<Event>, cfg: Config, k: nat)
    requires GraceEnough(cfg) && k < |Ledger(es, cfg)|
    ensures |Ledger(es, cfg)| == |Run(es, cfg).settlements|
    ensures forall i: nat :: i in Ledger(es, cfg)[k] <==> i < |Run(es, cfg).sales| && PaidBy(Run(es, cfg), k, i)
  {
    hide Run, Ledger, SumNet, SumFees, PaidBy;
    RunLedger(es, cfg);
    assert RowRecorded(Run(es, cfg), k, Ledger(es, cfg)[k]);
  }

  /** Over every run with enough grace, every settlement's total is that of the sales it settles. */
  lemma RunConserves(es: seq<Event>, cfg: Config)
    requires GraceEnough(cfg)
    ensures Conserved(Run(es, cfg)) && Closed(Run(es, cfg))
  {
    hide Run, Ledger, SumNet, SumFees, GraceEnough, Closed;
    var b, ledger := Run(es, cfg), Ledger(es, cfg);
    RunLedger(es, cfg);
    forall k | 0 <= k < |b.settlements| ensures Balanced(b, k) {
      assert RowRecorded(b, k, ledger[k]);
      SummedForGood(es, cfg, k);
      assert PaidMask(b, k) == MaskOf(ledger[k], |b.sales|);
    }
  }

  // ---- A dealer's settlements add up to the dealer's settled sales ----

  function CoveredMask(b: Book, owner: nat, n: nat): (mask: seq<bool>)
    requires n <= |b.settlements|
    ensures |mask| == |b.sales|
    ensures forall i :: 0 <= i < |mask| ==>
              mask[i] == (b.sales[i].owner == Some(owner) && Covered(b.settlements[..n], owner, b.sales[i].stamp))
  {
    seq(|b.sales|, i requires 0 <= i < |b.sales| =>
      b.sales[i].owner == Some(owner) && Covered(b.settlements[..n], owner, b.sales[i].stamp))
  }

  /** What the first `n` settlements paid a dealer. */
  function PaidTo(sts: seq<Settlement>, owner: nat, n: nat): int
    requires n <= |sts|
  {
    if n == 0 then 0
    else PaidTo(sts, owner, n - 1) + if sts[n - 1].owner == owner && sts[n - 1].status != Cancelled
                                     then sts[n - 1].totalSales else 0
  }

  lemma {:induction false} SumUnion(sales: seq<Sale>, a: seq<bool>, c: seq<bool>, u: seq<bool>)
    requires |a| == |c| == |u| == |sales|
    requires forall i :: 0 <= i < |u| ==> u[i] == (a[i] || c[i]) && !(a[i] && c[i])
    ensures SumNet(sales, u) == SumNet(sales, a) + SumNet(sales, c)
    decreases sales
  {
    if sales != [] {
      SumUnion(sales[1..], a[1..], c[1..], u[1..]);
    }
  }

  lemma {:induction false} SumNone(sales: seq<Sale>, mask: seq<bool>)
    requires |mask| == |sales| && forall i :: 0 <= i < |mask| ==> !mask[i]
    ensures SumNet(sales, mask) == 0
    decreases sales
  {
    if sales != [] {
      SumNone(sales[1..], mask[1..]);
    }
  }

  lemma CoverStep(sts: seq<Settlement>, n: nat, owner: nat, stamp: int)
    requires n < |sts|
    ensures Covered(sts[..n + 1], owner, stamp) == (Covered(sts[..n], owner, stamp) || Covers(sts[n], owner, stamp))
  {
    if Covers(sts[n], owner, stamp) {
      CoveredPrefix(sts, n + 1, n, owner, stamp);
    }
    if Covered(sts[..n], owner, stamp) {
      var m: nat :| m < n && Covers(sts[..n][m], owner, stamp);
      CoveredPrefix(sts, n + 1, m, owner, stamp);
    }
    if Covered(sts[..n + 1], owner, stamp) {
      var m: nat :| m < n + 1 && Covers(sts[..n + 1][m], owner, stamp);
      assert m < n ==> sts[..n][m] == sts[m];
    }
  }

  /** Conservation: the settlements of a dealer sum to the net proceeds of the dealer's settled sales. */
  lemma {:induction false} DealerTotals(b: Book, owner: nat, n: nat)
    requires Conserved(b) && n <= |b.settlements|
    ensures PaidTo(b.settlements, owner, n) == SumNet(b.sales, CoveredMask(b, owner, n))
    decreases n
  {
    hide SumNet;
    if n == 0 {
      SumNone(b.sales, CoveredMask(b, owner, 0));
    } else {
      DealerTotals(b, owner, n - 1);
      var st, before, after := b.settlements[n - 1], CoveredMask(b, owner, n - 1), CoveredMask(b, owner, n);
      forall i | 0 <= i < |b.sales|
        ensures after[i] == (before[i] || (b.sales[i].owner == Some(owner) && Covers(st, owner, b.sales[i].stamp)))
      {
        CoverStep(b.settlements, n - 1, owner, b.sales[i].stamp);
      }
      if st.owner == owner && st.status != Cancelled {
        assert Balanced(b, n - 1);
        SumUnion(b.sales, before, PaidMask(b, n - 1), after);
      } else {
        assert after == before;
      }
    }
  }

  // ---- What a dealer is due ----

  function SumPrice(sales: seq<Sale>, mask: seq<bool>): int
    requires |mask| == |sales|
  {
    if sales == [] then 0
    else SumPrice(sales[1..], mask[1..]) + if mask[0] then sales[0].price else 0
  }

  /** Every sale's net proceeds are its price less its fees. */
  predicate NetOfFees(sales: seq<Sale>) {
    forall i :: 0 <= i < |sales| ==> sales[i].net == sales[i].price - sales[i].fees
  }

  lemma {:induction false} SettleSales(b: Book, cutoff: int, owners: seq<nat>, cfg: Config)
    ensures SettleAll(b, cutoff, owners, cfg).sales == b.sales
    ensures SettleAll(b, cutoff, owners, cfg).clock == b.clock
    decreases owners
  {
    if owners != [] {
      SettleSales(SettleOwner(b, cutoff, owners[0], cfg), cutoff, owners[1..], cfg);
    }
  }

  lemma {:induction false} RunNetOfFees(es: seq<Event>, cfg: Config)
    ensures NetOfFees(Run(es, cfg).sales)
    decreases es
  {
    hide SettleAll, DueOwners;
    if es != [] {
      RunNetOfFees(es[..|es| - 1], cfg);
      var b, e := Run(es[..|es| - 1], cfg), es[|es| - 1];
      var now := b.(clock := b.clock + e.wait);
      SettleSales(now, Cutoff(now.clock, cfg), DueOwners(now, Cutoff(now.clock, cfg), |now.sales|), cfg);
    }
  }

  lemma {:induction false} SumNetOfFees(sales: seq<Sale>, mask: seq<bool>)
    requires |mask| == |sales| && NetOfFees(sales)
    ensures SumNet(sales, mask) == SumPrice(sales, mask) - SumFees(sales, mask)
    decreases sales
  {
    if sales != [] {
      SumNetOfFees(sales[1..], mask[1..]);
    }
  }

  /**
   * The fees come off twice: over every run, a settlement's net_due is the price of the sales it was
   * made for less twice their fees. It is price less fees exactly when there are no fees in sum.
   */
  lemma FeesTakenTwice(es: seq<Event>, cfg: Config, k: nat)
    requires k < |Ledger(es, cfg)|
    ensures |Ledger(es, cfg)| == |Run(es, cfg).settlements|
    ensures var b := Run(es, cfg);
            var st, mask := b.settlements[k], MaskOf(Ledger(es, cfg)[k], |b.sales|);
            var price, fees := SumPrice(b.sales, mask), SumFees(b.sales, mask);
            && st.netDue == price - 2 * fees
            && (st.netDue == price - fees <==> fees == 0)
  {
    hide Run, Ledger, SumPrice, SumNet, SumFees, NetOfFees;
    var b := Run(es, cfg);
    RunLedger(es, cfg);
    RunNetOfFees(es, cfg);
    assert RowRecorded(b, k, Ledger(es, cfg)[k]);
    SumNetOfFees(b.sales, MaskOf(Ledger(es, cfg)[k], |b.sales|));
  }

  // ---- Nothing due is left out ----

  lemma SettleOther(b: Book, cutoff: int, owner: nat, other: nat, cfg: Config)
    requires owner != other
    ensures DueMask(SettleOwner(b, cutoff, owner, cfg), cutoff, other) == DueMask(b, cutoff, other)
  {
    hide SumNet, SumFees;
    var t := SettleOwner(b, cutoff, owner, cfg);
    forall i | 0 <= i < |b.sales|
      ensures Covered(t.settlements, other, b.sales[i].stamp) == Covered(b.settlements, other, b.sales[i].stamp)
    {
      CoveredAppend(b.settlements, t.settlements, other, b.sales[i].stamp);
    }
  }

  lemma CoveredAppend(s: seq<Settlement>, t: seq<Settlement>, owner: nat, stamp: int)
    requires s <= t && forall k :: |s| <= k < |t| ==> t[k].owner != owner
    ensures Covered(t, owner, stamp) == Covered(s, owner, stamp)
  {
    if Covered(s, owner, stamp) {
      var m: nat :| m < |s| && Covers(s[m], owner, stamp);
      assert t[m] == s[m];
    }
  }

  /** After a dealer's turn nothing of theirs is due, unless the turn was skipped. */
  lemma SettleClears(b: Book, cutoff: int, owner: nat, cfg: Config)
    ensures var t := SettleOwner(b, cutoff, owner, cfg);
            if Skipped(b, cutoff, owner, cfg) then t == b else !HasDue(t, cutoff, owner)
  {
    hide SumNet, SumFees;
    var t := SettleOwner(b, cutoff, owner, cfg);
    if !Skipped(b, cutoff, owner, cfg) {
      var n := |b.settlements|;
      forall i | 0 <= i < |t.sales| ensures !Due(t.sales[i], t.settlements, cutoff, owner) {
        var stamp := t.sales[i].stamp;
        if Due(b.sales[i], b.settlements, cutoff, owner) {
          assert Covers(t.settlements[n], owner, stamp);
        } else if Covered(b.settlements, owner, stamp) {
          var m: nat :| m < n && Covers(b.settlements[m], owner, stamp);
          assert t.settlements[m] == b.settlements[m];
        }
      }
    }
  }

  lemma {:induction false} OthersUntouched(b: Book, cutoff: int, owners: seq<nat>, other: nat, cfg: Config)
    requires other !in owners
    ensures var t := SettleAll(b, cutoff, owners, cfg);
            t.sales == b.sales && t.clock == b.clock && DueMask(t, cutoff, other) == DueMask(b, cutoff, other)
    decreases owners
  {
    if owners != [] {
      SettleOther(b, cutoff, owners[0], other, cfg);
      OthersUntouched(SettleOwner(b, cutoff, owners[0], cfg), cutoff, owners[1..], other, cfg);
    }
  }

  /** Each dealer listed is either cleared or skipped on what was due. */
  lemma {:induction false} AllCleared(b: Book, cutoff: int, owners: seq<nat>, owner: nat, cfg: Config)
    requires owner in owners && forall i, j :: 0 <= i < j < |owners| ==> owners[i] != owners[j]
    ensures var t := SettleAll(b, cutoff, owners, cfg);
            t.sales == b.sales && t.clock == b.clock &&
            if Skipped(b, cutoff, owner, cfg) then DueMask(t, cutoff, owner) == DueMask(b, cutoff, owner)
            else !HasDue(t, cutoff, owner)
    decreases owners
  {
    hide SumNet, SumFees;
    var next := SettleOwner(b, cutoff, owners[0], cfg);
    if owner == owners[0] {
      SettleClears(b, cutoff, owner, cfg);
      OthersUntouched(next, cutoff, owners[1..], owner, cfg);
      SameMaskSameDue(next, SettleAll(next, cutoff, owners[1..], cfg), cutoff, owner);
    } else {
      SettleOther(b, cutoff, owners[0], owner, cfg);
      AllCleared(next, cutoff, owners[1..], owner, cfg);
    }
  }

  lemma SameMaskSameDue(b: Book, t: Book, cutoff: int, owner: nat)
    requires DueMask(b, cutoff, owner) == DueMask(t, cutoff, owner)
    ensures HasDue(b, cutoff, owner) == HasDue(t, cutoff, owner)
  {
    assert |b.sales| == |DueMask(b, cutoff, owner)| == |t.sales|;
    if HasDue(b, cutoff, owner) {
      var i :| 0 <= i < |b.sales| && Due(b.sales[i], b.settlements, cutoff, owner);
      assert DueMask(t, cutoff, owner)[i];
    }
    if HasDue(t, cutoff, owner) {
      var i :| 0 <= i < |t.sales| && Due(t.sales[i], t.settlements, cutoff, owner);
      assert DueMask(b, cutoff, owner)[i];
    }
  }

  /**
   * A tick at its hour leaves no sale at or before the cutoff unsettled, except those of a dealer
   * whose due sales sum to zero where the store prints such a sum as "0".
   */
  lemma TickComplete(b: Book, cfg: Config, i: nat, owner: nat)
    requires AtHour(b.clock, cfg)
    requires i < |b.sales| && b.sales[i].owner == Some(owner) && b.sales[i].stamp <= Cutoff(b.clock, cfg)
    ensures var t := RunTick(b, cfg);
            || Covered(t.settlements, owner, b.sales[i].stamp)
            || (cfg.zeroSumIsZero && SumNet(b.sales, DueMask(b, Cutoff(b.clock, cfg), owner)) == 0)
  {
    hide SumNet, SumFees;
    var cutoff := Cutoff(b.clock, cfg);
    var owners := DueOwners(b, cutoff, |b.sales|);
    var t := RunTick(b, cfg);
    if owner in owners {
      AllCleared(b, cutoff, owners, owner, cfg);
      assert DueMask(b, cutoff, owner)[i] == Due(b.sales[i], b.settlements, cutoff, owner);
    } else {
      OthersUntouched(b, cutoff, owners, owner, cfg);
      assert DueMask(t, cutoff, owner)[i] == DueMask(b, cutoff, owner)[i];
    }
  }

  lemma {:induction false} AllSkipped(b: Book, cutoff: int, owners: seq<nat>, cfg: Config)
    requires forall o :: o in owners ==> Skipped(b, cutoff, o, cfg)
    ensures SettleAll(b, cutoff, owners, cfg) == b
    decreases owners
  {
    if owners != [] {
      AllSkipped(b, cutoff, owners[1..], cfg);
    }
  }

  /** A second tick at the same moment does nothing. */
  lemma TickIdempotent(b: Book, cfg: Config)
    ensures RunTick(RunTick(b, cfg), cfg) == RunTick(b, cfg)
  {
    hide SumNet, SumFees;
    var cutoff := Cutoff(b.clock, cfg);
    var owners := DueOwners(b, cutoff, |b.sales|);
    if AtHour(b.clock, cfg) {
      var t := SettleAll(b, cutoff, owners, cfg);
      OthersUntouched(b, cutoff, [], 0, cfg);
      forall o | o in owners
        ensures t.sales == b.sales && t.clock == b.clock && (HasDue(t, cutoff, o) ==> Skipped(t, cutoff, o, cfg))
      {
        AllCleared(b, cutoff, owners, o, cfg);
      }
      SettleSales(b, cutoff, owners, cfg);
      var again := DueOwners(t, cutoff, |t.sales|);
      forall o | o in again ensures Skipped(t, cutoff, o, cfg) {
        assert HasDue(t, cutoff, o);
        if o !in owners {
          OthersUntouched(b, cutoff, owners, o, cfg);
          SameMaskSameDue(b, t, cutoff, o);
          assert false;
        }
      }
      AllSkipped(t, cutoff, again, cfg);
    }
  }

  // ---- How much grace is enough ----

  /** A marketplace sale on a day. */
  function Early(day: int, price: int): Sale {
    Sale(Some(1), DayStart(day), price, price, 0)
  }

  /** A marketplace sale, a tick at the same moment, and another marketplace sale. */
  function SameDayRun(clock: nat): seq<Event> {
    [MarketplaceSale(clock, Some(1), 500), Tick(0), MarketplaceSale(0, Some(1), 700)]
  }

  lemma SameDayTick(clock: nat, cfg: Config)
    requires AtHour(clock, cfg) && Cutoff(clock, cfg) >= DayStart(clock / DAY)
    ensures var d := clock / DAY;
            var b := Book(clock, [Early(d, 500)], []);
            RunTick(b, cfg) == b.(settlements := [Settlement(1, DayStart(d), DayStart(d), 500, 0, 500, Pending)])
  {
    hide AtHour, DayStart;
    var d := clock / DAY;
    var b := Book(clock, [Early(d, 500)], []);
    var cutoff := Cutoff(clock, cfg);
    assert Due(b.sales[0], [], cutoff, 1);
    assert DueOwners(b, cutoff, 0) == [];
    assert DueOwners(b, cutoff, 1) == [1];
    assert DueMask(b, cutoff, 1) == [true];
    SumOne(b.sales[0]);
    assert SettleAll(b, cutoff, [1], cfg) == SettleOwner(b, cutoff, 1, cfg);
  }

  lemma SumOne(sale: Sale)
    ensures SumNet([sale], [true]) == sale.net && SumFees([sale], [true]) == sale.fees
    ensures Span([sale], [true]) == Some((sale.stamp, sale.stamp))
  {
    SumSnoc([], [], sale, true);
    assert [] + [sale] == [sale] && [] + [true] == [true];
    assert [sale][..0] == [] && [true][..0] == [];
  }

  /** The three steps of that run. */
  lemma SameDayStates(clock: nat, cfg: Config)
    requires AtHour(clock, cfg) && Cutoff(clock, cfg) >= DayStart(clock / DAY)
    ensures var d := clock / DAY;
            Run(SameDayRun(clock), cfg) ==
            Book(clock, [Early(d, 500), Early(d, 700)],
                 [Settlement(1, DayStart(d), DayStart(d), 500, 0, 500, Pending)])
  {
    hide RunTick, AtHour, Cutoff, DayStart;
    var es, d := SameDayRun(clock), clock / DAY;
    assert es[..1][..0] == [] && es[..2][..1] == es[..1] && es[..3] == es;
    var b := Book(clock, [Early(d, 500)], []);
    assert Run(es[..1], cfg) == b;
    SameDayTick(clock, cfg);
    assert Run(es[..2], cfg) ==
           b.(settlements := [Settlement(1, DayStart(d), DayStart(d), 500, 0, 500, Pending)]);
  }

  /** A tick whose cutoff reaches the day of new sales: the second sale counts as settled and is never paid for. */
  lemma SameDaySaleLost(clock: nat, cfg: Config)
    requires AtHour(clock, cfg) && Cutoff(clock, cfg) >= DayStart(clock / DAY)
    ensures !Conserved(Run(SameDayRun(clock), cfg))
  {
    hide Run, AtHour, Cutoff, DayStart;
    SameDayStates(clock, cfg);
    var d := clock / DAY;
    var first := Early(d, 500);
    var end := Run(SameDayRun(clock), cfg);
    assert PaidMask(end, 0) == [true, true];
    SumOne(first);
    SumSnoc([first], [true], Early(d, 700), true);
    assert [first] + [Early(d, 700)] == end.sales && [true] + [true] == [true, true];
    assert !Balanced(end, 0);
  }

  /** Money is conserved over every run exactly when no tick's cutoff reaches the day of new sales. */
  lemma ConservedIffGrace(cfg: Config)
    ensures (forall es: seq<Event> :: Conserved(Run(es, cfg))) <==> GraceEnough(cfg)
  {
    if GraceEnough(cfg) {
      forall es: seq<Event> ensures Conserved(Run(es, cfg)) {
        RunConserves(es, cfg);
      }
    } else {
      var c: nat :| AtHour(c, cfg) && Cutoff(c, cfg) >= DayStart(c / DAY);
      SameDaySaleLost(c, cfg);
    }
  }

  lemma ShiftDays(t: int, n: int)
    ensures (t + n * DAY) / DAY == t / DAY + n && (t + n * DAY) % DAY == t % DAY
  {
  }

  /** In a fixed zone, at a tick: the cutoff's day is `grace` days before the local one. */
  lemma FixedCutoff(c: nat, cfg: Config, zone: int)
    requires forall t :: cfg.zone(t) == zone
    ensures Cutoff(c, cfg) == DayStart((c + zone) / DAY - cfg.grace)
  {
    ShiftDays(c + zone, -cfg.grace);
  }

  lemma FloorGrows(a: int, b: int)
    requires a <= b
    ensures a / DAY <= b / DAY
  {
  }

  /**
   * In a fixed zone the least grace period depends on the hour and the zone: a day is enough where
   * local time is ahead of UTC by no more than the hour of the check, and not where it is further ahead.
   */
  lemma FixedZone(cfg: Config, zone: int)
    requires 0 <= cfg.checkHour < 24 && forall t :: cfg.zone(t) == zone
    ensures GraceEnough(cfg) <==> cfg.grace >= 1 - (3600 * cfg.checkHour - zone) / DAY
  {
    hide DayStart;
    var start := 3600 * cfg.checkHour;
    if cfg.grace >= 1 - (start - zone) / DAY {
      forall c: nat | AtHour(c, cfg) ensures Cutoff(c, cfg) < DayStart(c / DAY) {
        var local := c + zone;
        var day, second := local / DAY, local % DAY;
        FixedCutoff(c, cfg, zone);
        assert second >= start && c == (second - zone) + day * DAY;
        ShiftDays(second - zone, day);
        FloorGrows(start - zone, second - zone);
        DayOrder(day - cfg.grace, c / DAY);
      }
    } else {
      var day := if zone > 0 then zone else 0;
      var c: nat := start - zone + day * DAY;
      ShiftDays(start - zone, day);
      ShiftDays(start, day);
      assert AtHour(c, cfg) by { assert LocalTime(c, cfg) == start + day * DAY; }
      FixedCutoff(c, cfg, zone);
      DayOrder(day - cfg.grace, c / DAY);
    }
  }

  lemma DayOrder(a: int, b: int)
    ensures DayStart(a) < DayStart(b) <==> a < b
  {
  }

  /** Two days are enough in every zone, with or without daylight saving. */
  lemma TwoDaysAlways(cfg: Config)
    requires cfg.grace >= 2 && forall t :: cfg.zone(t) < DAY
    ensures GraceEnough(cfg)
  {
    hide DayStart;
    forall c: nat | AtHour(c, cfg) ensures Cutoff(c, cfg) < DayStart(c / DAY) {
      var past := c - cfg.grace * DAY;
      FloorGrows(past + cfg.zone(past), c - 1 + (1 - cfg.grace) * DAY);
      ShiftDays(c - 1, 1 - cfg.grace);
      FloorGrows(c - 1, c);
      DayOrder(LocalTime(past, cfg) / DAY, c / DAY);
    }
  }

  // ---- The thread ----

  /** The tables the thread reads and writes. */
  class Database {
    var clock: nat
    var sales: seq<Sale>
    var settlements: seq<Settlement>

    ghost function Contents(): Book
      reads this
    {
      Book(clock, sales, settlements)
    }

    constructor ()
      ensures Contents() == EMPTY
    {
      clock, sales, settlements := 0, [], [];
    }

    /** The turn of one dealer: totals of the due sales, and a settlement unless they are skipped. */
    method SettleDealer(owner: nat, cutoff: int, cfg: Config)
      modifies this`settlements
      ensures Contents() == SettleOwner(old(Contents()), cutoff, owner, cfg)
    {
      hide Span, SumNet, SumFees, DueMask;
      var mask := DueMask(Book(clock, sales, settlements), cutoff, owner);
      var span := Span(sales, mask);
      var net, fees := SumNet(sales, mask), SumFees(sales, mask);
      if span == None || (cfg.zeroSumIsZero && net == 0) {
        return;
      }
      settlements := settlements + [Settlement(owner, span.value.0, span.value.1, net, fees, net - fees, Pending)];
    }

    /** One wake-up of the settlement thread. */
    method WakeUp(cfg: Config)
      modifies this`settlements
      ensures Contents() == RunTick(old(Contents()), cfg)
    {
      hide DueOwners, SettleOwner;
      if !AtHour(clock, cfg) {
        return;
      }
      var cutoff := Cutoff(clock, cfg);
      var dealers := DueOwners(Book(clock, sales, settlements), cutoff, |sales|);
      for i := 0 to |dealers|
        invariant SettleAll(Contents(), cutoff, dealers[i..], cfg) == RunTick(old(Contents()), cfg)
      {
        assert dealers[i..][1..] == dealers[i + 1..];
        SettleDealer(dealers[i], cutoff, cfg);
      }
    }
  }
}
