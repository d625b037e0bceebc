// The booth rent collector: monthly invoices, late fees, and the routes that
// edit rentals and add invoices and payments by hand.

module BoothRent {
  import opened Options

  datatype Rental = Rental(rate: real, active: bool)

  datatype Status = Pending | Overdue | Paid | Sent | Other(text: string)

  /** A row of rental_payments; `amount` is what the vendor is asked for. */
  datatype Payment = Payment(id: nat, rental: nat, period: string, base: real, lateFee: real, amount: real,
                             status: Status)

  /** A row of booth_invoices; `payment` links it to a payment row. */
  datatype Invoice = Invoice(rental: nat, period: string, due: real, lateFee: real, total: real, status: Status,
                             payment: Option<nat>)

  datatype State = State(rentals: map<nat, Rental>, nextRental: nat, payments: seq<Payment>, nextPayment: nat,
                         invoices: seq<Invoice>)

  datatype Config = Config(invoiceDay: int, dueDay: int, graceDays: int, checkHour: int, lateFeePct: real)

  datatype Event =
    | Tick(hour: int, day: int, month: string)
    | AddRental(rate: real, active: bool)
    | EditRental(id: nat, newRate: real, nowActive: bool)
    | DeleteRental(id: nat)
    | ManualInvoice(id: nat, period: string, discount: real, fee: real)
    | ManualPayment(id: nat, period: string, fee: real, amount: real, status: Status)
    | MarkInvoicePaid(index: nat)

  // ---- Queries ----

  predicate HasInvoice(s: State, rental: nat, period: string) {
    exists k :: 0 <= k < |s.invoices| && s.invoices[k].rental == rental && s.invoices[k].period == period
  }

  /** Rentals without an end date, in id order. */
  function ActiveIds(rentals: map<nat, Rental>, n: nat): (ids: seq<nat>)
    ensures forall id :: id in ids <==> id < n && id in rentals && rentals[id].active
    ensures forall i :: 0 <= i < |ids| ==> ids[i] < n
    ensures forall i, j :: 0 <= i < j < |ids| ==> ids[i] < ids[j]
  {
    if n == 0 then []
    else
      var rest := ActiveIds(rentals, n - 1);
      if n - 1 in rentals && rentals[n - 1].active then rest + [n - 1] else rest
  }

  // ---- The two halves of a tick ----

  /** A pending payment and an invoice for one rental, unless the month is invoiced already. */
  function Bill(s: State, rental: nat, month: string): State
    requires rental in s.rentals
  {
    if HasInvoice(s, rental, month) then s
    else
      var rate := s.rentals[rental].rate;
      s.(payments := s.payments + [Payment(s.nextPayment, rental, month, rate, 0.0, rate, Pending)],
         nextPayment := s.nextPayment + 1,
         invoices := s.invoices + [Invoice(rental, month, rate, 0.0, rate, Sent, None)])
  }

  function BillAll(s: State, ids: seq<nat>, month: string): (t: State)
    requires forall id :: id in ids ==> id in s.rentals
    ensures t.rentals == s.rentals && t.nextRental == s.nextRental
    decreases ids
  {
    if ids == [] then s else BillAll(Bill(s, ids[0], month), ids[1..], month)
  }

  predicate IsLate(s: State, p: Payment, month: string) {
    p.period == month && p.status == Pending && p.rental in s.rentals
  }

  function LateFee(rate: real, pct: real): real {
    rate * (pct / 100.0)
  }

  /** Late fee and new amount come from the rental's rate as it is now. */
  function Charged(p: Payment, rate: real, pct: real): Payment {
    var fee := LateFee(rate, pct);
    p.(status := Overdue, lateFee := fee, amount := rate + fee)
  }

  function ChargeInvoices(invoices: seq<Invoice>, payment: nat, fee: real): (r: seq<Invoice>)
    ensures |r| == |invoices|
    ensures forall k :: 0 <= k < |r| ==>
              r[k] == if invoices[k].payment == Some(payment)
                      then invoices[k].(status := Overdue, lateFee := fee, total := invoices[k].total + fee)
                      else invoices[k]
  {
    seq(|invoices|, k requires 0 <= k < |invoices| =>
      if invoices[k].payment == Some(payment)
      then invoices[k].(status := Overdue, lateFee := fee, total := invoices[k].total + fee)
      else invoices[k])
  }

  /** Payment row `k` turned overdue if it is late, with any invoice linked to it. */
  function ChargeRow(s: State, k: nat, month: string, pct: real): State
    requires k < |s.payments|
  {
    var p := s.payments[k];
    if !IsLate(s, p, month) then s
    else
      var c := Charged(p, s.rentals[p.rental].rate, pct);
      s.(payments := s.payments[k := c], invoices := ChargeInvoices(s.invoices, p.id, c.lateFee))
  }

  function ChargeFrom(s: State, k: nat, month: string, pct: real): State
    requires k <= |s.payments|
    decreases |s.payments| - k
  {
    if k == |s.payments| then s else ChargeFrom(ChargeRow(s, k, month, pct), k + 1, month, pct)
  }

  function RunTick(s: State, cfg: Config, hour: int, day: int, month: string): State {
    if hour != cfg.checkHour then s
    else
      var billed := if day == cfg.invoiceDay then BillAll(s, ActiveIds(s.rentals, s.nextRental), month) else s;
      if day > cfg.dueDay + cfg.graceDays then ChargeFrom(billed, 0, month, cfg.lateFeePct) else billed
  }

  // ---- The other writers ----

  function KeepPayments(ps: seq<Payment>, rental: nat): (r: seq<Payment>)
    ensures forall p :: p in r <==> p in ps && p.rental != rental
  {
    if ps == [] then []
    else KeepPayments(ps[..|ps| - 1], rental) + if ps[|ps| - 1].rental != rental then [ps[|ps| - 1]] else []
  }

  function KeepInvoices(invs: seq<Invoice>, rental: nat): (r: seq<Invoice>)
    ensures forall v :: v in r <==> v in invs && v.rental != rental
  {
    if invs == [] then []
    else KeepInvoices(invs[..|invs| - 1], rental) + if invs[|invs| - 1].rental != rental then [invs[|invs| - 1]] else []
  }

  function Step(s: State, e: Event, cfg: Config): State {
    match e
    case Tick(hour, day, month) => RunTick(s, cfg, hour, day, month)
    case AddRental(rate, active) =>
      s.(rentals := s.rentals[s.nextRental := Rental(rate, active)], nextRental := s.nextRental + 1)
    case EditRental(id, newRate, nowActive) =>
      if id in s.rentals then s.(rentals := s.rentals[id := Rental(newRate, nowActive)]) else s
    case DeleteRental(id) =>
      s.(rentals := s.rentals - {id}, payments := KeepPayments(s.payments, id),
         invoices := KeepInvoices(s.invoices, id))
    case ManualInvoice(id, period, discount, fee) =>
      if id !in s.rentals then s
      else
        var rate := s.rentals[id].rate;
        s.(invoices := s.invoices + [Invoice(id, period, rate, fee, rate - discount + fee, Sent, None)])
    case ManualPayment(id, period, fee, amount, status) =>
      if id !in s.rentals then s
      else
        s.(payments := s.payments + [Payment(s.nextPayment, id, period, s.rentals[id].rate, fee, amount, status)],
           nextPayment := s.nextPayment + 1)
    case MarkInvoicePaid(index) =>
      if index < |s.invoices| then s.(invoices := s.invoices[index := s.invoices[index].(status := Paid)]) else s
  }

  const EMPTY := State(map[], 0, [], 0, [])

  function Run(es: seq<Event>, cfg: Config): State
    decreases es
  {
    if es == [] then EMPTY else Step(Run(es[..|es| - 1], cfg), es[|es| - 1], cfg)
  }

  // ---- The invariant ----

  predicate DistinctIds(ps: seq<Payment>) {
    forall i, j :: 0 <= i < j < |ps| ==> ps[i].id != ps[j].id
  }

  /** Ids in use are below the next ones, and no invoice is linked to a payment. */
  ghost predicate Sound(s: State) {
    && (forall id :: id in s.rentals ==> id < s.nextRental)
    && (forall i :: 0 <= i < |s.payments| ==> s.payments[i].id < s.nextPayment)
    && DistinctIds(s.payments)
    && (forall k :: 0 <= k < |s.invoices| ==> s.invoices[k].payment == None && s.invoices[k].status != Overdue)
  }

  lemma BillKeeps(s: State, rental: nat, month: string)
    requires Sound(s) && rental in s.rentals
    ensures Sound(Bill(s, rental, month))
  {
  }

  lemma {:induction false} BillAllKeeps(s: State, ids: seq<nat>, month: string)
    requires Sound(s) && forall id :: id in ids ==> id in s.rentals
    ensures Sound(BillAll(s, ids, month))
    decreases ids
  {
    hide Sound, Bill;
    if ids != [] {
      BillKeeps(s, ids[0], month);
      BillSame(s, ids[0], month);
      BillAllKeeps(Bill(s, ids[0], month), ids[1..], month);
    }
  }

  lemma BillSame(s: State, rental: nat, month: string)
    requires rental in s.rentals
    ensures Bill(s, rental, month).rentals == s.rentals
  {
  }

  lemma ChargeInvoicesSame(s: State, payment: nat, fee: real)
    requires Sound(s)
    ensures ChargeInvoices(s.invoices, payment, fee) == s.invoices
  {
  }

  /** The charging half, row by row: late payments turn overdue, everything else stays. */
  lemma {:induction false} ChargeEffect(s: State, k: nat, month: string, pct: real)
    requires Sound(s) && k <= |s.payments|
    ensures var t := ChargeFrom(s, k, month, pct);
            && Sound(t) && t.rentals == s.rentals && t.nextRental == s.nextRental && t.nextPayment == s.nextPayment
            && t.invoices == s.invoices && |t.payments| == |s.payments|
            && (forall i :: 0 <= i < |s.payments| ==>
                  t.payments[i] ==
                  if i >= k && IsLate(s, s.payments[i], month)
                  then Charged(s.payments[i], s.rentals[s.payments[i].rental].rate, pct) else s.payments[i])
    decreases |s.payments| - k
  {
    hide Charged;
    if k < |s.payments| {
      ChargeRowEffect(s, k, month, pct);
      ChargeEffect(ChargeRow(s, k, month, pct), k + 1, month, pct);
    }
  }

  lemma ChargeRowEffect(s: State, k: nat, month: string, pct: real)
    requires Sound(s) && k < |s.payments|
    ensures var t := ChargeRow(s, k, month, pct);
            && Sound(t) && t.rentals == s.rentals && t.nextRental == s.nextRental && t.nextPayment == s.nextPayment
            && t.invoices == s.invoices && |t.payments| == |s.payments|
            && t.payments == s.payments[k := t.payments[k]]
            && t.payments[k] == if IsLate(s, s.payments[k], month)
                                then Charged(s.payments[k], s.rentals[s.payments[k].rental].rate, pct)
                                else s.payments[k]
  {
    if IsLate(s, s.payments[k], month) {
      var c := Charged(s.payments[k], s.rentals[s.payments[k].rental].rate, pct);
      ChargeInvoicesSame(s, s.payments[k].id, c.lateFee);
      assert c.id == s.payments[k].id;
    }
  }

  lemma {:induction false} KeepPaymentsSound(ps: seq<Payment>, rental: nat)
    requires DistinctIds(ps)
    ensures DistinctIds(KeepPayments(ps, rental))
    ensures forall i :: 0 <= i < |KeepPayments(ps, rental)| ==> KeepPayments(ps, rental)[i] in ps
    decreases ps
  {
    if ps != [] {
      var n := |ps| - 1;
      KeepPaymentsSound(ps[..n], rental);
      var rest := KeepPayments(ps[..n], rental);
      forall i | 0 <= i < |rest| ensures rest[i].id != ps[n].id {
        assert rest[i] in ps[..n];
        var j :| 0 <= j < n && ps[..n][j] == rest[i];
      }
    }
  }

  lemma {:induction false} KeepInvoicesSound(invs: seq<Invoice>, rental: nat)
    ensures forall i :: 0 <= i < |KeepInvoices(invs, rental)| ==> KeepInvoices(invs, rental)[i] in invs
  {
    forall i | 0 <= i < |KeepInvoices(invs, rental)| ensures KeepInvoices(invs, rental)[i] in invs {
      assert KeepInvoices(invs, rental)[i] in KeepInvoices(invs, rental);
    }
  }

  lemma DeleteKeeps(s: State, id: nat, cfg: Config)
    requires Sound(s)
    ensures Sound(Step(s, DeleteRental(id), cfg))
  {
    KeepPaymentsSound(s.payments, id);
    KeepInvoicesSound(s.invoices, id);
    var t := Step(s, DeleteRental(id), cfg);
    forall i | 0 <= i < |t.payments| ensures t.payments[i].id < s.nextPayment {
      assert t.payments[i] in s.payments;
    }
    forall k | 0 <= k < |t.invoices| ensures t.invoices[k].payment == None && t.invoices[k].status != Overdue {
      assert t.invoices[k] in s.invoices;
    }
  }

  lemma TickKeeps(s: State, cfg: Config, hour: int, day: int, month: string)
    requires Sound(s)
    ensures Sound(RunTick(s, cfg, hour, day, month))
  {
    hide Sound, ChargeFrom;
    var ids := ActiveIds(s.rentals, s.nextRental);
    BillAllKeeps(s, ids, month);
    var billed := if day == cfg.invoiceDay then BillAll(s, ids, month) else s;
    ChargeEffect(billed, 0, month, cfg.lateFeePct);
  }

  lemma StepKeeps(s: State, e: Event, cfg: Config)
    requires Sound(s)
    ensures Sound(Step(s, e, cfg))
  {
    match e
    case Tick(hour, day, month) => TickKeeps(s, cfg, hour, day, month);
    case DeleteRental(id) => DeleteKeeps(s, id, cfg);
    case AddRental(_, _) =>
    case EditRental(_, _, _) =>
    case ManualInvoice(_, _, _, _) =>
    case ManualPayment(_, _, _, _, _) =>
    case MarkInvoicePaid(_) =>
  }

  lemma {:induction false} RunSound(es: seq<Event>, cfg: Config)
    ensures Sound(Run(es, cfg))
    decreases es
  {
    hide Sound, Step;
    if es == [] {
      EmptySound();
    } else {
      RunSound(es[..|es| - 1], cfg);
      StepKeeps(Run(es[..|es| - 1], cfg), es[|es| - 1], cfg);
    }
  }

  lemma EmptySound()
    ensures Sound(EMPTY)
  {
  }

  /** No run ever marks a booth invoice overdue: the collector leaves the link it would follow empty. */
  lemma InvoicesNeverOverdue(es: seq<Event>, cfg: Config)
    ensures forall v :: v in Run(es, cfg).invoices ==> v.status != Overdue
  {
    RunSound(es, cfg);
  }

  // ---- One invoice and one payment a month ----

  function CountInvoices(invs: seq<Invoice>, rental: nat, period: string): nat {
    if invs == [] then 0
    else CountInvoices(invs[..|invs| - 1], rental, period) +
         if invs[|invs| - 1].rental == rental && invs[|invs| - 1].period == period then 1 else 0
  }

  function CountPayments(ps: seq<Payment>, rental: nat, period: string): nat {
    if ps == [] then 0
    else CountPayments(ps[..|ps| - 1], rental, period) +
         if ps[|ps| - 1].rental == rental && ps[|ps| - 1].period == period then 1 else 0
  }

  /** A month is billed when the tick finds it so: the rental is active and not invoiced yet. */
  predicate Billable(s: State, rental: nat, month: string) {
    rental in s.rentals && s.rentals[rental].active && !HasInvoice(s, rental, month)
  }

  lemma BillCounts(s: State, id: nat, month: string, rental: nat, period: string)
    requires id in s.rentals
    ensures var t := Bill(s, id, month);
            var added := if id == rental && period == month && !HasInvoice(s, id, month) then 1 else 0;
            && CountInvoices(t.invoices, rental, period) == CountInvoices(s.invoices, rental, period) + added
            && CountPayments(t.payments, rental, period) == CountPayments(s.payments, rental, period) + added
            && (rental != id || period != month ==> HasInvoice(t, rental, period) == HasInvoice(s, rental, period))
            && HasInvoice(t, id, month)
  {
    var t := Bill(s, id, month);
    if !HasInvoice(s, id, month) {
      var n := |s.invoices|;
      assert t.invoices[..n] == s.invoices && t.payments[..|s.payments|] == s.payments;
      assert t.invoices[n].rental == id && t.invoices[n].period == month;
      if HasInvoice(s, rental, period) {
        var k :| 0 <= k < n && s.invoices[k].rental == rental && s.invoices[k].period == period;
        assert t.invoices[k] == s.invoices[k];
      }
    }
  }

  lemma {:induction false} BillAllCounts(s: State, ids: seq<nat>, month: string, rental: nat, period: string)
    requires forall id :: id in ids ==> id in s.rentals
    requires forall i, j :: 0 <= i < j < |ids| ==> ids[i] < ids[j]
    ensures var t := BillAll(s, ids, month);
            var added := if rental in ids && period == month && !HasInvoice(s, rental, month) then 1 else 0;
            && CountInvoices(t.invoices, rental, period) == CountInvoices(s.invoices, rental, period) + added
            && CountPayments(t.payments, rental, period) == CountPayments(s.payments, rental, period) + added
            && (HasInvoice(t, rental, period) <==> HasInvoice(s, rental, period) || (rental in ids && period == month))
    decreases ids
  {
    hide Bill, CountInvoices, CountPayments, HasInvoice;
    if ids != [] {
      BillSame(s, ids[0], month);
      BillCounts(s, ids[0], month, rental, period);
      BillAllCounts(Bill(s, ids[0], month), ids[1..], month, rental, period);
    }
  }

  lemma {:induction false} SamePairsSameCount(a: seq<Payment>, b: seq<Payment>, rental: nat, period: string)
    requires |a| == |b|
    requires forall i :: 0 <= i < |a| ==> a[i].rental == b[i].rental && a[i].period == b[i].period
    ensures CountPayments(a, rental, period) == CountPayments(b, rental, period)
    decreases a
  {
    if a != [] {
      SamePairsSameCount(a[..|a| - 1], b[..|b| - 1], rental, period);
    }
  }

  /**
   * A tick bills exactly the active rentals without an invoice for the month, each with one invoice
   * and one payment, and leaves every other pair of rental and period as it is.
   */
  lemma TickBills(s: State, cfg: Config, hour: int, day: int, month: string, rental: nat, period: string)
    requires Sound(s)
    ensures var t := RunTick(s, cfg, hour, day, month);
            var added :=
              if hour == cfg.checkHour && day == cfg.invoiceDay && period == month && Billable(s, rental, month)
              then 1 else 0;
            && t.rentals == s.rentals && t.nextRental == s.nextRental
            && CountInvoices(t.invoices, rental, period) == CountInvoices(s.invoices, rental, period) + added
            && CountPayments(t.payments, rental, period) == CountPayments(s.payments, rental, period) + added
            && (HasInvoice(t, rental, period) <==> HasInvoice(s, rental, period) || added == 1)
  {
    hide CountInvoices, CountPayments, ChargeFrom;
    if hour == cfg.checkHour {
      var ids := ActiveIds(s.rentals, s.nextRental);
      BillAllCounts(s, ids, month, rental, period);
      BillAllKeeps(s, ids, month);
      var billed := if day == cfg.invoiceDay then BillAll(s, ids, month) else s;
      ChargeEffect(billed, 0, month, cfg.lateFeePct);
      var t := RunTick(s, cfg, hour, day, month);
      SamePairsSameCount(billed.payments, t.payments, rental, period);
    }
  }

  function SumTotals(invs: seq<Invoice>): real {
    if invs == [] then 0.0 else SumTotals(invs[..|invs| - 1]) + invs[|invs| - 1].total
  }

  function SumAmounts(ps: seq<Payment>): real {
    if ps == [] then 0.0 else SumAmounts(ps[..|ps| - 1]) + ps[|ps| - 1].amount
  }

  /** The rates of the listed rentals that the month still has to be billed for. */
  function SumRates(s: State, ids: seq<nat>, month: string): real
    requires forall id :: id in ids ==> id in s.rentals
  {
    if ids == [] then 0.0
    else
      var n := |ids| - 1;
      SumRates(s, ids[..n], month) + if HasInvoice(s, ids[n], month) then 0.0 else s.rentals[ids[n]].rate
  }

  lemma BillTotals(s: State, id: nat, month: string)
    requires id in s.rentals
    ensures var t := Bill(s, id, month);
            var rate := if HasInvoice(s, id, month) then 0.0 else s.rentals[id].rate;
            && SumTotals(t.invoices) == SumTotals(s.invoices) + rate
            && SumAmounts(t.payments) == SumAmounts(s.payments) + rate
  {
    var t := Bill(s, id, month);
    if !HasInvoice(s, id, month) {
      assert t.invoices[..|s.invoices|] == s.invoices && t.payments[..|s.payments|] == s.payments;
    }
  }

  lemma {:induction false} BillAllSnoc(s: State, ids: seq<nat>, id: nat, month: string)
    requires forall i :: i in ids + [id] ==> i in s.rentals
    ensures BillAll(s, ids + [id], month) == Bill(BillAll(s, ids, month), id, month)
    decreases ids
  {
    hide Bill;
    if ids == [] {
      assert ids + [id] == [id] && [id][1..] == [];
    } else {
      BillSame(s, ids[0], month);
      assert (ids + [id])[0] == ids[0] && (ids + [id])[1..] == ids[1..] + [id];
      BillAllSnoc(Bill(s, ids[0], month), ids[1..], id, month);
    }
  }

  /**
   * What a month's billing asks for in invoices it also books in pending payments: both grow by the
   * sum of the rates of the rentals not invoiced before.
   */
  lemma {:induction false} BilledTotals(s: State, ids: seq<nat>, month: string)
    requires forall id :: id in ids ==> id in s.rentals
    requires forall i, j :: 0 <= i < j < |ids| ==> ids[i] < ids[j]
    ensures var t := BillAll(s, ids, month);
            && SumTotals(t.invoices) == SumTotals(s.invoices) + SumRates(s, ids, month)
            && SumAmounts(t.payments) == SumAmounts(s.payments) + SumRates(s, ids, month)
    decreases ids
  {
    hide Bill, SumTotals, SumAmounts, HasInvoice;
    if ids != [] {
      var n := |ids| - 1;
      BilledTotals(s, ids[..n], month);
      assert ids == ids[..n] + [ids[n]];
      BillAllSnoc(s, ids[..n], ids[n], month);
      BillAllCounts(s, ids[..n], month, ids[n], month);
      assert ids[n] !in ids[..n];
      BillTotals(BillAll(s, ids[..n], month), ids[n], month);
    }
  }

  /** How many invoices the collector has made for a rental and period. */
  function Made(es: seq<Event>, cfg: Config, rental: nat, period: string): int
    decreases es
  {
    if es == [] then 0
    else
      var front, e := es[..|es| - 1], es[|es| - 1];
      Made(front, cfg, rental, period) +
      if e.Tick? then CountInvoices(Run(es, cfg).invoices, rental, period) -
                      CountInvoices(Run(front, cfg).invoices, rental, period) else 0
  }

  /** Deleted for good: the id is used up. */
  predicate Gone(s: State, rental: nat) {
    rental < s.nextRental && rental !in s.rentals
  }

  /** Once invoiced, a period stays invoiced as long as the rental exists, and deleted rentals stay deleted. */
  lemma InvoiceStays(s: State, e: Event, cfg: Config, rental: nat, period: string)
    requires Sound(s) && (HasInvoice(s, rental, period) || Gone(s, rental)) && rental < s.nextRental
    ensures var t := Step(s, e, cfg); (HasInvoice(t, rental, period) || Gone(t, rental)) && rental < t.nextRental
  {
    var t := Step(s, e, cfg);
    if e.Tick? {
      TickBills(s, cfg, e.hour, e.day, e.month, rental, period);
    } else if HasInvoice(s, rental, period) {
      var k :| 0 <= k < |s.invoices| && s.invoices[k].rental == rental && s.invoices[k].period == period;
      if e.DeleteRental? {
        if e.id != rental {
          assert s.invoices[k] in t.invoices;
        }
      } else {
        assert t.invoices[k].rental == rental && t.invoices[k].period == period;
      }
    }
  }

  /** Over every run, the collector makes at most one invoice for a rental and period. */
  lemma {:induction false} MadeAtMostOnce(es: seq<Event>, cfg: Config, rental: nat, period: string)
    ensures var s := Run(es, cfg);
            && 0 <= Made(es, cfg, rental, period) <= 1
            && (Made(es, cfg, rental, period) == 1 ==>
                  rental < s.nextRental && (HasInvoice(s, rental, period) || Gone(s, rental)))
    decreases es
  {
    hide RunTick, Sound, CountInvoices, HasInvoice;
    if es != [] {
      var front, e := es[..|es| - 1], es[|es| - 1];
      var s := Run(front, cfg);
      MadeAtMostOnce(front, cfg, rental, period);
      RunSound(front, cfg);
      if e.Tick? {
        TickBills(s, cfg, e.hour, e.day, e.month, rental, period);
        RentalBelowNext(s, rental);
      }
      if Made(front, cfg, rental, period) == 1 {
        InvoiceStays(s, e, cfg, rental, period);
      }
    }
  }

  lemma RentalBelowNext(s: State, rental: nat)
    requires Sound(s)
    ensures rental in s.rentals ==> rental < s.nextRental
  {
  }

  // ---- One late fee per payment ----

  predicate RowWith(s: State, payment: nat, status: Status) {
    exists i :: 0 <= i < |s.payments| && s.payments[i].id == payment && s.payments[i].status == status
  }

  /** With unique ids a payment cannot be in two statuses. */
  lemma OneStatus(s: State, payment: nat)
    requires DistinctIds(s.payments) && RowWith(s, payment, Overdue)
    ensures !RowWith(s, payment, Pending)
  {
  }

  /** How often a tick has turned a payment overdue. */
  function ChargedTimes(es: seq<Event>, cfg: Config, payment: nat): nat
    decreases es
  {
    if es == [] then 0
    else
      var front := es[..|es| - 1];
      ChargedTimes(front, cfg, payment) +
      if es[|es| - 1].Tick? && !RowWith(Run(front, cfg), payment, Overdue) && RowWith(Run(es, cfg), payment, Overdue)
      then 1 else 0
  }

  /** New rows take new ids. */
  lemma {:induction false} BillAllOldRows(s: State, ids: seq<nat>, month: string)
    requires forall id :: id in ids ==> id in s.rentals
    ensures var t := BillAll(s, ids, month);
            && s.payments <= t.payments && s.nextPayment <= t.nextPayment
            && forall i :: |s.payments| <= i < |t.payments| ==> t.payments[i].id >= s.nextPayment
    decreases ids
  {
    if ids != [] {
      BillAllOldRows(Bill(s, ids[0], month), ids[1..], month);
    }
  }

  lemma TickOldRows(s: State, cfg: Config, hour: int, day: int, month: string)
    requires Sound(s)
    ensures var t := RunTick(s, cfg, hour, day, month);
            && |s.payments| <= |t.payments| && s.nextPayment <= t.nextPayment
            && (forall i :: |s.payments| <= i < |t.payments| ==> t.payments[i].id >= s.nextPayment)
            && (forall i :: 0 <= i < |s.payments| ==>
                  t.payments[i].id == s.payments[i].id
                  && (s.payments[i].status != Pending ==> t.payments[i] == s.payments[i]))
  {
    hide ChargeFrom;
    var ids := ActiveIds(s.rentals, s.nextRental);
    BillAllOldRows(s, ids, month);
    BillAllKeeps(s, ids, month);
    var billed := if day == cfg.invoiceDay then BillAll(s, ids, month) else s;
    ChargeEffect(billed, 0, month, cfg.lateFeePct);
  }

  /** A settled or overdue payment never becomes pending again. */
  lemma NotPendingStays(s: State, e: Event, cfg: Config, payment: nat)
    requires Sound(s) && payment < s.nextPayment && !RowWith(s, payment, Pending)
    ensures var t := Step(s, e, cfg);
            && payment < t.nextPayment && !RowWith(t, payment, Pending)
            && (e.Tick? && RowWith(t, payment, Overdue) ==> RowWith(s, payment, Overdue))
  {
    hide RunTick;
    var t := Step(s, e, cfg);
    if e.Tick? {
      TickOldRows(s, cfg, e.hour, e.day, e.month);
      forall i | 0 <= i < |t.payments| && t.payments[i].id == payment
        ensures i < |s.payments| && t.payments[i] == s.payments[i]
      {
      }
    } else if e.DeleteRental? {
      KeepPaymentsSound(s.payments, e.id);
    }
  }

  /** Over every run, each payment is turned overdue, and given its late fee, at most once. */
  lemma {:induction false} ChargedAtMostOnce(es: seq<Event>, cfg: Config, payment: nat)
    ensures var s := Run(es, cfg);
            && ChargedTimes(es, cfg, payment) <= 1
            && (ChargedTimes(es, cfg, payment) == 1 ==> payment < s.nextPayment && !RowWith(s, payment, Pending))
    decreases es
  {
    hide Sound, RunTick, RowWith;
    if es != [] {
      var front, e := es[..|es| - 1], es[|es| - 1];
      var s, t := Run(front, cfg), Run(es, cfg);
      ChargedAtMostOnce(front, cfg, payment);
      RunSound(front, cfg);
      RunSound(es, cfg);
      if ChargedTimes(front, cfg, payment) == 1 {
        NotPendingStays(s, e, cfg, payment);
      } else if e.Tick? && RowWith(t, payment, Overdue) {
        RowBelowNext(t, payment);
      }
    }
  }

  lemma RowBelowNext(s: State, payment: nat)
    requires Sound(s) && RowWith(s, payment, Overdue)
    ensures payment < s.nextPayment && !RowWith(s, payment, Pending)
  {
    OneStatus(s, payment);
  }

  /** A tick at its hour, split into its two halves. */
  function Billed(s: State, cfg: Config, day: int, month: string): State {
    if day == cfg.invoiceDay then BillAll(s, ActiveIds(s.rentals, s.nextRental), month) else s
  }

  lemma BilledKeeps(s: State, cfg: Config, day: int, month: string)
    requires Sound(s)
    ensures var t := Billed(s, cfg, day, month);
            Sound(t) && t.rentals == s.rentals && s.payments <= t.payments
  {
    hide Sound;
    BillAllKeeps(s, ActiveIds(s.rentals, s.nextRental), month);
    BillAllOldRows(s, ActiveIds(s.rentals, s.nextRental), month);
  }

  /**
   * What charging does to the amount: it becomes the rate of today and the fee on it. So it is the
   * payment's base and fee exactly when the rate is still the base, and the amount asked before and
   * the fee exactly when that amount was the rate of today: a discount or an earlier fee is lost.
   */
  lemma OverdueAmount(s: State, cfg: Config, day: int, month: string, i: nat)
    requires Sound(s) && i < |s.payments| && day > cfg.dueDay + cfg.graceDays
    requires s.payments[i].period == month && s.payments[i].status == Pending && s.payments[i].rental in s.rentals
    ensures var t := RunTick(s, cfg, cfg.checkHour, day, month);
            var p, rate := s.payments[i], s.rentals[s.payments[i].rental].rate;
            && i < |t.payments| && t.payments[i].status == Overdue
            && 100.0 * t.payments[i].lateFee == cfg.lateFeePct * rate
            && t.payments[i].amount == rate + t.payments[i].lateFee
            && (t.payments[i].amount == p.base + t.payments[i].lateFee <==> rate == p.base)
            && (t.payments[i].amount == p.amount + t.payments[i].lateFee <==> rate == p.amount)
  {
    hide ChargeFrom, Sound, LateFee;
    BilledKeeps(s, cfg, day, month);
    ChargeEffect(Billed(s, cfg, day, month), 0, month, cfg.lateFeePct);
    Hundredths(s.rentals[s.payments[i].rental].rate, cfg.lateFeePct);
  }

  lemma Hundredths(rate: real, pct: real)
    ensures 100.0 * LateFee(rate, pct) == pct * rate
  {
  }

  /** The rows a tick adds: one for each rental listed that has no invoice for the month, as yet unpaid. */
  lemma {:induction false} BillAllNewRows(s: State, ids: seq<nat>, month: string, i: nat)
    requires forall id :: id in ids ==> id in s.rentals
    requires forall i, j :: 0 <= i < j < |ids| ==> ids[i] < ids[j]
    requires |s.payments| <= i < |BillAll(s, ids, month).payments|
    ensures var p := BillAll(s, ids, month).payments[i];
            && p.rental in ids && !HasInvoice(s, p.rental, month)
            && p == Payment(p.id, p.rental, month, s.rentals[p.rental].rate, 0.0, s.rentals[p.rental].rate, Pending)
    decreases ids
  {
    hide HasInvoice;
    if ids != [] {
      var next := Bill(s, ids[0], month);
      BillSame(s, ids[0], month);
      BillAllOldRows(next, ids[1..], month);
      if i >= |next.payments| {
        BillAllNewRows(next, ids[1..], month, i);
        var p := BillAll(s, ids, month).payments[i];
        assert p.rental in ids[1..];
        BillCounts(s, ids[0], month, p.rental, month);
      } else {
        assert BillAll(s, ids, month).payments[i] == next.payments[i];
      }
    }
  }

  /**
   * A payment that a tick has just made is charged its late fee by the same tick if and only if the
   * invoice day lies after due day and grace days; otherwise it stays as billed.
   */
  lemma ChargedWhenMade(s: State, cfg: Config, day: int, month: string, i: nat)
    requires Sound(s) && |s.payments| <= i < |RunTick(s, cfg, cfg.checkHour, day, month).payments|
    ensures var p := RunTick(s, cfg, cfg.checkHour, day, month).payments[i];
            && Billable(s, p.rental, month) && p.period == month && p.base == s.rentals[p.rental].rate
            && (p.status == Overdue <==> cfg.invoiceDay > cfg.dueDay + cfg.graceDays)
            && 100.0 * p.lateFee ==
               (if cfg.invoiceDay > cfg.dueDay + cfg.graceDays then cfg.lateFeePct * p.base else 0.0)
            && p.amount == p.base + p.lateFee
  {
    hide ChargeFrom, Sound, BillAll, HasInvoice, LateFee;
    var ids, billed := ActiveIds(s.rentals, s.nextRental), Billed(s, cfg, day, month);
    BilledKeeps(s, cfg, day, month);
    ChargeEffect(billed, 0, month, cfg.lateFeePct);
    assert day == cfg.invoiceDay;
    BillAllNewRows(s, ids, month, i);
    Hundredths(billed.payments[i].base, cfg.lateFeePct);
  }

  // ---- The rate a payment was written at ----

  /** For every payment row, the rate its rental had when the row was written. */
  type Rates = map<nat, real>

  /** A row with an id that was not yet given, for a rental there is. */
  predicate AddedRow(s: State, p: Payment) {
    p.id >= s.nextPayment && p.rental in s.rentals
  }

  /** The rates of the added rows among these, read off the rentals before the step. */
  function NewRates(s: State, ps: seq<Payment>): (r: Rates)
    ensures forall id :: id in r ==> id >= s.nextPayment
  {
    if ps == [] then map[]
    else
      var n := |ps| - 1;
      var rest := NewRates(s, ps[..n]);
      if AddedRow(s, ps[n]) then rest[ps[n].id := s.rentals[ps[n].rental].rate] else rest
  }

  lemma {:induction false} NewRateAt(s: State, ps: seq<Payment>, i: nat)
    requires DistinctIds(ps) && i < |ps| && AddedRow(s, ps[i])
    ensures ps[i].id in NewRates(s, ps) && NewRates(s, ps)[ps[i].id] == s.rentals[ps[i].rental].rate
    decreases ps
  {
    if i < |ps| - 1 {
      NewRateAt(s, ps[..|ps| - 1], i);
    }
  }

  function RatesAfter(es: seq<Event>, cfg: Config): Rates
    decreases es
  {
    if es == [] then map[]
    else
      var front := es[..|es| - 1];
      RatesAfter(front, cfg) + NewRates(Run(front, cfg), Run(es, cfg).payments)
  }

  predicate BasesTrue(ps: seq<Payment>, rates: Rates) {
    forall i :: 0 <= i < |ps| ==> ps[i].id in rates && ps[i].base == rates[ps[i].id]
  }

  /** After a step each row is one from before, with its base, or new and based on the rate it found. */
  predicate RowAccounted(s: State, p: Payment) {
    || (exists i :: 0 <= i < |s.payments| && s.payments[i].id == p.id && s.payments[i].base == p.base)
    || (AddedRow(s, p) && p.base == s.rentals[p.rental].rate)
  }

  lemma TickAccounts(s: State, cfg: Config, hour: int, day: int, month: string, i: nat)
    requires Sound(s) && i < |RunTick(s, cfg, hour, day, month).payments|
    ensures RowAccounted(s, RunTick(s, cfg, hour, day, month).payments[i])
  {
    hide ChargeFrom, Sound, HasInvoice, BillAll, LateFee;
    if hour == cfg.checkHour {
      var ids, billed := ActiveIds(s.rentals, s.nextRental), Billed(s, cfg, day, month);
      BilledKeeps(s, cfg, day, month);
      BillAllOldRows(s, ids, month);
      ChargeEffect(billed, 0, month, cfg.lateFeePct);
      if i < |s.payments| {
        assert billed.payments[i] == s.payments[i];
      } else {
        BillAllNewRows(s, ids, month, i);
      }
    } else {
      assert RunTick(s, cfg, hour, day, month).payments[i] == s.payments[i];
    }
  }

  lemma StepAccounts(s: State, e: Event, cfg: Config, i: nat)
    requires Sound(s) && i < |Step(s, e, cfg).payments|
    ensures RowAccounted(s, Step(s, e, cfg).payments[i])
  {
    hide RunTick;
    var p := Step(s, e, cfg).payments[i];
    if e.Tick? {
      TickAccounts(s, cfg, e.hour, e.day, e.month, i);
    } else if e.DeleteRental? {
      KeepPaymentsMember(s.payments, e.id, i);
      var j :| 0 <= j < |s.payments| && s.payments[j] == p;
    } else if i < |s.payments| {
      assert p == s.payments[i];
    }
  }

  lemma KeepPaymentsMember(ps: seq<Payment>, rental: nat, i: nat)
    requires i < |KeepPayments(ps, rental)|
    ensures KeepPayments(ps, rental)[i] in ps
  {
    assert KeepPayments(ps, rental)[i] in KeepPayments(ps, rental);
  }

  /** Over every run, the base of a payment is the rate its rental had when the payment was written. */
  lemma {:induction false} BaseIsRate(es: seq<Event>, cfg: Config)
    ensures BasesTrue(Run(es, cfg).payments, RatesAfter(es, cfg))
    decreases es
  {
    hide Sound, Step, NewRates, RowAccounted, AddedRow;
    if es != [] {
      var front, e := es[..|es| - 1], es[|es| - 1];
      var s, t := Run(front, cfg), Run(es, cfg);
      BaseIsRate(front, cfg);
      RunSound(front, cfg);
      RunSound(es, cfg);
      forall i | 0 <= i < |t.payments|
        ensures t.payments[i].id in RatesAfter(es, cfg) && t.payments[i].base == RatesAfter(es, cfg)[t.payments[i].id]
      {
        StepAccounts(s, e, cfg, i);
        RowRate(s, t, RatesAfter(front, cfg), i);
      }
    }
  }

  lemma RowRate(s: State, t: State, rates: Rates, i: nat)
    requires Sound(s) && Sound(t) && BasesTrue(s.payments, rates)
    requires i < |t.payments| && RowAccounted(s, t.payments[i])
    ensures t.payments[i].id in rates + NewRates(s, t.payments)
    ensures t.payments[i].base == (rates + NewRates(s, t.payments))[t.payments[i].id]
  {
    hide NewRates;
    var p := t.payments[i];
    if AddedRow(s, p) && p.base == s.rentals[p.rental].rate {
      NewRateAt(s, t.payments, i);
    } else {
      var j :| 0 <= j < |s.payments| && s.payments[j].id == p.id && s.payments[j].base == p.base;
      assert p.id < s.nextPayment;
    }
  }

  /** So over every run the collector asks base and fee exactly when the rate has not changed since the writing. */
  lemma OverdueSinceWriting(es: seq<Event>, cfg: Config, day: int, month: string, i: nat)
    requires i < |Run(es, cfg).payments| && IsLate(Run(es, cfg), Run(es, cfg).payments[i], month)
    requires day > cfg.dueDay + cfg.graceDays
    ensures var s := Run(es, cfg);
            var t, p := RunTick(s, cfg, cfg.checkHour, day, month), s.payments[i];
            && p.id in RatesAfter(es, cfg) && i < |t.payments|
            && (t.payments[i].amount == p.base + t.payments[i].lateFee <==>
                s.rentals[p.rental].rate == RatesAfter(es, cfg)[p.id])
  {
    hide RunTick, Run, RatesAfter, Sound;
    RunSound(es, cfg);
    BaseIsRate(es, cfg);
    OverdueAmount(Run(es, cfg), cfg, day, month, i);
  }

  /** Every rental that a tick finds billable gets such a row. */
  lemma BilledHasRow(s: State, cfg: Config, month: string, rental: nat)
    requires Sound(s) && Billable(s, rental, month)
    ensures var t := RunTick(s, cfg, cfg.checkHour, cfg.invoiceDay, month);
            exists i :: |s.payments| <= i < |t.payments|
                        && t.payments[i].rental == rental && t.payments[i].period == month
  {
    hide CountPayments, CountInvoices, RunTick, Sound, HasInvoice;
    var t := RunTick(s, cfg, cfg.checkHour, cfg.invoiceDay, month);
    TickBills(s, cfg, cfg.checkHour, cfg.invoiceDay, month, rental, month);
    TickPairs(s, cfg, cfg.checkHour, cfg.invoiceDay, month);
    MoreCounted(s.payments, t.payments, rental, month);
  }

  /** Old rows keep rental and period through a tick. */
  lemma TickPairs(s: State, cfg: Config, hour: int, day: int, month: string)
    requires Sound(s)
    ensures var t := RunTick(s, cfg, hour, day, month);
            && |s.payments| <= |t.payments|
            && forall i :: 0 <= i < |s.payments| ==>
                 t.payments[i].rental == s.payments[i].rental && t.payments[i].period == s.payments[i].period
  {
    hide ChargeFrom, Sound;
    BilledKeeps(s, cfg, day, month);
    ChargeEffect(Billed(s, cfg, day, month), 0, month, cfg.lateFeePct);
  }

  lemma {:induction false} MoreCounted(a: seq<Payment>, b: seq<Payment>, rental: nat, period: string)
    requires |a| <= |b| && CountPayments(b, rental, period) > CountPayments(a, rental, period)
    requires forall i :: 0 <= i < |a| ==> b[i].rental == a[i].rental && b[i].period == a[i].period
    ensures exists i :: |a| <= i < |b| && b[i].rental == rental && b[i].period == period
    decreases b
  {
    if |a| == |b| {
      SamePairsSameCount(a, b, rental, period);
    } else {
      var n := |b| - 1;
      if b[n].rental != rental || b[n].period != period {
        MoreCounted(a, b[..n], rental, period);
        var i :| |a| <= i < n && b[..n][i].rental == rental && b[..n][i].period == period;
        assert b[i].rental == rental;
      }
    }
  }

  // ---- The thread ----

  /** The three tables, updated in place by the collector. */
  class Database {
    var rentals: map<nat, Rental>
    var nextRental: nat
    var payments: seq<Payment>
    var nextPayment: nat
    var invoices: seq<Invoice>

    ghost function Contents(): State
      reads this
    {
      State(rentals, nextRental, payments, nextPayment, invoices)
    }

    constructor ()
      ensures Contents() == EMPTY
    {
      rentals, nextRental, payments, nextPayment, invoices := map[], 0, [], 0, [];
    }

    method BillMonth(month: string)
      modifies this
      ensures Contents() == BillAll(old(Contents()), ActiveIds(old(rentals), old(nextRental)), month)
    {
      hide HasInvoice, ActiveIds;
      var active := ActiveIds(rentals, nextRental);
      assert forall id :: id in active ==> id in rentals;
      for i := 0 to |active|
        invariant rentals == old(rentals)
        invariant BillAll(Contents(), active[i..], month) == BillAll(old(Contents()), active, month)
      {
        var id := active[i];
        ghost var before := Contents();
        assert active[i..][1..] == active[i + 1..];
        assert id in active;
        if HasInvoice(State(rentals, nextRental, payments, nextPayment, invoices), id, month) {
          continue;
        }
        var rate := rentals[id].rate;
        payments := payments + [Payment(nextPayment, id, month, rate, 0.0, rate, Pending)];
        nextPayment := nextPayment + 1;
        invoices := invoices + [Invoice(id, month, rate, 0.0, rate, Sent, None)];
        assert Contents() == Bill(before, id, month);
      }
    }

    method ChargeLate(month: string, pct: real)
      modifies this
      ensures Contents() == ChargeFrom(old(Contents()), 0, month, pct)
    {
      hide LateFee;
      var k := 0;
      while k < |payments|
        invariant k <= |payments|
        invariant ChargeFrom(Contents(), k, month, pct) == ChargeFrom(old(Contents()), 0, month, pct)
      {
        ghost var before := Contents();
        var p := payments[k];
        if p.period == month && p.status == Pending && p.rental in rentals {
          var rate := rentals[p.rental].rate;
          var lateFee := LateFee(rate, pct);
          payments := payments[k := p.(status := Overdue, lateFee := lateFee, amount := rate + lateFee)];
          invoices := ChargeInvoices(invoices, p.id, lateFee);
        }
        assert Contents() == ChargeRow(before, k, month, pct);
        k := k + 1;
      }
    }

    /** One wake-up of the collector thread. */
    method WakeUp(cfg: Config, hour: int, day: int, month: string)
      modifies this
      ensures Contents() == RunTick(old(Contents()), cfg, hour, day, month)
    {
      if hour != cfg.checkHour {
        return;
      }
      if day == cfg.invoiceDay {
        BillMonth(month);
      }
      if day > cfg.dueDay + cfg.graceDays {
        ChargeLate(month, cfg.lateFeePct);
      }
    }
  }
}
