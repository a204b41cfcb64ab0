/** Semester billing: the scheduler's tick, payment initiation and the payment webhooks. */
module Billing {
  import opened Common

  datatype InvoiceStatus = Pending | Paid | Overdue | Cancelled

  datatype Semester = Semester(
    tenant: Uuid, endDate: int, ended: bool, fee: nat, billed: bool, billedAt: Option<int>)

  /** semester is a position in the semesters table. */
  datatype Invoice = Invoice(
    semester: Option<nat>, students: nat, fee: nat, total: nat, status: InvoiceStatus,
    reference: Option<string>, paidAt: Option<int>)

  datatype Db = Db(semesters: seq<Semester>, invoices: seq<Invoice>)

  const DEFAULT_FEE := 2000

  // ---- the billing tick ----------------------------------------------------

  predicate Due(s: Semester, now: int) {
    s.endDate <= now && !s.billed && s.ended
  }

  /** A fee of zero is falsy and gives way to the default. */
  function FeeOf(s: Semester): nat {
    if s.fee == 0 then DEFAULT_FEE else s.fee
  }

  function NewInvoice(s: Semester, id: nat, students: nat): Invoice {
    Invoice(Some(id), students, FeeOf(s), students * FeeOf(s), Pending, None, None)
  }

  /** The invoices one tick adds, in table order; counts gives the active students of a tenant. */
  function TickInvoices(semesters: seq<Semester>, now: int, counts: Uuid -> nat): seq<Invoice> {
    if semesters == [] then []
    else
      var n := |semesters| - 1;
      TickInvoices(semesters[..n], now, counts) +
      if Due(semesters[n], now) then [NewInvoice(semesters[n], n, counts(semesters[n].tenant))] else []
  }

  function Tick(db: Db, now: int, counts: Uuid -> nat): Db {
    db.(invoices := db.invoices + TickInvoices(db.semesters, now, counts))
  }

  // ---- payments ------------------------------------------------------------

  /** handle_initiate_billing stores the gateway's reference, whatever was there. */
  function Initiate(db: Db, id: nat, reference: string): Db {
    if id < |db.invoices| then db.(invoices := db.invoices[id := db.invoices[id].(reference := Some(reference))]) else db
  }

  function FirstWith(invoices: seq<Invoice>, reference: string): (i: nat)
    ensures i <= |invoices|
    ensures i < |invoices| ==> invoices[i].reference == Some(reference)
    ensures forall j :: 0 <= j < i ==> invoices[j].reference != Some(reference)
  {
    if invoices == [] || invoices[0].reference == Some(reference) then 0
    else
      var i := FirstWith(invoices[1..], reference);
      assert forall j :: 1 <= j < |invoices| ==> invoices[j] == invoices[1..][j - 1];
      i + 1
  }

  /** The one invoice a payment applies to: unique under its reference and not yet paid. */
  predicate Applies(db: Db, reference: string, id: nat) {
    id < |db.invoices| && !db.invoices[id].status.Paid? &&
    forall j :: 0 <= j < |db.invoices| ==> (db.invoices[j].reference == Some(reference) <==> j == id)
  }

  /** The commit of _mark_invoice_paid_and_semester_billed: invoice and linked semester together. */
  function Pay(db: Db, id: nat, paidAt: int): Db
    requires id < |db.invoices|
  {
    var inv := db.invoices[id].(status := Paid, paidAt := Some(paidAt));
    var paid := db.(invoices := db.invoices[id := inv]);
    if inv.semester.Some? && inv.semester.value < |db.semesters| then
      paid.(semesters := db.semesters[inv.semester.value :=
        db.semesters[inv.semester.value].(billed := true, billedAt := Some(paidAt))])
    else paid
  }

  datatype WebhookReply = NotFound | AlreadyPaid | MarkedPaid | SeveralInvoices

  /** A reference shared by several invoices makes the lookup raise. */
  function Webhook(db: Db, reference: string, paidAt: int): (Db, WebhookReply) {
    var i := FirstWith(db.invoices, reference);
    if i == |db.invoices| then (db, NotFound)
    else if exists j :: i < j < |db.invoices| && db.invoices[j].reference == Some(reference) then (db, SeveralInvoices)
    else if db.invoices[i].status.Paid? then (db, AlreadyPaid)
    else (Pay(db, i, paidAt), MarkedPaid)
  }

  lemma WebhookApplies(db: Db, reference: string, paidAt: int)
    ensures var (db', reply) := Webhook(db, reference, paidAt);
            if reply.MarkedPaid?
            then Applies(db, reference, FirstWith(db.invoices, reference)) && db' == Pay(db, FirstWith(db.invoices, reference), paidAt)
            else db' == db && forall id: nat :: !Applies(db, reference, id)
  {
    var i := FirstWith(db.invoices, reference);
    if i < |db.invoices| && db.invoices[i].status.Paid? {
      assert forall id: nat :: Applies(db, reference, id) ==> id == i;
    } else if j :| i < j < |db.invoices| && db.invoices[j].reference == Some(reference) {
      assert forall id: nat :: Applies(db, reference, id) ==> id == i && id == j;
    }
  }

  /** A payment under a reference that one invoice has pays that invoice and bills its semester, unless it is paid. */
  lemma WebhookPays(db: Db, reference: string, paidAt: int, id: nat)
    requires id < |db.invoices|
    requires forall j :: 0 <= j < |db.invoices| ==> (db.invoices[j].reference == Some(reference) <==> j == id)
    ensures var (db', reply) := Webhook(db, reference, paidAt);
            var inv := db.invoices[id];
            if inv.status == Paid then db' == db && reply == AlreadyPaid
            else
              reply == MarkedPaid && |db'.semesters| == |db.semesters| &&
              db'.invoices == db.invoices[id := inv.(status := Paid, paidAt := Some(paidAt))] &&
              forall s :: 0 <= s < |db.semesters| ==>
                db'.semesters[s] == if inv.semester == Some(s) then db.semesters[s].(billed := true, billedAt := Some(paidAt))
                                    else db.semesters[s]
  {
    assert FirstWith(db.invoices, reference) == id;
  }

  /** Any other reference changes nothing: nobody has it, or several invoices do. */
  lemma WebhookRefuses(db: Db, reference: string, paidAt: int)
    ensures (forall j :: 0 <= j < |db.invoices| ==> db.invoices[j].reference != Some(reference)) ==>
              Webhook(db, reference, paidAt) == (db, NotFound)
    ensures (exists i, j :: 0 <= i < j < |db.invoices| &&
                            db.invoices[i].reference == Some(reference) && db.invoices[j].reference == Some(reference)) ==>
              Webhook(db, reference, paidAt) == (db, SeveralInvoices)
  {
  }

  /** A payment that was applied is applied once: its redelivery, with whatever date, finds the invoice paid. */
  lemma PaymentAppliesOnce(db: Db, reference: string, paidAt: int, again: int)
    requires Webhook(db, reference, paidAt).1 == MarkedPaid
    ensures var db' := Webhook(db, reference, paidAt).0;
            (exists id: nat :: id < |db'.invoices| && db'.invoices[id].reference == Some(reference) &&
                               db'.invoices[id].status == Paid && db'.invoices[id].paidAt == Some(paidAt)) &&
            Webhook(db', reference, again) == (db', AlreadyPaid)
  {
    var id := FirstWith(db.invoices, reference);
    WebhookPays(db, reference, paidAt, id);
    WebhookPays(Webhook(db, reference, paidAt).0, reference, again, id);
    assert Webhook(db, reference, paidAt).0.invoices[id].status == Paid;
  }

  /** The reference stored last is the one a payment is found by. */
  lemma InitiatedIsPaid(db: Db, id: nat, reference: string, paidAt: int)
    requires id < |db.invoices| && db.invoices[id].status != Paid
    requires forall j :: 0 <= j < |db.invoices| && j != id ==> db.invoices[j].reference != Some(reference)
    ensures var (db', reply) := Webhook(Initiate(db, id, reference), reference, paidAt);
            reply == MarkedPaid &&
            db'.invoices == db.invoices[id := db.invoices[id].(reference := Some(reference), status := Paid, paidAt := Some(paidAt))]
  {
    WebhookPays(Initiate(db, id, reference), reference, paidAt, id);
  }

  /** An invoice made by the tick for semester s of the table. */
  ghost predicate MadeFor(inv: Invoice, semesters: seq<Semester>, now: int, counts: Uuid -> nat) {
    inv.semester.Some? && inv.semester.value < |semesters| &&
    var s := semesters[inv.semester.value];
    var fee := if s.fee == 0 then 2000 else s.fee;
    s.endDate <= now && s.ended && !s.billed &&
    inv == Invoice(inv.semester, counts(s.tenant), fee, counts(s.tenant) * fee, Pending, None, None)
  }

  /** One invoice for each such semester, and no other. */
  ghost predicate OneEach(made: seq<Invoice>, semesters: seq<Semester>, now: int, counts: Uuid -> nat) {
    (forall i :: 0 <= i < |made| ==> MadeFor(made[i], semesters, now, counts)) &&
    (forall s: nat :: s < |semesters| && semesters[s].endDate <= now && semesters[s].ended && !semesters[s].billed ==>
      exists i :: 0 <= i < |made| && made[i].semester == Some(s)) &&
    (forall i, j :: 0 <= i < j < |made| ==> made[i].semester != made[j].semester)
  }

  lemma OneMore(earlier: seq<Invoice>, semesters: seq<Semester>, now: int, counts: Uuid -> nat)
    requires semesters != [] && OneEach(earlier, semesters[..|semesters| - 1], now, counts)
    ensures var n := |semesters| - 1;
            if semesters[n].endDate <= now && semesters[n].ended && !semesters[n].billed
            then OneEach(earlier + [NewInvoice(semesters[n], n, counts(semesters[n].tenant))], semesters, now, counts)
            else OneEach(earlier, semesters, now, counts)
  {
    var n := |semesters| - 1;
    forall i | 0 <= i < |earlier|
      ensures MadeFor(earlier[i], semesters, now, counts) && earlier[i].semester.value < n
    {
      assert MadeFor(earlier[i], semesters[..n], now, counts);
    }
    hide MadeFor;
    var due := semesters[n].endDate <= now && semesters[n].ended && !semesters[n].billed;
    var inv := NewInvoice(semesters[n], n, counts(semesters[n].tenant));
    var made := if due then earlier + [inv] else earlier;
    assert due ==> MadeFor(inv, semesters, now, counts) by { NewInvoiceFits(semesters, n, now, counts); }
    forall s: nat | s < |semesters| && semesters[s].endDate <= now && semesters[s].ended && !semesters[s].billed
      ensures exists i :: 0 <= i < |made| && made[i].semester == Some(s)
    {
      if s < n {
        assert semesters[..n][s] == semesters[s];
        var i :| 0 <= i < |earlier| && earlier[i].semester == Some(s);
        assert made[i] == earlier[i];
      } else {
        assert made[|made| - 1].semester == Some(s);
      }
    }
  }

  lemma NewInvoiceFits(semesters: seq<Semester>, n: nat, now: int, counts: Uuid -> nat)
    requires n < |semesters|
    ensures semesters[n].endDate <= now && semesters[n].ended && !semesters[n].billed ==>
              MadeFor(NewInvoice(semesters[n], n, counts(semesters[n].tenant)), semesters, now, counts)
  {
  }

  lemma {:induction false} TickInvoicesMeaning(semesters: seq<Semester>, now: int, counts: Uuid -> nat)
    ensures OneEach(TickInvoices(semesters, now, counts), semesters, now, counts)
  {
    hide OneEach;
    if semesters != [] {
      var n := |semesters| - 1;
      TickInvoicesMeaning(semesters[..n], now, counts);
      OneMore(TickInvoices(semesters[..n], now, counts), semesters, now, counts);
      assert TickInvoices(semesters[..n], now, counts) + [] == TickInvoices(semesters[..n], now, counts);
    } else {
      NoSemesters(now, counts);
    }
  }

  lemma NoSemesters(now: int, counts: Uuid -> nat)
    ensures OneEach([], [], now, counts)
  {
  }

  /** A tick adds one invoice for every ended, unbilled semester past its end, and touches nothing else. */
  lemma TickMeaning(db: Db, now: int, counts: Uuid -> nat)
    ensures var db' := Tick(db, now, counts);
            db.invoices <= db'.invoices && db'.semesters == db.semesters &&
            OneEach(db'.invoices[|db.invoices|..], db.semesters, now, counts)
  {
    TickInvoicesMeaning(db.semesters, now, counts);
    assert Tick(db, now, counts).invoices[|db.invoices|..] == TickInvoices(db.semesters, now, counts);
  }

  // ---- runs ----------------------------------------------------------------

  datatype Event =
    | Ticked(now: int, counts: Uuid -> nat)
    | Initiated(invoice: nat, reference: string)
    | PaymentReported(reference: string, paidAt: int)

  function Step(db: Db, e: Event): Db {
    match e
    case Ticked(now, counts) => Tick(db, now, counts)
    case Initiated(id, reference) => Initiate(db, id, reference)
    case PaymentReported(reference, paidAt) => Webhook(db, reference, paidAt).0
  }

  function Run(db: Db, events: seq<Event>): Db
    decreases |events|
  {
    if events == [] then db else Run(Step(db, events[0]), events[1..])
  }

  /** Links are sound, totals are students times fee, and a paid invoice's semester is billed. */
  ghost predicate Valid(db: Db) {
    (forall i :: 0 <= i < |db.invoices| ==>
      var inv := db.invoices[i];
      (inv.semester.Some? ==> inv.semester.value < |db.semesters|) &&
      inv.total == inv.students * inv.fee &&
      (inv.status.Paid? ==> inv.paidAt.Some? && (inv.semester.Some? ==> db.semesters[inv.semester.value].billed))) &&
    (forall s :: 0 <= s < |db.semesters| && db.semesters[s].billed ==> db.semesters[s].billedAt.Some?)
  }

  lemma {:induction false} TickInvoicesFit(semesters: seq<Semester>, now: int, counts: Uuid -> nat)
    ensures forall i :: 0 <= i < |TickInvoices(semesters, now, counts)| ==>
              var inv := TickInvoices(semesters, now, counts)[i];
              inv.semester.Some? && inv.semester.value < |semesters| && Due(semesters[inv.semester.value], now) &&
              inv.total == inv.students * inv.fee && inv.status.Pending? && inv.reference.None? &&
              inv.students == counts(semesters[inv.semester.value].tenant) &&
              inv.fee == FeeOf(semesters[inv.semester.value])
  {
    if semesters != [] {
      TickInvoicesFit(semesters[..|semesters| - 1], now, counts);
    }
  }

  lemma PayKeepsValid(db: Db, id: nat, paidAt: int)
    requires Valid(db) && id < |db.invoices|
    ensures Valid(Pay(db, id, paidAt))
  {
  }

  lemma StepKeepsValid(db: Db, e: Event)
    requires Valid(db)
    ensures Valid(Step(db, e))
    ensures |Step(db, e).semesters| == |db.semesters| && |Step(db, e).invoices| >= |db.invoices|
  {
    match e
    case Ticked(now, counts) =>
      TickInvoicesFit(db.semesters, now, counts);
    case Initiated(id, reference) =>
    case PaymentReported(reference, paidAt) =>
      WebhookApplies(db, reference, paidAt);
      var i := FirstWith(db.invoices, reference);
      if i < |db.invoices| {
        PayKeepsValid(db, i, paidAt);
      }
  }

  /** Every tick-made invoice keeps total = students x fee, and paid means billed, after every run. */
  lemma {:induction false} RunKeepsValid(db: Db, events: seq<Event>)
    requires Valid(db)
    ensures Valid(Run(db, events))
    ensures |Run(db, events).semesters| == |db.semesters| && |Run(db, events).invoices| >= |db.invoices|
    decreases |events|
  {
    if events != [] {
      StepKeepsValid(db, events[0]);
      RunKeepsValid(Step(db, events[0]), events[1..]);
    }
  }

  /** What a payment leaves behind for good. */
  ghost predicate SamePaid(a: Invoice, b: Invoice) {
    b == a.(reference := b.reference)
  }

  lemma StepKeepsPaid(db: Db, e: Event, id: nat)
    requires id < |db.invoices| && db.invoices[id].status.Paid?
    ensures id < |Step(db, e).invoices| && SamePaid(db.invoices[id], Step(db, e).invoices[id])
    ensures !e.Initiated? ==> Step(db, e).invoices[id] == db.invoices[id]
  {
    if e.PaymentReported? {
      WebhookApplies(db, e.reference, e.paidAt);
    }
  }

  /** No later tick, webhook or redelivery touches a paid invoice, save for its reference. */
  lemma {:induction false} PaidStaysPaid(db: Db, events: seq<Event>, id: nat)
    requires id < |db.invoices| && db.invoices[id].status.Paid?
    ensures id < |Run(db, events).invoices| && SamePaid(db.invoices[id], Run(db, events).invoices[id])
    ensures (forall i :: 0 <= i < |events| ==> !events[i].Initiated?) ==> Run(db, events).invoices[id] == db.invoices[id]
    decreases |events|
  {
    if events != [] {
      StepKeepsPaid(db, events[0], id);
      PaidStaysPaid(Step(db, events[0]), events[1..], id);
    }
  }

  /** The payment date this event applies to semester s, if it applies any. */
  function PaymentFor(db: Db, e: Event, s: nat): Option<int> {
    if !e.PaymentReported? || !Webhook(db, e.reference, e.paidAt).1.MarkedPaid? then None
    else
      var i := FirstWith(db.invoices, e.reference);
      if i < |db.invoices| && db.invoices[i].semester == Some(s) then Some(e.paidAt) else None
  }

  /** The last payment applied to semester s in a run. */
  function LastPayment(db: Db, events: seq<Event>, s: nat): Option<int>
    decreases |events|
  {
    if events == [] then None
    else
      var later := LastPayment(Step(db, events[0]), events[1..], s);
      if later.Some? then later else PaymentFor(db, events[0], s)
  }

  lemma StepBilling(db: Db, e: Event, s: nat)
    requires Valid(db) && s < |db.semesters|
    ensures s < |Step(db, e).semesters|
    ensures Step(db, e).semesters[s] ==
            if PaymentFor(db, e, s).Some? then db.semesters[s].(billed := true, billedAt := PaymentFor(db, e, s))
            else db.semesters[s]
  {
    if e.PaymentReported? {
      WebhookApplies(db, e.reference, e.paidAt);
    }
  }

  /** A semester is billed as of the latest payment applied to it, and by nothing else. */
  lemma {:induction false} BilledByLastPayment(db: Db, events: seq<Event>, s: nat)
    requires Valid(db) && s < |db.semesters|
    ensures s < |Run(db, events).semesters|
    ensures Run(db, events).semesters[s] ==
            if LastPayment(db, events, s).Some? then db.semesters[s].(billed := true, billedAt := LastPayment(db, events, s))
            else db.semesters[s]
    decreases |events|
  {
    if events != [] {
      StepKeepsValid(db, events[0]);
      StepBilling(db, events[0], s);
      BilledByLastPayment(Step(db, events[0]), events[1..], s);
    }
  }

  // ---- how many invoices a semester gets -----------------------------------

  function CountFor(invoices: seq<Invoice>, s: nat): nat {
    if invoices == [] then 0
    else CountFor(invoices[..|invoices| - 1], s) + if invoices[|invoices| - 1].semester == Some(s) then 1 else 0
  }

  lemma {:induction false} CountForJoin(a: seq<Invoice>, b: seq<Invoice>, s: nat)
    ensures CountFor(a + b, s) == CountFor(a, s) + CountFor(b, s)
  {
    if b == [] {
      assert a + b == a;
    } else {
      assert (a + b)[..|a + b| - 1] == a + b[..|b| - 1];
      CountForJoin(a, b[..|b| - 1], s);
    }
  }

  lemma {:induction false} CountForSame(a: seq<Invoice>, b: seq<Invoice>, s: nat)
    requires |a| == |b| && forall i :: 0 <= i < |a| ==> a[i].semester == b[i].semester
    ensures CountFor(a, s) == CountFor(b, s)
  {
    if a != [] {
      CountForSame(a[..|a| - 1], b[..|b| - 1], s);
    }
  }

  lemma {:induction false} TickCount(semesters: seq<Semester>, now: int, counts: Uuid -> nat, s: nat)
    ensures CountFor(TickInvoices(semesters, now, counts), s) == if s < |semesters| && Due(semesters[s], now) then 1 else 0
  {
    if semesters != [] {
      var n := |semesters| - 1;
      var earlier := TickInvoices(semesters[..n], now, counts);
      TickCount(semesters[..n], now, counts, s);
      if Due(semesters[n], now) {
        var inv := NewInvoice(semesters[n], n, counts(semesters[n].tenant));
        assert TickInvoices(semesters, now, counts) == earlier + [inv];
        assert (earlier + [inv])[..|earlier|] == earlier;
      } else {
        assert TickInvoices(semesters, now, counts) == earlier;
      }
    }
  }

  /** A tick invoices every due semester once, and no other event makes an invoice. */
  lemma StepCount(db: Db, e: Event, s: nat)
    requires s < |db.semesters|
    ensures CountFor(Step(db, e).invoices, s)
         == CountFor(db.invoices, s) + if e.Ticked? && Due(db.semesters[s], e.now) then 1 else 0
  {
    match e
    case Ticked(now, counts) =>
      CountForJoin(db.invoices, TickInvoices(db.semesters, now, counts), s);
      TickCount(db.semesters, now, counts, s);
    case Initiated(id, reference) =>
      CountForSame(db.invoices, Step(db, e).invoices, s);
    case PaymentReported(reference, paidAt) =>
      WebhookApplies(db, reference, paidAt);
      CountForSame(db.invoices, Step(db, e).invoices, s);
  }

  /** A billed semester never gains another invoice. */
  lemma {:induction false} BilledGainsNoInvoice(db: Db, events: seq<Event>, s: nat)
    requires Valid(db) && s < |db.semesters| && db.semesters[s].billed
    ensures CountFor(Run(db, events).invoices, s) == CountFor(db.invoices, s)
    decreases |events|
  {
    if events != [] {
      StepKeepsValid(db, events[0]);
      StepBilling(db, events[0], s);
      StepCount(db, events[0], s);
      BilledGainsNoInvoice(Step(db, events[0]), events[1..], s);
    }
  }

  function DueTicks(events: seq<Event>, sem: Semester): nat
    decreases |events|
  {
    if events == [] then 0
    else (if events[0].Ticked? && Due(sem, events[0].now) then 1 else 0) + DueTicks(events[1..], sem)
  }

  /** The position of the first event that applies a payment to semester s, or the end of the run. */
  function FirstPayment(db: Db, events: seq<Event>, s: nat): (k: nat)
    ensures k <= |events|
    decreases |events|
  {
    if events == [] || PaymentFor(db, events[0], s).Some? then 0 else 1 + FirstPayment(Step(db, events[0]), events[1..], s)
  }

  /** Every due tick up to the first applied payment makes one more invoice for the semester, and later ones none. */
  lemma {:induction false} EveryDueTickInvoices(db: Db, events: seq<Event>, s: nat)
    requires Valid(db) && s < |db.semesters|
    ensures CountFor(Run(db, events).invoices, s)
         == CountFor(db.invoices, s) + DueTicks(events[..FirstPayment(db, events, s)], db.semesters[s])
    ensures LastPayment(db, events, s).None? <==> FirstPayment(db, events, s) == |events|
    decreases |events|
  {
    if events != [] {
      var e, rest, next := events[0], events[1..], Step(db, events[0]);
      StepKeepsValid(db, e);
      StepBilling(db, e, s);
      StepCount(db, e, s);
      if PaymentFor(db, e, s).Some? {
        BilledGainsNoInvoice(next, rest, s);
      } else {
        EveryDueTickInvoices(next, rest, s);
        var k := FirstPayment(next, rest, s);
        assert events[..k + 1][0] == e && events[..k + 1][1..] == rest[..k];
      }
    }
  }

  /** So a semester gains at most one invoice exactly when at most one due tick comes before its first payment. */
  lemma AtMostOneInvoice(db: Db, events: seq<Event>, s: nat)
    requires Valid(db) && s < |db.semesters|
    ensures CountFor(Run(db, events).invoices, s) <= CountFor(db.invoices, s) + 1 <==>
            DueTicks(events[..FirstPayment(db, events, s)], db.semesters[s]) <= 1
  {
    EveryDueTickInvoices(db, events, s);
  }

  /** A repeated initiation replaces the reference, and a payment under the old one finds nothing. */
  lemma ReinitiationOrphansReference(db: Db, id: nat, first: string, second: string, paidAt: int)
    requires id < |db.invoices| && first != second
    requires forall j :: 0 <= j < |db.invoices| && j != id ==> db.invoices[j].reference != Some(first)
    ensures var again := Initiate(Initiate(db, id, first), id, second);
            Webhook(again, first, paidAt) == (again, NotFound)
  {
  }

  // ---- the tables, updated in place ----------------------------------------

  class BillingTables {
    var semesters: seq<Semester>
    var invoices: seq<Invoice>

    ghost function State(): Db
      reads this
    {
      Db(semesters, invoices)
    }

    /** _trigger_billing */
    method TriggerBilling(now: int, counts: Uuid -> nat)
      modifies this`invoices
      ensures State() == Tick(old(State()), now, counts)
    {
      var k := 0;
      while k < |semesters|
        invariant 0 <= k <= |semesters|
        invariant invoices == old(invoices) + TickInvoices(semesters[..k], now, counts)
      {
        assert semesters[..k + 1][..k] == semesters[..k];
        var s := semesters[k];
        if s.endDate <= now && !s.billed && s.ended {
          var students := counts(s.tenant);
          var fee := if s.fee == 0 then DEFAULT_FEE else s.fee;
          invoices := invoices + [Invoice(Some(k), students, fee, students * fee, Pending, None, None)];
        }
        k := k + 1;
      }
      assert semesters[..|semesters|] == semesters;
    }

    /** _mark_invoice_paid_and_semester_billed */
    method MarkPaid(reference: string, paidAt: int) returns (reply: WebhookReply)
      modifies this
      ensures (State(), reply) == Webhook(old(State()), reference, paidAt)
    {
      var i := 0;
      while i < |invoices| && invoices[i].reference != Some(reference)
        invariant 0 <= i <= |invoices|
        invariant forall j :: 0 <= j < i ==> invoices[j].reference != Some(reference)
      {
        i := i + 1;
      }
      assert i == FirstWith(invoices, reference);
      if i == |invoices| {
        return NotFound;
      }
      if exists j :: i < j < |invoices| && invoices[j].reference == Some(reference) {
        return SeveralInvoices;
      }
      if invoices[i].status.Paid? {
        return AlreadyPaid;
      }
      var link := invoices[i].semester;
      invoices := invoices[i := invoices[i].(status := Paid, paidAt := Some(paidAt))];
      if link.Some? && link.value < |semesters| {
        semesters := semesters[link.value := semesters[link.value].(billed := true, billedAt := Some(paidAt))];
      }
      reply := MarkedPaid;
    }
  }
}
