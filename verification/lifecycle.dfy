/** What each request handler does to the store, as a function from the old
    store to the new one, and the invariant that protects the ticket numbers
    of a raffle: no number is held twice, every number lies in
    1..total_tickets, and total_tickets - available_tickets counts them.
    Approval of a purchase that is not yet approved preserves the invariant;
    the lemmas at the end of each section show which handlers, exactly as
    written, can break it. */
module Lifecycle {
  import opened Tickets
  import opened Records

  /** Every submitted purchase is filed under user 1 (app.py:140). */
  const BuyerUserId := 1
  const PaymentMethod := "transferencia"
  const AdminUsername := "Admin"
  const AdminEmail := "admin@rifas.com"

  /** The fields buy_tickets reads from its form. */
  datatype PurchaseForm = PurchaseForm(
    raffleId: int,
    quantity: int,
    buyerName: string,
    buyerLastname: string,
    buyerCedula: string,
    buyerPhone: string,
    bankName: string,
    referenceNumber: string)

  /** The fields create_raffle and edit_raffle read from their form. */
  datatype RaffleForm = RaffleForm(
    title: string,
    description: string,
    totalTickets: int,
    imageUrl: string,
    isActive: bool,
    endDate: string)

  /** Facts the database keeps for us: every purchase names an existing
      raffle (raffles are never deleted), usernames and emails are unique. */
  predicate WellFormed(s: State) {
    && (forall k :: 0 <= k < |s.purchases| ==> 1 <= s.purchases[k].raffleId <= |s.raffles|)
    && UniqueUsers(s.users)
  }

  // ---------------------------------------------------------------------
  // The ticket invariant of one raffle (the raffle at position ri, id ri + 1)

  function TicketsOf(s: State, ri: int): seq<int> {
    Existing(s.purchases, ri + 1)
  }

  predicate NoNumberTwice(s: State, ri: int) {
    Distinct(TicketsOf(s, ri))
  }

  predicate NumbersInRange(s: State, ri: int)
    requires 0 <= ri < |s.raffles|
  {
    forall x :: x in TicketsOf(s, ri) ==> 1 <= x <= s.raffles[ri].totalTickets
  }

  /** How far total_tickets - available_tickets is from the count of the
      numbers assigned in the raffle. */
  function CountGap(s: State, ri: int): int
    requires 0 <= ri < |s.raffles|
  {
    s.raffles[ri].totalTickets - s.raffles[ri].availableTickets - |TicketsOf(s, ri)|
  }

  predicate CountMatches(s: State, ri: int)
    requires 0 <= ri < |s.raffles|
  {
    CountGap(s, ri) == 0
  }

  predicate Consistent(s: State, ri: int)
    requires 0 <= ri < |s.raffles|
  {
    NoNumberTwice(s, ri) && NumbersInRange(s, ri) && CountMatches(s, ri)
  }

  /** No number assigned in the raffle exceeds `bound`. */
  predicate NumbersAtMost(s: State, ri: int, bound: int) {
    forall x :: x in TicketsOf(s, ri) ==> x <= bound
  }

  predicate AllConsistent(s: State) {
    forall ri :: 0 <= ri < |s.raffles| ==> Consistent(s, ri)
  }

  /** The half of the invariant that no handler breaks: no raffle holds a
      number twice, whatever its count says. */
  predicate AllApart(s: State) {
    forall ri :: 0 <= ri < |s.raffles| ==> NoNumberTwice(s, ri)
  }

  predicate AllInRange(s: State) {
    forall ri :: 0 <= ri < |s.raffles| ==> NumbersInRange(s, ri)
  }

  /** The whole invariant holds only where the numbers are apart and in range. */
  lemma ConsistentIsApart(s: State)
    requires AllConsistent(s)
    ensures AllApart(s) && AllInRange(s)
  {
    forall ri | 0 <= ri < |s.raffles| ensures NoNumberTwice(s, ri) && NumbersInRange(s, ri) {
      assert Consistent(s, ri);
    }
  }

  /** The free pool an approval of purchase k draws from (app.py:239-247). */
  function PoolOf(s: State, k: int): seq<int>
    requires WellFormed(s) && 0 <= k < |s.purchases|
  {
    var rid := s.purchases[k].raffleId;
    FreePool(s.raffles[rid - 1].totalTickets, Existing(s.purchases, rid))
  }

  /** The pool is, in ascending order, the numbers of 1..total_tickets that
      no approved purchase of the raffle holds. */
  lemma PoolOfMembers(s: State, k: int)
    requires WellFormed(s) && 0 <= k < |s.purchases|
    ensures StrictlyAscending(PoolOf(s, k))
    ensures forall x :: x in PoolOf(s, k) <==>
      && 1 <= x <= s.raffles[s.purchases[k].raffleId - 1].totalTickets
      && forall j :: 0 <= j < |s.purchases| ==> x !in AssignedIn(s.purchases[j], s.purchases[k].raffleId)
  {
    ExistingMembers(s.purchases, s.purchases[k].raffleId);
  }

  /** The pool of purchase k is the free pool of its raffle. */
  lemma PoolOfIsFree(s: State, k: int)
    requires WellFormed(s) && 0 <= k < |s.purchases|
    ensures var ri := s.purchases[k].raffleId - 1;
      && PoolOf(s, k) == FreePool(s.raffles[ri].totalTickets, TicketsOf(s, ri))
      && forall x :: x in PoolOf(s, k) ==> 1 <= x <= s.raffles[ri].totalTickets && x !in TicketsOf(s, ri)
  {
  }

  /** Under the invariant of its raffle, the pool an approval of purchase k
      draws from is exactly as large as available_tickets. */
  lemma PoolSizeIsAvailable(s: State, k: int)
    requires WellFormed(s) && 0 <= k < |s.purchases|
    requires Consistent(s, s.purchases[k].raffleId - 1)
    requires s.raffles[s.purchases[k].raffleId - 1].totalTickets >= 0
    ensures |PoolOf(s, k)| == s.raffles[s.purchases[k].raffleId - 1].availableTickets
  {
    PoolOfIsFree(s, k);
    PoolMatchesAvailable(s, s.purchases[k].raffleId - 1);
  }

  /** Under the invariant the approval-time pool is as large as the count
      of available tickets, so the two capacity checks agree. A raffle
      created with a negative total has an empty pool. */
  lemma PoolMatchesAvailable(s: State, ri: int)
    requires 0 <= ri < |s.raffles| && Consistent(s, ri)
    ensures var r := s.raffles[ri];
      && (r.totalTickets >= 0 ==> |FreePool(r.totalTickets, TicketsOf(s, ri))| == r.availableTickets)
      && (r.totalTickets < 0 ==> FreePool(r.totalTickets, TicketsOf(s, ri)) == []
                                 && r.availableTickets == r.totalTickets)
  {
    var r := s.raffles[ri];
    var e := TicketsOf(s, ri);
    if r.totalTickets >= 0 {
      PoolSizeOfDistinct(r.totalTickets, e);
    } else {
      forall x ensures x !in multiset(e) {
        assert x in e ==> 1 <= x <= r.totalTickets;
      }
      assert multiset(e) == multiset{};
    }
  }

  // ---------------------------------------------------------------------
  // Submission (buy_tickets)

  predicate FieldsComplete(f: PurchaseForm) {
    && f.buyerName != "" && f.buyerLastname != "" && f.buyerCedula != ""
    && f.buyerPhone != "" && f.bankName != "" && f.referenceNumber != ""
  }

  /** The purchase row buy_tickets files (app.py:139-151): filed under the
      default user, for the form's raffle and quantity, pending, approved by
      nobody and holding no number in any raffle. */
  function NewPurchase(f: PurchaseForm): (p: Purchase)
    ensures p.userId == BuyerUserId && p.raffleId == f.raffleId && p.quantity == f.quantity
    ensures p.status == Pending && p.approvedBy == None
    ensures forall rid :: AssignedIn(p, rid) == []
  {
    Purchase(BuyerUserId, f.raffleId, f.quantity, PaymentMethod,
             f.buyerName, f.buyerLastname, f.buyerCedula, f.buyerPhone,
             f.bankName, f.referenceNumber, Pending, [], None)
  }

  /** The store after a submission: one more purchase row, pending, after
      the rows already there; no raffle and no user changes. */
  function Submitted(s: State, f: PurchaseForm): (t: State)
    ensures t.raffles == s.raffles && t.users == s.users
    ensures |t.purchases| == |s.purchases| + 1
    ensures forall k :: 0 <= k < |s.purchases| ==> t.purchases[k] == s.purchases[k]
    ensures t.purchases[|s.purchases|].status == Pending
  {
    s.(purchases := s.purchases + [NewPurchase(f)])
  }

  /** A submission reserves nothing: it keeps every raffle's numbers, so
      they stay apart and in range, and leaves every count where it was. */
  lemma SubmissionKeepsNumbersApart(s: State, f: PurchaseForm)
    requires WellFormed(s) && AllApart(s)
    requires 1 <= f.raffleId <= |s.raffles|
    ensures WellFormed(Submitted(s, f)) && AllApart(Submitted(s, f))
    ensures AllInRange(s) ==> AllInRange(Submitted(s, f))
    ensures forall ri :: 0 <= ri < |s.raffles| ==> TicketsOf(Submitted(s, f), ri) == TicketsOf(s, ri)
    ensures forall ri :: 0 <= ri < |s.raffles| ==> CountGap(Submitted(s, f), ri) == CountGap(s, ri)
  {
    var t := Submitted(s, f);
    forall ri | 0 <= ri < |s.raffles|
      ensures TicketsOf(t, ri) == TicketsOf(s, ri)
      ensures NoNumberTwice(t, ri) && CountGap(t, ri) == CountGap(s, ri)
      ensures NumbersInRange(s, ri) ==> NumbersInRange(t, ri)
    {
      ExistingAppend(s.purchases, NewPurchase(f), ri + 1);
      assert TicketsOf(t, ri) == TicketsOf(s, ri) && NoNumberTwice(s, ri);
    }
  }

  /** A submission reserves nothing: no raffle and no assigned number
      changes, so the invariant of every raffle carries over. */
  lemma SubmissionPreservesConsistency(s: State, f: PurchaseForm)
    requires WellFormed(s) && AllConsistent(s)
    requires 1 <= f.raffleId <= |s.raffles|
    ensures WellFormed(Submitted(s, f)) && AllConsistent(Submitted(s, f))
    ensures Submitted(s, f).raffles == s.raffles
    ensures forall ri :: 0 <= ri < |s.raffles| ==> TicketsOf(Submitted(s, f), ri) == TicketsOf(s, ri)
  {
    var t := Submitted(s, f);
    ConsistentIsApart(s);
    SubmissionKeepsNumbersApart(s, f);
    assert forall ri :: 0 <= ri < |t.raffles| ==> Consistent(s, ri) ==> Consistent(t, ri);
  }

  // ---------------------------------------------------------------------
  // Approval (approve_purchase)

  /** The store after purchase k is approved with the numbers `drawn` by
      user `adminId` (app.py:255-261). */
  function ApprovedWith(s: State, k: int, drawn: seq<int>, adminId: int): (t: State)
    requires WellFormed(s) && 0 <= k < |s.purchases|
    ensures |t.raffles| == |s.raffles| && |t.purchases| == |s.purchases| && t.users == s.users
  {
    var p := s.purchases[k];
    var ri := p.raffleId - 1;
    var r := s.raffles[ri];
    State(
      s.raffles[ri := r.(availableTickets := r.availableTickets - p.quantity)],
      s.purchases[k := p.(status := Approved, approvedBy := Some(adminId), assignedTickets := drawn)],
      s.users)
  }

  /** A raffle whose numbers `a` give way to the fresh, in-range numbers `b`
      while available_tickets drops by |b|: its numbers stay apart (and in
      range, if they were), and the count moves off by |a|. */
  lemma SwapAtRaffle(s: State, t: State, ri: int, a: seq<int>, b: seq<int>)
    requires 0 <= ri < |s.raffles| && ri < |t.raffles|
    requires t.raffles[ri].totalTickets == s.raffles[ri].totalTickets
    requires t.raffles[ri].availableTickets == s.raffles[ri].availableTickets - |b|
    requires multiset(TicketsOf(t, ri)) + multiset(a) == multiset(TicketsOf(s, ri)) + multiset(b)
    requires NoNumberTwice(s, ri) && Distinct(b)
    requires forall x :: x in b ==> x !in TicketsOf(s, ri) && 1 <= x <= s.raffles[ri].totalTickets
    ensures NoNumberTwice(t, ri)
    ensures NumbersInRange(s, ri) ==> NumbersInRange(t, ri)
    ensures CountGap(t, ri) == CountGap(s, ri) + |a|
  {
    ReplacementKeepsApart(TicketsOf(s, ri), TicketsOf(t, ri), a, b);
  }

  /** What one approval does to one raffle: whatever the purchase's former
      status and whatever the raffle's count says, the raffle keeps its
      numbers apart (and in range, if they were), and the count moves off by
      exactly the numbers the purchase held before. */
  lemma ApprovalAtRaffle(s: State, k: int, drawn: seq<int>, adminId: int, ri: int)
    requires WellFormed(s) && 0 <= k < |s.purchases| && 0 <= ri < |s.raffles|
    requires NoNumberTwice(s, ri)
    requires IsSortedDraw(drawn, PoolOf(s, k), s.purchases[k].quantity)
    ensures var t := ApprovedWith(s, k, drawn, adminId);
      && NoNumberTwice(t, ri)
      && t.raffles[ri].totalTickets == s.raffles[ri].totalTickets
      && (NumbersInRange(s, ri) ==> NumbersInRange(t, ri))
      && CountGap(t, ri) == CountGap(s, ri) + |AssignedIn(s.purchases[k], ri + 1)|
  {
    var t := ApprovedWith(s, k, drawn, adminId);
    var p := s.purchases[k];
    var p' := p.(status := Approved, approvedBy := Some(adminId), assignedTickets := drawn);
    var rid := ri + 1;
    var b := AssignedIn(p', rid);
    ExistingUpdate(s.purchases, k, p', rid);
    assert t.purchases == s.purchases[k := p'];
    if p.raffleId == rid {
      assert b == drawn;
      PoolOfIsFree(s, k);
    } else {
      assert AssignedIn(p, rid) == [] && b == [];
      assert t.raffles[ri] == s.raffles[ri];
    }
    SwapAtRaffle(s, t, ri, AssignedIn(p, rid), b);
  }

  /** No approval, of a pending, rejected or already approved purchase, makes
      a number repeat in any raffle, or leaves 1..total_tickets where every
      number was in range; only the purchase's own raffle can see its count
      move, by the numbers the purchase held before. */
  lemma ApprovalKeepsNumbersApart(s: State, k: int, drawn: seq<int>, adminId: int)
    requires WellFormed(s) && AllApart(s) && 0 <= k < |s.purchases|
    requires IsSortedDraw(drawn, PoolOf(s, k), s.purchases[k].quantity)
    ensures var t := ApprovedWith(s, k, drawn, adminId);
      && WellFormed(t) && AllApart(t)
      && (AllInRange(s) ==> AllInRange(t))
      && (forall ri :: 0 <= ri < |t.raffles| ==>
            CountGap(t, ri) == CountGap(s, ri) + |AssignedIn(s.purchases[k], ri + 1)|)
  {
    var t := ApprovedWith(s, k, drawn, adminId);
    forall ri | 0 <= ri < |t.raffles|
      ensures NoNumberTwice(t, ri)
      ensures NumbersInRange(s, ri) ==> NumbersInRange(t, ri)
      ensures CountGap(t, ri) == CountGap(s, ri) + |AssignedIn(s.purchases[k], ri + 1)|
    {
      ApprovalAtRaffle(s, k, drawn, adminId, ri);
    }
  }

  /** Approving a purchase that is not yet approved preserves the whole
      invariant: the new numbers are fresh, and available_tickets drops by
      exactly as many numbers as are added. */
  lemma ApprovalPreservesConsistency(s: State, k: int, drawn: seq<int>, adminId: int)
    requires WellFormed(s) && AllConsistent(s) && 0 <= k < |s.purchases|
    requires s.purchases[k].status != Approved
    requires IsSortedDraw(drawn, PoolOf(s, k), s.purchases[k].quantity)
    ensures WellFormed(ApprovedWith(s, k, drawn, adminId))
    ensures AllConsistent(ApprovedWith(s, k, drawn, adminId))
  {
    var t := ApprovedWith(s, k, drawn, adminId);
    ConsistentIsApart(s);
    ApprovalKeepsNumbersApart(s, k, drawn, adminId);
    forall ri | 0 <= ri < |t.raffles| ensures Consistent(t, ri) {
      assert Consistent(s, ri) && NoNumberTwice(t, ri) && NumbersInRange(t, ri);
      assert AssignedIn(s.purchases[k], ri + 1) == [];
    }
  }

  /** approve_purchase does not check that the purchase is pending. Approving
      an already approved purchase again draws fresh numbers, drops the old
      ones, and still takes `quantity` off available_tickets: the count is
      then short by the old numbers. */
  lemma ReapprovalBreaksCount(s: State, k: int, drawn: seq<int>, adminId: int)
    requires WellFormed(s) && AllConsistent(s) && 0 <= k < |s.purchases|
    requires s.purchases[k].status == Approved && s.purchases[k].assignedTickets != []
    requires IsSortedDraw(drawn, PoolOf(s, k), s.purchases[k].quantity)
    ensures !CountMatches(ApprovedWith(s, k, drawn, adminId), s.purchases[k].raffleId - 1)
  {
    assert Consistent(s, s.purchases[k].raffleId - 1);
    ApprovalAtRaffle(s, k, drawn, adminId, s.purchases[k].raffleId - 1);
  }

  /** Approving exactly as many tickets as the pool holds takes the whole
      pool, in order, and leaves the raffle consistent with no ticket
      available. */
  lemma ApprovalTakesWholePool(s: State, k: int, drawn: seq<int>, adminId: int)
    requires WellFormed(s) && 0 <= k < |s.purchases|
    requires Consistent(s, s.purchases[k].raffleId - 1)
    requires s.purchases[k].status != Approved
    requires s.raffles[s.purchases[k].raffleId - 1].totalTickets >= 0
    requires s.purchases[k].quantity == |PoolOf(s, k)|
    requires IsSortedDraw(drawn, PoolOf(s, k), s.purchases[k].quantity)
    ensures drawn == PoolOf(s, k)
    ensures var t := ApprovedWith(s, k, drawn, adminId); var ri := s.purchases[k].raffleId - 1;
      && WellFormed(t) && Consistent(t, ri)
      && t.raffles[ri].availableTickets == 0 && t.raffles[ri].totalTickets >= 0
  {
    var t := ApprovedWith(s, k, drawn, adminId);
    var ri := s.purchases[k].raffleId - 1;
    var pool := PoolOf(s, k);
    PoolSizeIsAvailable(s, k);
    assert drawn == pool by {
      PoolOfIsFree(s, k);
      DrawWholePool(drawn, pool);
    }
    assert Consistent(t, ri) by {
      ApprovalAtRaffle(s, k, drawn, adminId, ri);
      assert AssignedIn(s.purchases[k], ri + 1) == [];
    }
    assert forall j :: 0 <= j < |t.purchases| ==> t.purchases[j].raffleId == s.purchases[j].raffleId;
  }

  /** In a consistent raffle with no ticket left available, every purchase
      of that raffle sees an empty pool. */
  lemma DrainedPoolIsEmpty(t: State, ri: int)
    requires WellFormed(t) && 0 <= ri < |t.raffles| && Consistent(t, ri)
    requires t.raffles[ri].availableTickets == 0 && t.raffles[ri].totalTickets >= 0
    ensures forall j :: 0 <= j < |t.purchases| && t.purchases[j].raffleId == ri + 1 ==> PoolOf(t, j) == []
  {
    PoolMatchesAvailable(t, ri);
    assert FreePool(t.raffles[ri].totalTickets, TicketsOf(t, ri)) == [];
  }

  /** When the quantity equals the pool, approval takes the whole pool in
      order and leaves no ticket available: the pool is then empty for every
      purchase of that raffle. */
  lemma ApprovalExhaustsPool(s: State, k: int, drawn: seq<int>, adminId: int)
    requires WellFormed(s) && AllConsistent(s) && 0 <= k < |s.purchases|
    requires s.purchases[k].status != Approved
    requires s.raffles[s.purchases[k].raffleId - 1].totalTickets >= 0
    requires s.purchases[k].quantity == |PoolOf(s, k)|
    requires IsSortedDraw(drawn, PoolOf(s, k), s.purchases[k].quantity)
    ensures drawn == PoolOf(s, k)
    ensures ApprovedWith(s, k, drawn, adminId).raffles[s.purchases[k].raffleId - 1].availableTickets == 0
    ensures WellFormed(ApprovedWith(s, k, drawn, adminId))
    ensures forall j :: 0 <= j < |s.purchases| && s.purchases[j].raffleId == s.purchases[k].raffleId ==>
      PoolOf(ApprovedWith(s, k, drawn, adminId), j) == []
  {
    var t := ApprovedWith(s, k, drawn, adminId);
    var ri := s.purchases[k].raffleId - 1;
    assert Consistent(s, ri);
    ApprovalTakesWholePool(s, k, drawn, adminId);
    DrainedPoolIsEmpty(t, ri);
    forall j | 0 <= j < |s.purchases| && s.purchases[j].raffleId == ri + 1
      ensures PoolOf(t, j) == []
    {
      assert t.purchases[j].raffleId == s.purchases[j].raffleId;
    }
  }

  // ---------------------------------------------------------------------
  // Rejection (reject_purchase)

  function RejectedBy(s: State, k: int, adminId: int): (t: State)
    requires 0 <= k < |s.purchases|
    ensures t.raffles == s.raffles && t.users == s.users && |t.purchases| == |s.purchases|
  {
    var p := s.purchases[k];
    s.(purchases := s.purchases[k := p.(status := Rejected, approvedBy := Some(adminId))])
  }

  /** Rejection only takes numbers away from a raffle: numbers that were
      apart (and in range) stay so, and the count moves off by exactly the
      numbers the purchase held while it was approved. */
  lemma RejectionAtRaffle(s: State, k: int, adminId: int, ri: int)
    requires 0 <= k < |s.purchases| && 0 <= ri < |s.raffles| && NoNumberTwice(s, ri)
    ensures var t := RejectedBy(s, k, adminId);
      && NoNumberTwice(t, ri)
      && (NumbersInRange(s, ri) ==> NumbersInRange(t, ri))
      && CountGap(t, ri) == CountGap(s, ri) + |AssignedIn(s.purchases[k], ri + 1)|
  {
    var t := RejectedBy(s, k, adminId);
    var p' := s.purchases[k].(status := Rejected, approvedBy := Some(adminId));
    ExistingUpdate(s.purchases, k, p', ri + 1);
    assert t.purchases == s.purchases[k := p'];
    assert AssignedIn(p', ri + 1) == [];
    SwapAtRaffle(s, t, ri, AssignedIn(s.purchases[k], ri + 1), []);
  }

  /** No rejection, whatever the purchase's status, makes a number repeat
      or leave its range; only the raffle whose numbers the purchase held
      sees its count move. */
  lemma RejectionKeepsNumbersApart(s: State, k: int, adminId: int)
    requires WellFormed(s) && AllApart(s) && 0 <= k < |s.purchases|
    ensures var t := RejectedBy(s, k, adminId);
      && WellFormed(t) && AllApart(t)
      && (AllInRange(s) ==> AllInRange(t))
      && (forall ri :: 0 <= ri < |t.raffles| ==>
            CountGap(t, ri) == CountGap(s, ri) + |AssignedIn(s.purchases[k], ri + 1)|)
  {
    var t := RejectedBy(s, k, adminId);
    forall ri | 0 <= ri < |t.raffles|
      ensures NoNumberTwice(t, ri)
      ensures NumbersInRange(s, ri) ==> NumbersInRange(t, ri)
      ensures CountGap(t, ri) == CountGap(s, ri) + |AssignedIn(s.purchases[k], ri + 1)|
    {
      RejectionAtRaffle(s, k, adminId, ri);
    }
  }

  /** Rejecting a purchase that is not approved changes no raffle and no
      assigned number, so the invariant carries over. */
  lemma RejectionPreservesConsistency(s: State, k: int, adminId: int)
    requires WellFormed(s) && AllConsistent(s) && 0 <= k < |s.purchases|
    requires s.purchases[k].status != Approved
    ensures WellFormed(RejectedBy(s, k, adminId)) && AllConsistent(RejectedBy(s, k, adminId))
  {
    var t := RejectedBy(s, k, adminId);
    forall ri | 0 <= ri < |t.raffles| ensures Consistent(t, ri) {
      assert Consistent(s, ri);
      RejectionAtRaffle(s, k, adminId, ri);
    }
  }

  /** reject_purchase does not check that the purchase is pending. Rejecting
      an approved purchase keeps its numbers in the row but no longer counts
      them, while available_tickets stays where it was. */
  lemma RejectingApprovedBreaksCount(s: State, k: int, adminId: int)
    requires WellFormed(s) && AllConsistent(s) && 0 <= k < |s.purchases|
    requires s.purchases[k].status == Approved && s.purchases[k].assignedTickets != []
    ensures !CountMatches(RejectedBy(s, k, adminId), s.purchases[k].raffleId - 1)
    ensures RejectedBy(s, k, adminId).purchases[k].assignedTickets == s.purchases[k].assignedTickets
  {
    assert Consistent(s, s.purchases[k].raffleId - 1);
    RejectionAtRaffle(s, k, adminId, s.purchases[k].raffleId - 1);
  }

  // ---------------------------------------------------------------------
  // Raffle creation and editing

  /** The raffle row create_raffle builds (app.py:301-310): every ticket
      available, the image URL stripped of surrounding whitespace. */
  function NewRaffle(f: RaffleForm): (r: Raffle)
    ensures r.totalTickets == r.availableTickets == f.totalTickets
    ensures r.imageUrl == [] || (!IsSpace(r.imageUrl[0]) && !IsSpace(r.imageUrl[|r.imageUrl| - 1]))
    ensures r.title == f.title && r.description == f.description
    ensures r.isActive == f.isActive && r.endDate == f.endDate
  {
    StripFrames(f.imageUrl);
    Raffle(f.title, f.description, f.totalTickets, f.totalTickets, Strip(f.imageUrl), f.isActive, f.endDate)
  }

  /** The store after create_raffle: the new raffle takes the next id, and
      in a well-formed store no purchase holds a number in it. */
  function Created(s: State, f: RaffleForm): (t: State)
    ensures t.purchases == s.purchases && t.users == s.users
    ensures |t.raffles| == |s.raffles| + 1
    ensures forall ri :: 0 <= ri < |s.raffles| ==> t.raffles[ri] == s.raffles[ri]
    ensures t.raffles[|s.raffles|].availableTickets == t.raffles[|s.raffles|].totalTickets == f.totalTickets
    ensures WellFormed(s) ==> Existing(t.purchases, |s.raffles| + 1) == []
  {
    assert WellFormed(s) ==> Existing(s.purchases, |s.raffles| + 1) == [] by {
      if WellFormed(s) {
        ExistingUnreferenced(s.purchases, |s.raffles| + 1);
      }
    }
    s.(raffles := s.raffles + [NewRaffle(f)])
  }

  /** Creation keeps every raffle's numbers apart and in range, leaves every
      count where it was, and the new raffle starts consistent. */
  lemma CreationKeepsNumbersApart(s: State, f: RaffleForm)
    requires WellFormed(s) && AllApart(s)
    ensures WellFormed(Created(s, f)) && AllApart(Created(s, f))
    ensures AllInRange(s) ==> AllInRange(Created(s, f))
    ensures forall ri :: 0 <= ri < |s.raffles| ==> CountGap(Created(s, f), ri) == CountGap(s, ri)
    ensures Consistent(Created(s, f), |s.raffles|)
  {
    var t := Created(s, f);
    assert TicketsOf(t, |s.raffles|) == [];
    forall ri | 0 <= ri < |t.raffles|
      ensures NoNumberTwice(t, ri)
      ensures ri < |s.raffles| ==> t.raffles[ri] == s.raffles[ri]
      ensures ri < |s.raffles| && NumbersInRange(s, ri) ==> NumbersInRange(t, ri)
    {
      if ri < |s.raffles| {
        assert NoNumberTwice(s, ri);
      }
    }
  }

  /** A new raffle starts with every ticket available and no number
      assigned, so it is consistent, and so is every older raffle. */
  lemma CreationPreservesConsistency(s: State, f: RaffleForm)
    requires WellFormed(s) && AllConsistent(s)
    ensures WellFormed(Created(s, f)) && AllConsistent(Created(s, f))
    ensures Created(s, f).raffles[|s.raffles|].availableTickets == f.totalTickets
  {
    var t := Created(s, f);
    forall ri | 0 <= ri < |t.raffles| ensures Consistent(t, ri) {
      if ri < |s.raffles| {
        assert t.raffles[ri] == s.raffles[ri] && TicketsOf(t, ri) == TicketsOf(s, ri);
        assert Consistent(s, ri);
      } else {
        assert TicketsOf(t, ri) == [];
      }
    }
  }

  /** The store after edit_raffle on the raffle at position ri: every form
      field is overwritten, available_tickets is kept (app.py:328-334). */
  function Edited(s: State, ri: int, f: RaffleForm): (t: State)
    requires 0 <= ri < |s.raffles|
    ensures t.purchases == s.purchases && t.users == s.users && |t.raffles| == |s.raffles|
  {
    var r := s.raffles[ri];
    s.(raffles := s.raffles[ri := r.(title := f.title, description := f.description,
                                     totalTickets := f.totalTickets, imageUrl := Strip(f.imageUrl),
                                     isActive := f.isActive, endDate := f.endDate)])
  }

  /** Editing never touches the numbers or available_tickets, so it cannot
      make a number repeat; but the count moves off by the change of
      total_tickets, and a total below an assigned number leaves that number
      out of range. */
  lemma EditingTotalBreaksConsistency(s: State, ri: int, f: RaffleForm)
    requires WellFormed(s) && 0 <= ri < |s.raffles|
    ensures NoNumberTwice(Edited(s, ri, f), ri) <==> NoNumberTwice(s, ri)
    ensures Edited(s, ri, f).raffles[ri].availableTickets == s.raffles[ri].availableTickets
    ensures CountGap(Edited(s, ri, f), ri) == CountGap(s, ri) + f.totalTickets - s.raffles[ri].totalTickets
    ensures CountMatches(s, ri) ==>
      (CountMatches(Edited(s, ri, f), ri) <==> f.totalTickets == s.raffles[ri].totalTickets)
    ensures NumbersInRange(s, ri) ==>
      (NumbersInRange(Edited(s, ri, f), ri) <==> NumbersAtMost(s, ri, f.totalTickets))
  {
    var t := Edited(s, ri, f);
    assert TicketsOf(t, ri) == TicketsOf(s, ri);
    if NumbersInRange(t, ri) {
      assert NumbersAtMost(s, ri, f.totalTickets);
    }
  }

  /** Editing keeps every raffle's numbers apart, whatever the new total;
      where every number was in range, it stays so exactly when no number
      of the edited raffle exceeds the new total. */
  lemma EditingKeepsNumbersApart(s: State, ri: int, f: RaffleForm)
    requires WellFormed(s) && AllApart(s) && 0 <= ri < |s.raffles|
    ensures WellFormed(Edited(s, ri, f)) && AllApart(Edited(s, ri, f))
    ensures AllInRange(s) ==>
      (AllInRange(Edited(s, ri, f)) <==> NumbersAtMost(s, ri, f.totalTickets))
  {
    var t := Edited(s, ri, f);
    EditingTotalBreaksConsistency(s, ri, f);
    forall rj | 0 <= rj < |t.raffles|
      ensures NoNumberTwice(t, rj)
      ensures rj != ri && NumbersInRange(s, rj) ==> NumbersInRange(t, rj)
    {
      assert NoNumberTwice(s, rj) && t.raffles[rj].totalTickets == if rj == ri then f.totalTickets else s.raffles[rj].totalTickets;
    }
    if AllInRange(s) {
      assert NumbersInRange(s, ri);
      assert AllInRange(t) <==> NumbersInRange(t, ri);
    }
  }

  // ---------------------------------------------------------------------
  // Default admin (ensure_database_initialized)

  const DefaultAdmin := User(AdminUsername, AdminEmail, true)

  /** The users after one start-up: the default admin is added when no user
      is called Admin, unless its email is already taken (the insert then
      fails and nothing is added). */
  function Initialized(s: State): (t: State)
    ensures t.raffles == s.raffles && t.purchases == s.purchases
  {
    if HasUsername(s.users, AdminUsername) || HasEmail(s.users, AdminEmail) then s
    else s.(users := s.users + [DefaultAdmin])
  }

  /** After a start-up that did not fail, exactly one user is called Admin. */
  lemma InitializedHasOneAdmin(s: State)
    requires WellFormed(s)
    requires HasUsername(s.users, AdminUsername) || !HasEmail(s.users, AdminEmail)
    ensures WellFormed(Initialized(s))
    ensures CountUsername(Initialized(s).users, AdminUsername) == 1
  {
    var t := Initialized(s);
    if !HasUsername(s.users, AdminUsername) {
      var n := |s.users|;
      assert t.users[n] == DefaultAdmin;
      forall i | 0 <= i < n ensures t.users[i].username != AdminUsername && t.users[i].email != AdminEmail {
        assert t.users[i] == s.users[i];
      }
      assert HasUsername(t.users, AdminUsername);
    }
    UniqueNameCount(t.users, AdminUsername);
  }

  /** A second start-up changes nothing. */
  lemma InitializeIdempotent(s: State)
    ensures Initialized(Initialized(s)) == Initialized(s)
  {
    if !HasUsername(s.users, AdminUsername) && !HasEmail(s.users, AdminEmail) {
      assert Initialized(s).users[|s.users|] == DefaultAdmin;
    }
  }

  /** The store after n start-ups. */
  function InitializedTimes(s: State, n: nat): State {
    if n == 0 then s else Initialized(InitializedTimes(s, n - 1))
  }

  /** Any number of start-ups after the first leave the store as the first
      one did: still exactly one user called Admin. */
  lemma {:induction false} InitializedRepeatedly(s: State, n: nat)
    requires n >= 1
    ensures InitializedTimes(s, n) == Initialized(s)
  {
    if n > 1 {
      InitializedRepeatedly(s, n - 1);
      InitializeIdempotent(s);
    }
  }

}
