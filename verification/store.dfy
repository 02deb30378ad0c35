/** The in-memory store the request handlers work on: the raffle, purchase
    and user tables, and one method per state-changing handler. Each admin
    method returns AccessDenied before touching anything when the caller is
    not an admin. */
module RaffleStore {
  import opened Tickets
  import opened Records
  import opened Lifecycle

  class Store {
    var raffles: seq<Raffle>
    var purchases: seq<Purchase>
    var users: seq<User>

    function Snapshot(): State
      reads this
    {
      State(raffles, purchases, users)
    }

    ghost predicate Valid()
      reads this
    {
      WellFormed(Snapshot())
    }

    /** The empty tables db.create_all() leaves on a first start. */
    constructor ()
      ensures Valid()
      ensures raffles == [] && purchases == [] && users == []
    {
      raffles, purchases, users := [], [], [];
    }

    /** The assigned numbers of every approved purchase of a raffle, in id
        order (app.py:239-243). */
    method CollectAssigned(raffleId: int) returns (existing: seq<int>)
      ensures existing == Existing(purchases, raffleId)
    {
      existing := [];
      var i := 0;
      while i < |purchases|
        invariant 0 <= i <= |purchases|
        invariant existing == Existing(purchases[..i], raffleId)
      {
        var p := purchases[i];
        if p.raffleId == raffleId && p.status == Approved && p.assignedTickets != [] {
          existing := existing + p.assignedTickets;
        }
        assert purchases[..i + 1] == purchases[..i] + [p];
        ExistingAppend(purchases[..i], p, raffleId);
        i := i + 1;
      }
      assert purchases[..i] == purchases;
    }

    /** buy_tickets (app.py:113-157): checks the raffle exists, then the soft
        capacity check, then that all six buyer and payment fields are
        filled, and files a pending purchase. It reserves nothing. */
    method BuyTickets(f: PurchaseForm) returns (r: Result<int>)
      requires Valid()
      modifies this
      ensures Valid()
      ensures !(1 <= f.raffleId <= |old(raffles)|) ==> r == Err(NotFound)
      ensures 1 <= f.raffleId <= |old(raffles)| ==>
        if f.quantity > old(raffles)[f.raffleId - 1].availableTickets then r == Err(NotEnoughAvailable)
        else if !FieldsComplete(f) then r == Err(MissingField)
        else r == Ok(|old(purchases)| + 1)
      ensures r.Err? ==> Snapshot() == old(Snapshot())
      ensures r.Ok? ==> Snapshot() == Submitted(old(Snapshot()), f)
      ensures r.Ok? ==> purchases == old(purchases) + [NewPurchase(f)] && raffles == old(raffles)
      ensures old(AllApart(Snapshot())) ==>
        AllApart(Snapshot()) && (old(AllInRange(Snapshot())) ==> AllInRange(Snapshot()))
      ensures old(AllConsistent(Snapshot())) ==> AllConsistent(Snapshot())
    {
      if !(1 <= f.raffleId <= |raffles|) {
        return Err(NotFound);
      }
      var raffle := raffles[f.raffleId - 1];
      if f.quantity > raffle.availableTickets {
        return Err(NotEnoughAvailable);
      }
      if !FieldsComplete(f) {
        return Err(MissingField);
      }
      ghost var before := Snapshot();
      if AllApart(before) {
        SubmissionKeepsNumbersApart(before, f);
      }
      if AllConsistent(before) {
        SubmissionPreservesConsistency(before, f);
      }
      purchases := purchases + [NewPurchase(f)];
      r := Ok(|purchases|);
    }

    /** approve_purchase (app.py:224-265). It does not check the purchase's
        status. It draws `quantity` numbers from the free pool with
        random.sample, modelled as any duplicate-free choice from the pool,
        sorts them, stores them and takes `quantity` off available_tickets. */
    method ApprovePurchase(caller: Caller, purchaseId: int) returns (r: Result<seq<int>>)
      requires Valid()
      modifies this
      ensures Valid()
      ensures !caller.isAdmin ==> r == Err(AccessDenied)
      ensures caller.isAdmin && !(1 <= purchaseId <= |old(purchases)|) ==> r == Err(NotFound)
      ensures caller.isAdmin && 1 <= purchaseId <= |old(purchases)| ==>
        var q := old(purchases)[purchaseId - 1].quantity;
        var pool := PoolOf(old(Snapshot()), purchaseId - 1);
        && (|pool| < q ==> r == Err(NotEnoughNumbers))
        && (q < 0 ==> r == Err(NegativeSample))
        && (0 <= q <= |pool| ==> r.Ok? && IsSortedDraw(r.value, pool, q))
      ensures r.Err? ==> Snapshot() == old(Snapshot())
      ensures r.Ok? ==> (1 <= purchaseId <= |old(purchases)|
        && Snapshot() == ApprovedWith(old(Snapshot()), purchaseId - 1, r.value, caller.userId))
      ensures r.Ok? ==>
        var p := old(purchases)[purchaseId - 1];
        forall x :: x in r.value ==>
          1 <= x <= old(raffles)[p.raffleId - 1].totalTickets && x !in Existing(old(purchases), p.raffleId)
      ensures old(AllApart(Snapshot())) ==>
        AllApart(Snapshot()) && (old(AllInRange(Snapshot())) ==> AllInRange(Snapshot()))
    {
      if !caller.isAdmin {
        return Err(AccessDenied);
      }
      if !(1 <= purchaseId <= |purchases|) {
        return Err(NotFound);
      }
      ghost var before := Snapshot();
      var k := purchaseId - 1;
      var p := purchases[k];
      var ri := p.raffleId - 1;
      var raffle := raffles[ri];
      var existing := CollectAssigned(p.raffleId);
      var pool := FreePool(raffle.totalTickets, existing);
      assert pool == PoolOf(before, k);
      if |pool| < p.quantity {
        return Err(NotEnoughNumbers);
      }
      if p.quantity < 0 {
        return Err(NegativeSample);
      }
      var drawn := Draw(raffle.totalTickets, existing, p.quantity);
      assert IsSortedDraw(drawn, PoolOf(before, k), p.quantity);
      RecordApproval(k, drawn, caller.userId);
      assert forall x :: x in drawn ==> 1 <= x <= before.raffles[ri].totalTickets && x !in Existing(before.purchases, p.raffleId);
      r := Ok(drawn);
    }

    /** The assignments of app.py:255-261: the purchase becomes approved
        with the drawn numbers, its raffle loses `quantity` tickets. */
    method RecordApproval(k: int, drawn: seq<int>, adminId: int)
      requires Valid() && 0 <= k < |purchases|
      requires IsSortedDraw(drawn, PoolOf(Snapshot(), k), purchases[k].quantity)
      modifies this
      ensures Valid()
      ensures Snapshot() == ApprovedWith(old(Snapshot()), k, drawn, adminId)
      ensures old(AllApart(Snapshot())) ==>
        AllApart(Snapshot()) && (old(AllInRange(Snapshot())) ==> AllInRange(Snapshot()))
    {
      ghost var before := Snapshot();
      if AllApart(before) {
        ApprovalKeepsNumbersApart(before, k, drawn, adminId);
      }
      var p := purchases[k];
      var ri := p.raffleId - 1;
      var raffle := raffles[ri];
      purchases := purchases[k := p.(status := Approved, approvedBy := Some(adminId), assignedTickets := drawn)];
      raffles := raffles[ri := raffle.(availableTickets := raffle.availableTickets - p.quantity)];
    }

    /** reject_purchase (app.py:267-281). It does not check the purchase's
        status; only status and approver change, the numbers stay. */
    method RejectPurchase(caller: Caller, purchaseId: int) returns (r: Result<()>)
      requires Valid()
      modifies this
      ensures Valid()
      ensures !caller.isAdmin ==> r == Err(AccessDenied)
      ensures caller.isAdmin && !(1 <= purchaseId <= |old(purchases)|) ==> r == Err(NotFound)
      ensures caller.isAdmin && 1 <= purchaseId <= |old(purchases)| ==> r == Ok(())
      ensures r.Err? ==> Snapshot() == old(Snapshot())
      ensures r.Ok? ==> Snapshot() == RejectedBy(old(Snapshot()), purchaseId - 1, caller.userId)
      ensures r.Ok? ==>
        && raffles == old(raffles)
        && purchases[purchaseId - 1].status == Rejected
        && purchases[purchaseId - 1].approvedBy == Some(caller.userId)
        && (forall j :: 0 <= j < |purchases| ==> purchases[j].assignedTickets == old(purchases)[j].assignedTickets)
        && (forall j :: 0 <= j < |purchases| && j != purchaseId - 1 ==> purchases[j] == old(purchases)[j])
      ensures old(AllApart(Snapshot())) ==>
        AllApart(Snapshot()) && (old(AllInRange(Snapshot())) ==> AllInRange(Snapshot()))
      ensures r.Ok? && old(purchases)[purchaseId - 1].status != Approved && old(AllConsistent(Snapshot()))
        ==> AllConsistent(Snapshot())
    {
      if !caller.isAdmin {
        return Err(AccessDenied);
      }
      if !(1 <= purchaseId <= |purchases|) {
        return Err(NotFound);
      }
      ghost var before := Snapshot();
      var k := purchaseId - 1;
      if AllApart(before) {
        RejectionKeepsNumbersApart(before, k, caller.userId);
      }
      if AllConsistent(before) && purchases[k].status != Approved {
        RejectionPreservesConsistency(before, k, caller.userId);
      }
      purchases := purchases[k := purchases[k].(status := Rejected, approvedBy := Some(caller.userId))];
      r := Ok(());
    }

    /** create_raffle on a submitted form (app.py:293-314): every ticket
        starts available. */
    method CreateRaffle(caller: Caller, f: RaffleForm) returns (r: Result<int>)
      requires Valid()
      modifies this
      ensures Valid()
      ensures !caller.isAdmin ==> r == Err(AccessDenied) && Snapshot() == old(Snapshot())
      ensures caller.isAdmin ==> r == Ok(|old(raffles)| + 1) && Snapshot() == Created(old(Snapshot()), f)
      ensures r.Ok? ==> raffles[r.value - 1].availableTickets == raffles[r.value - 1].totalTickets == f.totalTickets
      ensures old(AllApart(Snapshot())) ==>
        AllApart(Snapshot()) && (old(AllInRange(Snapshot())) ==> AllInRange(Snapshot()))
      ensures old(AllConsistent(Snapshot())) ==> AllConsistent(Snapshot())
    {
      if !caller.isAdmin {
        return Err(AccessDenied);
      }
      ghost var before := Snapshot();
      if AllApart(before) {
        CreationKeepsNumbersApart(before, f);
      }
      if AllConsistent(before) {
        CreationPreservesConsistency(before, f);
      }
      raffles := raffles + [NewRaffle(f)];
      r := Ok(|raffles|);
    }

    /** edit_raffle on a submitted form (app.py:318-338): overwrites every
        field but available_tickets, with no check against the numbers
        already assigned. */
    method EditRaffle(caller: Caller, raffleId: int, f: RaffleForm) returns (r: Result<()>)
      requires Valid()
      modifies this
      ensures Valid()
      ensures !caller.isAdmin ==> r == Err(AccessDenied)
      ensures caller.isAdmin && !(1 <= raffleId <= |old(raffles)|) ==> r == Err(NotFound)
      ensures caller.isAdmin && 1 <= raffleId <= |old(raffles)| ==> r == Ok(())
      ensures r.Err? ==> Snapshot() == old(Snapshot())
      ensures r.Ok? ==> Snapshot() == Edited(old(Snapshot()), raffleId - 1, f)
      ensures r.Ok? ==>
        && purchases == old(purchases)
        && raffles[raffleId - 1].totalTickets == f.totalTickets
        && raffles[raffleId - 1].availableTickets == old(raffles)[raffleId - 1].availableTickets
      ensures old(AllApart(Snapshot())) ==> AllApart(Snapshot())
      ensures r.Ok? && old(AllApart(Snapshot()) && AllInRange(Snapshot())) ==>
        (AllInRange(Snapshot()) <==> NumbersAtMost(old(Snapshot()), raffleId - 1, f.totalTickets))
    {
      if !caller.isAdmin {
        return Err(AccessDenied);
      }
      if !(1 <= raffleId <= |raffles|) {
        return Err(NotFound);
      }
      var ri := raffleId - 1;
      ghost var before := Snapshot();
      var raffle := raffles[ri];
      raffles := raffles[ri := raffle.(title := f.title, description := f.description,
                                       totalTickets := f.totalTickets, imageUrl := Strip(f.imageUrl),
                                       isActive := f.isActive, endDate := f.endDate)];
      assert Snapshot() == Edited(before, ri, f);
      if AllApart(before) {
        EditingKeepsNumbersApart(before, ri, f);
      }
      r := Ok(());
    }

    /** ensure_database_initialized (app.py:342-359): adds the default admin
        when no user is called Admin. Ok(true) when it was added, Ok(false)
        when it already existed; when its email is taken by another user the
        insert is refused and nothing changes. */
    method EnsureDatabaseInitialized() returns (r: Result<bool>)
      requires Valid()
      modifies this
      ensures Valid()
      ensures Snapshot() == Initialized(old(Snapshot()))
      ensures HasUsername(old(users), AdminUsername) ==> r == Ok(false) && Snapshot() == old(Snapshot())
      ensures !HasUsername(old(users), AdminUsername) && HasEmail(old(users), AdminEmail)
        ==> r == Err(DuplicateEmail) && Snapshot() == old(Snapshot())
      ensures !HasUsername(old(users), AdminUsername) && !HasEmail(old(users), AdminEmail)
        ==> r == Ok(true) && users == old(users) + [DefaultAdmin]
      ensures r.Ok? ==> CountUsername(users, AdminUsername) == 1
    {
      ghost var before := Snapshot();
      if HasUsername(users, AdminUsername) {
        InitializedHasOneAdmin(before);
        return Ok(false);
      }
      if HasEmail(users, AdminEmail) {
        return Err(DuplicateEmail);
      }
      InitializedHasOneAdmin(before);
      users := users + [DefaultAdmin];
      r := Ok(true);
    }
  }

  /** random.sample(pool, quantity) followed by sort() (app.py:251-252):
      any duplicate-free choice of `quantity` numbers from the free pool,
      put in ascending order. */
  method Draw(total: int, taken: seq<int>, quantity: int) returns (drawn: seq<int>)
    requires 0 <= quantity <= |FreePool(total, taken)|
    ensures IsSortedDraw(drawn, FreePool(total, taken), quantity)
    ensures forall x :: x in drawn ==> 1 <= x <= total && x !in taken
  {
    var pool := FreePool(total, taken);
    SampleExists(pool, quantity);
    var sample :| IsSample(sample, pool, quantity);
    drawn := SortAscending(sample);
    SortedSampleIsDraw(sample, total, taken, quantity);
  }

  /** While no purchase is approved, an approval may draw from all of its
      raffle's numbers. */
  lemma PendingPoolIsWhole(s: State, k: int)
    requires WellFormed(s) && 0 <= k < |s.purchases|
    requires forall j :: 0 <= j < |s.purchases| ==> s.purchases[j].status != Approved
    requires s.raffles[s.purchases[k].raffleId - 1].totalTickets >= 0
    ensures PoolOf(s, k) == FreePool(s.raffles[s.purchases[k].raffleId - 1].totalTickets, [])
    ensures |PoolOf(s, k)| == s.raffles[s.purchases[k].raffleId - 1].totalTickets
  {
    var rid := s.purchases[k].raffleId;
    ExistingUnreferenced(s.purchases, rid);
    PoolSizeOfDistinct(s.raffles[rid - 1].totalTickets, []);
  }

  /** Before any approval every raffle is consistent as long as no ticket
      has left its available count. */
  lemma NothingApprovedIsConsistent(s: State)
    requires forall j :: 0 <= j < |s.purchases| ==> s.purchases[j].status != Approved
    requires forall ri :: 0 <= ri < |s.raffles| ==> s.raffles[ri].availableTickets == s.raffles[ri].totalTickets
    ensures AllConsistent(s)
  {
    forall ri | 0 <= ri < |s.raffles| ensures Consistent(s, ri) {
      ExistingUnreferenced(s.purchases, ri + 1);
    }
  }

  /** A fresh store holding one raffle created from `raffle`. */
  method OpenRaffle(admin: Caller, raffle: RaffleForm) returns (store: Store)
    requires admin.isAdmin
    ensures fresh(store) && store.Valid()
    ensures store.Snapshot() == State([NewRaffle(raffle)], [], [])
  {
    store := new Store();
    var created := store.CreateRaffle(admin, raffle);
  }

  /** A raffle of ten tickets: a purchase of three passes the soft check
      and reserves nothing; once it is approved seven tickets remain, and a
      purchase of eight is refused at submission. */
  method ScenarioSubmissionReservesNothing(raffle: RaffleForm, buyer: PurchaseForm)
    requires raffle.totalTickets == 10 && FieldsComplete(buyer)
  {
    var admin := Caller(1, true);
    var store := OpenRaffle(admin, raffle);
    var a := store.BuyTickets(buyer.(raffleId := 1, quantity := 3));
    assert a == Ok(1) && store.raffles[0].availableTickets == 10;
    ApproveThenOversell(store, admin, buyer);
  }

  /** Second half of the ten-ticket example, from the store holding the
      raffle and the pending purchase of three. */
  method ApproveThenOversell(store: Store, admin: Caller, buyer: PurchaseForm)
    requires store.Valid() && admin.isAdmin && FieldsComplete(buyer)
    requires |store.raffles| == 1 && store.raffles[0].availableTickets == store.raffles[0].totalTickets == 10
    requires store.purchases == [NewPurchase(buyer.(raffleId := 1, quantity := 3))]
    modifies store
  {
    ApproveThree(store, admin, buyer);
    var b := store.BuyTickets(buyer.(raffleId := 1, quantity := 8));
    assert b == Err(NotEnoughAvailable);
  }

  /** In the ten-ticket example, approving the purchase of three draws
      three numbers and leaves seven tickets available. */
  method ApproveThree(store: Store, admin: Caller, buyer: PurchaseForm)
    requires store.Valid() && admin.isAdmin
    requires |store.raffles| == 1 && store.raffles[0].availableTickets == store.raffles[0].totalTickets == 10
    requires store.purchases == [NewPurchase(buyer.(raffleId := 1, quantity := 3))]
    modifies store
    ensures store.Valid() && |store.raffles| == 1 && store.raffles[0].availableTickets == 7
  {
    ghost var before := store.Snapshot();
    PendingPoolIsWhole(before, 0);
    var approved := store.ApprovePurchase(admin, 1);
    assert approved.Ok? && |approved.value| == 3;
  }

  /** A raffle of five tickets and two purchases, of five and of one:
      approving the first assigns all of 1..5, after which the second
      cannot be approved. */
  method ScenarioWholePool(raffle: RaffleForm, buyer: PurchaseForm)
    requires raffle.totalTickets == 5 && FieldsComplete(buyer)
  {
    var admin := Caller(1, true);
    var store := OpenRaffle(admin, raffle);
    var a := store.BuyTickets(buyer.(raffleId := 1, quantity := 5));
    assert a == Ok(1) && store.purchases == [NewPurchase(buyer.(raffleId := 1, quantity := 5))];
    var b := store.BuyTickets(buyer.(raffleId := 1, quantity := 1));
    assert b == Ok(2);
    assert store.purchases == [NewPurchase(buyer.(raffleId := 1, quantity := 5)),
                               NewPurchase(buyer.(raffleId := 1, quantity := 1))];
    ApproveWholePool(store, admin, buyer);
  }

  /** Second half of the five-ticket example, from the store holding the
      raffle and both pending purchases. */
  method ApproveWholePool(store: Store, admin: Caller, buyer: PurchaseForm)
    requires store.Valid() && admin.isAdmin
    requires |store.raffles| == 1 && store.raffles[0].availableTickets == store.raffles[0].totalTickets == 5
    requires store.purchases == [NewPurchase(buyer.(raffleId := 1, quantity := 5)),
                                 NewPurchase(buyer.(raffleId := 1, quantity := 1))]
    modifies store
  {
    ghost var before := store.Snapshot();
    PendingPoolIsWhole(before, 0);
    var approvedA := store.ApprovePurchase(admin, 1);
    assert approvedA.Ok?;
    WholePoolTaken(before, buyer, approvedA.value, admin.userId);
    ApproveFromEmptyPool(store, admin);
  }

  /** In the five-ticket example, approving the purchase of five assigns
      exactly 1..5 and leaves an empty pool for the purchase of one. */
  lemma WholePoolTaken(s: State, buyer: PurchaseForm, drawn: seq<int>, adminId: int)
    requires WellFormed(s) && |s.raffles| == 1
    requires s.raffles[0].availableTickets == s.raffles[0].totalTickets == 5
    requires s.purchases == [NewPurchase(buyer.(raffleId := 1, quantity := 5)),
                             NewPurchase(buyer.(raffleId := 1, quantity := 1))]
    requires IsSortedDraw(drawn, PoolOf(s, 0), 5)
    ensures forall x :: x in drawn <==> 1 <= x <= 5
    ensures WellFormed(ApprovedWith(s, 0, drawn, adminId))
    ensures PoolOf(ApprovedWith(s, 0, drawn, adminId), 1) == []
  {
    assert s.purchases[0].status == s.purchases[1].status == Pending;
    NothingApprovedIsConsistent(s);
    PendingPoolIsWhole(s, 0);
    ApprovalExhaustsPool(s, 0, drawn, adminId);
  }

  /** Last step of the five-ticket example: purchase 2 meets an empty pool. */
  method ApproveFromEmptyPool(store: Store, admin: Caller)
    requires store.Valid() && admin.isAdmin && |store.purchases| == 2
    requires store.purchases[1].quantity == 1 && PoolOf(store.Snapshot(), 1) == []
    modifies store
  {
    var approvedB := store.ApprovePurchase(admin, 2);
    assert approvedB == Err(NotEnoughNumbers);
  }
}
