/** The three stored entities (raffle, purchase, user), the outcomes of the
    request handlers, and the functions that read the records: the ticket
    numbers already assigned in a raffle, whitespace stripping of form text,
    and username and email lookups. */
module Records {

  datatype Option<T> = None | Some(value: T)

  /** The status column of a purchase (app.py:53). */
  datatype Status = Pending | Approved | Rejected

  /** A raffle row. The price and the creation stamp are not part of the
      model; the end date is kept as the submitted 'YYYY-MM-DD' text. */
  datatype Raffle = Raffle(
    title: string,
    description: string,
    totalTickets: int,
    availableTickets: int,
    imageUrl: string,
    isActive: bool,
    endDate: string)

  /** A purchase row. `assignedTickets` is the decoded JSON list; an absent
      list and an empty one are both []. Timestamps and the amount are not
      part of the model. */
  datatype Purchase = Purchase(
    userId: int,
    raffleId: int,
    quantity: int,
    paymentMethod: string,
    buyerName: string,
    buyerLastname: string,
    buyerCedula: string,
    buyerPhone: string,
    bankName: string,
    referenceNumber: string,
    status: Status,
    assignedTickets: seq<int>,
    approvedBy: Option<int>)

  /** A user row, without the password hash. */
  datatype User = User(username: string, email: string, isAdmin: bool)

  /** The logged-in user that issues an admin request. */
  datatype Caller = Caller(userId: int, isAdmin: bool)

  /** Why a request ends without changing anything. */
  datatype Error =
    | AccessDenied        // "Acceso denegado"
    | NotFound            // get_or_404
    | NotEnoughAvailable  // quantity > available_tickets at submission
    | MissingField        // an empty buyer or payment field
    | NotEnoughNumbers    // the free pool is smaller than the quantity
    | NegativeSample      // random.sample refuses a negative size
    | DuplicateEmail      // the unique email column refuses the default admin

  datatype Result<T> = Ok(value: T) | Err(error: Error)

  /** The whole store; the record with id n sits at position n - 1. */
  datatype State = State(raffles: seq<Raffle>, purchases: seq<Purchase>, users: seq<User>)

  /** The numbers purchase p holds in raffle `raffleId`: its list when it is
      approved and belongs to that raffle, nothing otherwise. */
  function AssignedIn(p: Purchase, raffleId: int): seq<int> {
    if p.status == Approved && p.raffleId == raffleId then p.assignedTickets else []
  }

  /** The lists of all approved purchases of a raffle, concatenated in id order. */
  function Existing(ps: seq<Purchase>, raffleId: int): seq<int> {
    if ps == [] then []
    else Existing(ps[..|ps| - 1], raffleId) + AssignedIn(ps[|ps| - 1], raffleId)
  }

  /** A number is among a raffle's assigned numbers exactly when some
      approved purchase of that raffle holds it. */
  lemma {:induction false} ExistingMembers(ps: seq<Purchase>, raffleId: int)
    ensures forall x :: x in Existing(ps, raffleId) <==>
      exists j :: 0 <= j < |ps| && x in AssignedIn(ps[j], raffleId)
  {
    if ps != [] {
      var init := ps[..|ps| - 1];
      ExistingMembers(init, raffleId);
      assert forall j :: 0 <= j < |init| ==> init[j] == ps[j];
    }
  }

  lemma ExistingAppend(ps: seq<Purchase>, p: Purchase, raffleId: int)
    ensures Existing(ps + [p], raffleId) == Existing(ps, raffleId) + AssignedIn(p, raffleId)
  {
    assert (ps + [p])[..|ps|] == ps;
  }

  /** Replacing one purchase swaps its contribution for the new one's and
      leaves the other purchases' numbers where they were. */
  lemma {:induction false} ExistingUpdate(ps: seq<Purchase>, k: int, p: Purchase, raffleId: int)
    requires 0 <= k < |ps|
    ensures multiset(Existing(ps[k := p], raffleId)) + multiset(AssignedIn(ps[k], raffleId))
         == multiset(Existing(ps, raffleId)) + multiset(AssignedIn(p, raffleId))
  {
    var n := |ps|;
    var init, last := ps[..n - 1], ps[n - 1];
    assert ps == init + [last];
    ExistingAppend(init, last, raffleId);
    if k == n - 1 {
      assert ps[k := p] == init + [p];
      ExistingAppend(init, p, raffleId);
      MultisetSwap(Existing(init, raffleId), AssignedIn(p, raffleId), AssignedIn(last, raffleId));
    } else {
      assert ps[k := p] == init[k := p] + [last];
      ExistingAppend(init[k := p], last, raffleId);
      ExistingUpdate(init, k, p, raffleId);
      assert init[k] == ps[k];
      MultisetShift(Existing(init[k := p], raffleId), Existing(init, raffleId),
        AssignedIn(ps[k], raffleId), AssignedIn(p, raffleId), AssignedIn(last, raffleId));
    }
  }

  lemma MultisetSwap(e: seq<int>, a: seq<int>, b: seq<int>)
    ensures multiset(e + a) + multiset(b) == multiset(e + b) + multiset(a)
  {
  }

  lemma MultisetShift(e': seq<int>, e: seq<int>, a: seq<int>, b: seq<int>, c: seq<int>)
    requires multiset(e') + multiset(a) == multiset(e) + multiset(b)
    ensures multiset(e' + c) + multiset(a) == multiset(e + c) + multiset(b)
  {
    calc {
      multiset(e' + c) + multiset(a);
      multiset(e') + multiset(c) + multiset(a);
      (multiset(e') + multiset(a)) + multiset(c);
      (multiset(e) + multiset(b)) + multiset(c);
      multiset(e + c) + multiset(b);
    }
  }

  /** A raffle none of whose purchases is approved (in particular one no
      purchase refers to) has no numbers assigned. */
  lemma {:induction false} ExistingUnreferenced(ps: seq<Purchase>, raffleId: int)
    requires forall k :: 0 <= k < |ps| ==> ps[k].raffleId != raffleId || ps[k].status != Approved
    ensures Existing(ps, raffleId) == []
  {
    if ps != [] {
      ExistingUnreferenced(ps[..|ps| - 1], raffleId);
    }
  }

  /** The characters Python's str.isspace accepts. */
  predicate IsSpace(c: char) {
    || c == ' ' || '\t' <= c <= '\r' || '\U{1C}' <= c <= '\U{1F}'
    || c == '\U{85}' || c == '\U{A0}' || c == '\U{1680}'
    || '\U{2000}' <= c <= '\U{200A}' || c == '\U{2028}' || c == '\U{2029}'
    || c == '\U{202F}' || c == '\U{205F}' || c == '\U{3000}'
  }

  /** How many whitespace characters open s. */
  function LeadingSpace(s: string): (n: nat)
    ensures n <= |s|
  {
    if s == [] || !IsSpace(s[0]) then 0 else 1 + LeadingSpace(s[1..])
  }

  /** The count is exactly the whitespace run at the start of s. */
  lemma {:induction false} LeadingSpaceRun(s: string)
    ensures forall i :: 0 <= i < LeadingSpace(s) ==> IsSpace(s[i])
    ensures LeadingSpace(s) == |s| || !IsSpace(s[LeadingSpace(s)])
  {
    if s != [] && IsSpace(s[0]) {
      LeadingSpaceRun(s[1..]);
      forall i | 1 <= i < LeadingSpace(s) ensures IsSpace(s[i]) {
        assert s[i] == s[1..][i - 1];
      }
    }
  }

  /** How many whitespace characters close s. */
  function TrailingSpace(s: string): (n: nat)
    ensures n <= |s|
  {
    if s == [] || !IsSpace(s[|s| - 1]) then 0 else 1 + TrailingSpace(s[..|s| - 1])
  }

  /** The count is exactly the whitespace run at the end of s. */
  lemma {:induction false} TrailingSpaceRun(s: string)
    ensures forall i :: |s| - TrailingSpace(s) <= i < |s| ==> IsSpace(s[i])
    ensures TrailingSpace(s) == |s| || !IsSpace(s[|s| - TrailingSpace(s) - 1])
  {
    if s != [] && IsSpace(s[|s| - 1]) {
      var init := s[..|s| - 1];
      TrailingSpaceRun(init);
      forall i | |s| - TrailingSpace(s) <= i < |s| - 1 ensures IsSpace(s[i]) {
        assert s[i] == init[i];
      }
      if TrailingSpace(s) < |s| {
        assert s[|s| - TrailingSpace(s) - 1] == init[|init| - TrailingSpace(init) - 1];
      }
    }
  }

  /** r is the slice of s starting at i, with only whitespace around it. */
  predicate SpaceFramed(s: string, i: int, r: string) {
    && 0 <= i <= i + |r| <= |s|
    && s[i..i + |r|] == r
    && (forall k :: 0 <= k < i ==> IsSpace(s[k]))
    && (forall k :: i + |r| <= k < |s| ==> IsSpace(s[k]))
  }

  /** str.strip(): s without its leading and trailing whitespace. */
  function Strip(s: string): string {
    var t := s[LeadingSpace(s)..];
    t[..|t| - TrailingSpace(t)]
  }

  /** The stripped text is s between its leading and its trailing whitespace
      run, and neither starts nor ends with whitespace. */
  lemma StripFrames(s: string)
    ensures SpaceFramed(s, LeadingSpace(s), Strip(s))
    ensures Strip(s) == [] || (!IsSpace(Strip(s)[0]) && !IsSpace(Strip(s)[|Strip(s)| - 1]))
  {
    LeadingSpaceRun(s);
    StripTail(s);
    StripEnds(s);
  }

  /** Everything after the stripped text is whitespace. */
  lemma StripTail(s: string)
    ensures LeadingSpace(s) + |Strip(s)| <= |s|
    ensures s[LeadingSpace(s)..LeadingSpace(s) + |Strip(s)|] == Strip(s)
    ensures forall k :: LeadingSpace(s) + |Strip(s)| <= k < |s| ==> IsSpace(s[k])
  {
    var lead := LeadingSpace(s);
    var t := s[lead..];
    var r := t[..|t| - TrailingSpace(t)];
    assert Strip(s) == r;
    assert s[lead..lead + |r|] == r;
    TrailingSpaceRun(t);
    forall k | lead + |r| <= k < |s| ensures IsSpace(s[k]) {
      assert s[k] == t[k - lead];
    }
  }

  /** The stripped text neither starts nor ends with whitespace. */
  lemma StripEnds(s: string)
    ensures Strip(s) == [] || (!IsSpace(Strip(s)[0]) && !IsSpace(Strip(s)[|Strip(s)| - 1]))
  {
    var lead := LeadingSpace(s);
    var t := s[lead..];
    var r := t[..|t| - TrailingSpace(t)];
    assert Strip(s) == r;
    if r != [] {
      LeadingSpaceRun(s);
      TrailingSpaceRun(t);
      assert r[0] == t[0] == s[lead];
      assert r[|r| - 1] == t[|t| - TrailingSpace(t) - 1];
    }
  }

  predicate HasUsername(users: seq<User>, name: string) {
    exists i | 0 <= i < |users| :: users[i].username == name
  }

  predicate HasEmail(users: seq<User>, email: string) {
    exists i | 0 <= i < |users| :: users[i].email == email
  }

  /** The unique constraints on the username and email columns (app.py:29-30). */
  predicate UniqueUsers(users: seq<User>) {
    && (forall i, j :: 0 <= i < j < |users| ==> users[i].username != users[j].username)
    && (forall i, j :: 0 <= i < j < |users| ==> users[i].email != users[j].email)
  }

  /** How many users carry this username. */
  function CountUsername(users: seq<User>, name: string): nat {
    if users == [] then 0
    else CountUsername(users[..|users| - 1], name)
         + (if users[|users| - 1].username == name then 1 else 0)
  }

  /** With unique usernames a name is held by exactly one user or by none. */
  lemma {:induction false} UniqueNameCount(users: seq<User>, name: string)
    requires UniqueUsers(users)
    ensures CountUsername(users, name) == if HasUsername(users, name) then 1 else 0
  {
    if users != [] {
      var init, last := users[..|users| - 1], users[|users| - 1];
      assert UniqueUsers(init);
      UniqueNameCount(init, name);
      if last.username == name {
        forall i | 0 <= i < |init| ensures init[i].username != name {
          assert users[i].username != users[|users| - 1].username;
        }
      }
      if HasUsername(users, name) && last.username != name {
        var i :| 0 <= i < |users| && users[i].username == name;
        assert init[i].username == name;
      }
    }
  }
}
