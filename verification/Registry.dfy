/**
 The client list as a value: what each registry operation does to it when it runs alone, and which
 registrations are left after any sequence of changes.
 */
module Registry {
  import opened Bytes

  // ---------- Operations ----------

  /** A limit of -1 means that there is none. */
  const NO_LIMIT := -1

  predicate HasRoom<T>(limit: int, clients: seq<T>) {
    limit == NO_LIMIT || |clients| < limit
  }

  /** The quota-checked add, as one indivisible operation. */
  function Admit<T>(limit: int, clients: seq<T>, client: T): seq<T> {
    if HasRoom(limit, clients) then clients + [client] else clients
  }

  function IndexOf<T(==)>(s: seq<T>, x: T): (k: nat)
    ensures k <= |s|
    ensures forall i :: 0 <= i < k ==> s[i] != x
    ensures k < |s| ==> s[k] == x
  {
    if s == [] || s[0] == x then 0 else 1 + IndexOf(s[1..], x)
  }

  function RemoveAt<T>(s: seq<T>, k: nat): seq<T> {
    if k < |s| then s[..k] + s[k + 1..] else s
  }

  function RemoveFirst<T(==)>(s: seq<T>, x: T): seq<T> {
    RemoveAt(s, IndexOf(s, x))
  }

  /** `after` is `before` without the first `x`, or the same when there is none. */
  predicate IsWithoutFirst<T(==)>(before: seq<T>, x: T, after: seq<T>) {
    if x in before then
      exists k :: 0 <= k < |before| && before[k] == x && x !in before[..k] && after == before[..k] + before[k + 1..]
    else
      after == before
  }

  lemma RemoveFirstIsWithoutFirst<T>(s: seq<T>, x: T)
    ensures IsWithoutFirst(s, x, RemoveFirst(s, x))
  {
    assert x !in s[..IndexOf(s, x)];
  }

  lemma IndexOfIsFirst<T>(s: seq<T>, x: T, k: nat)
    requires k < |s| && s[k] == x && x !in s[..k]
    ensures IndexOf(s, x) == k
  {
    assert forall i :: 0 <= i < k ==> s[i] in s[..k];
  }

  lemma RemoveFirstLength<T>(s: seq<T>, x: T)
    ensures |RemoveFirst(s, x)| <= |s|
  {
  }

  lemma RemoveFirstCons<T>(s: seq<T>, x: T)
    requires s != []
    ensures RemoveFirst(s, x) == if s[0] == x then s[1..] else [s[0]] + RemoveFirst(s[1..], x)
  {
    if s[0] != x && IndexOf(s[1..], x) < |s[1..]| {
      var k := IndexOf(s[1..], x);
      assert s[..k + 1] == [s[0]] + s[1..][..k];
    }
  }

  /** One occurrence goes, if there is one, and nothing else. */
  lemma RemoveFirstRemovesOne<T>(s: seq<T>, x: T)
    ensures multiset(RemoveFirst(s, x)) == multiset(s) - multiset{x}
  {
    var k := IndexOf(s, x);
    if k < |s| {
      assert s == s[..k] + [x] + s[k + 1..];
    } else {
      assert x !in s;
    }
  }

  /** Position of the first client that is wanted, or the length when there is none. */
  function FirstIndexIn<T(==)>(s: seq<T>, wanted: set<T>): (k: nat)
    ensures k <= |s|
    ensures forall i :: 0 <= i < k ==> s[i] !in wanted
    ensures k < |s| ==> s[k] in wanted
  {
    if s == [] || s[0] in wanted then 0 else 1 + FirstIndexIn(s[1..], wanted)
  }

  function FirstIn<T(==)>(s: seq<T>, wanted: set<T>): Option<T> {
    var k := FirstIndexIn(s, wanted);
    if k < |s| then Some(s[k]) else None
  }

  /** `found` is the first of the wanted clients; None when there is none of them. */
  predicate IsFirstOf<T(==)>(clients: seq<T>, wanted: set<T>, found: Option<T>) {
    match found
    case None => forall i :: 0 <= i < |clients| ==> clients[i] !in wanted
    case Some(client) =>
      exists i :: 0 <= i < |clients| && clients[i] == client && client in wanted &&
                  forall j :: 0 <= j < i ==> clients[j] !in wanted
  }

  lemma FirstInIsFirst<T>(clients: seq<T>, wanted: set<T>)
    ensures IsFirstOf(clients, wanted, FirstIn(clients, wanted))
  {
  }

  // ---------- Changes over time ----------

  /** What happened to the list; an add that is refused is no change. */
  datatype Change<T> = Added(client: T) | Removed(client: T) | Cleared

  function Effect<T(==)>(clients: seq<T>, change: Change<T>): seq<T> {
    match change
    case Added(client) => clients + [client]
    case Removed(client) => RemoveFirst(clients, client)
    case Cleared => []
  }

  function ListAfter<T(==)>(changes: seq<Change<T>>): seq<T> {
    if changes == [] then [] else Effect(ListAfter(changes[..|changes| - 1]), changes[|changes| - 1])
  }

  function AddedAll<T>(clients: seq<T>): (changes: seq<Change<T>>)
    ensures |changes| == |clients| && forall i :: 0 <= i < |clients| ==> changes[i] == Added(clients[i])
  {
    seq(|clients|, i requires 0 <= i < |clients| => Added(clients[i]))
  }

  lemma {:induction false} ListAfterAddedAll<T>(clients: seq<T>)
    ensures ListAfter(AddedAll(clients)) == clients
  {
    if clients == [] {
    } else {
      var init := clients[..|clients| - 1];
      ListAfterAddedAll(init);
      assert AddedAll(clients)[..|init|] == AddedAll(init);
      SplitLast(clients);
    }
  }

  // ---------- Which registrations are alive ----------

  /** Registrations of a client that are alive after these changes. */
  function CountOf<T(==)>(changes: seq<Change<T>>, client: T): nat {
    if changes == [] then 0
    else
      var before := CountOf(changes[..|changes| - 1], client);
      match changes[|changes| - 1]
      case Added(c) => if c == client then before + 1 else before
      case Removed(c) => if c == client && before > 0 then before - 1 else before
      case Cleared => 0
  }

  function Removals<T(==)>(changes: seq<Change<T>>, client: T): nat {
    if changes == [] then 0
    else Removals(changes[..|changes| - 1], client) + if changes[|changes| - 1] == Removed(client) then 1 else 0
  }

  /**
   The registration made by change `t` is still there: there was no clearing since, and fewer
   removals of that client than it takes to use up its earlier registrations and then this one.
   */
  predicate Alive<T(==)>(changes: seq<Change<T>>, t: nat)
    requires t < |changes|
  {
    && changes[t].Added?
    && (forall i :: t < i < |changes| ==> changes[i] != Cleared)
    && Removals(changes[t + 1..], changes[t].client) <= CountOf(changes[..t], changes[t].client)
  }

  // ---------- Numbered registrations ----------

  /** A registration and the number of the change that made it. */
  datatype Ticket<T> = Ticket(number: nat, client: T)

  function Clients<T>(tickets: seq<Ticket<T>>): (clients: seq<T>)
    ensures |clients| == |tickets| && forall i :: 0 <= i < |tickets| ==> clients[i] == tickets[i].client
  {
    seq(|tickets|, i requires 0 <= i < |tickets| => tickets[i].client)
  }

  function DropFirst<T(==)>(tickets: seq<Ticket<T>>, client: T): seq<Ticket<T>> {
    if tickets == [] then []
    else if tickets[0].client == client then tickets[1..]
    else [tickets[0]] + DropFirst(tickets[1..], client)
  }

  /** The list after some changes with every entry numbered. */
  function Tickets<T(==)>(changes: seq<Change<T>>): seq<Ticket<T>> {
    if changes == [] then []
    else
      var n := |changes| - 1;
      var before := Tickets(changes[..n]);
      match changes[n]
      case Added(client) => before + [Ticket(n, client)]
      case Removed(client) => DropFirst(before, client)
      case Cleared => []
  }

  /** Numbers rise and stay below `n`. */
  predicate InOrder<T>(tickets: seq<Ticket<T>>, n: nat) {
    && (forall i :: 0 <= i < |tickets| ==> tickets[i].number < n)
    && (forall i, j :: 0 <= i < j < |tickets| ==> tickets[i].number < tickets[j].number)
  }

  lemma {:induction false} DropFirstClients<T>(tickets: seq<Ticket<T>>, client: T)
    ensures Clients(DropFirst(tickets, client)) == RemoveFirst(Clients(tickets), client)
  {
    var clients := Clients(tickets);
    if tickets == [] {
    } else {
      RemoveFirstCons(clients, client);
      assert clients[1..] == Clients(tickets[1..]);
      DropFirstClients(tickets[1..], client);
    }
  }

  lemma {:induction false} TicketsNumberTheList<T>(changes: seq<Change<T>>)
    ensures Clients(Tickets(changes)) == ListAfter(changes)
  {
    if changes == [] {
    } else {
      var n := |changes| - 1;
      TicketsNumberTheList(changes[..n]);
      if changes[n].Removed? {
        DropFirstClients(Tickets(changes[..n]), changes[n].client);
      }
    }
  }

  lemma {:induction false} DropFirstInOrder<T>(tickets: seq<Ticket<T>>, client: T, n: nat)
    requires InOrder(tickets, n)
    ensures InOrder(DropFirst(tickets, client), n)
    ensures forall t :: t in DropFirst(tickets, client) ==> t in tickets
  {
    if tickets == [] || tickets[0].client == client {
    } else {
      DropFirstInOrder(tickets[1..], client, n);
      var rest := DropFirst(tickets[1..], client);
      forall j | 0 <= j < |rest|
        ensures tickets[0].number < rest[j].number
      {
        assert rest[j] in tickets[1..];
      }
    }
  }

  lemma {:induction false} TicketsInOrder<T>(changes: seq<Change<T>>)
    ensures InOrder(Tickets(changes), |changes|)
    ensures forall t :: t in Tickets(changes) ==> t.number < |changes| && changes[t.number] == Added(t.client)
  {
    if changes == [] {
    } else {
      var n := |changes| - 1;
      TicketsInOrder(changes[..n]);
      if changes[n].Removed? {
        DropFirstInOrder(Tickets(changes[..n]), changes[n].client, n);
      }
    }
  }

  /** How many entries of the same client stand before ticket `t`; None when it is not in the list. */
  function Ahead<T(==)>(tickets: seq<Ticket<T>>, t: Ticket<T>): Option<nat> {
    if tickets == [] then None
    else if tickets[0] == t then Some(0)
    else
      match Ahead(tickets[1..], t)
      case None => None
      case Some(n) => Some(if tickets[0].client == t.client then n + 1 else n)
  }

  lemma {:induction false} AheadMeansIn<T>(tickets: seq<Ticket<T>>, t: Ticket<T>)
    ensures Ahead(tickets, t).Some? <==> t in tickets
  {
    if tickets == [] {
    } else {
      AheadMeansIn(tickets[1..], t);
    }
  }

  function CountIn<T(==)>(tickets: seq<Ticket<T>>, client: T): nat {
    if tickets == [] then 0 else (if tickets[0].client == client then 1 else 0) + CountIn(tickets[1..], client)
  }

  lemma {:induction false} AheadOfNewest<T>(tickets: seq<Ticket<T>>, t: Ticket<T>)
    requires t !in tickets
    ensures Ahead(tickets + [t], t) == Some(CountIn(tickets, t.client))
  {
    if tickets == [] {
      assert tickets + [t] == [t];
    } else {
      assert (tickets + [t])[1..] == tickets[1..] + [t];
      AheadOfNewest(tickets[1..], t);
    }
  }

  lemma {:induction false} AheadAfterAdd<T>(tickets: seq<Ticket<T>>, t: Ticket<T>, u: Ticket<T>)
    requires t != u
    ensures Ahead(tickets + [u], t) == Ahead(tickets, t)
  {
    if tickets == [] {
      assert (tickets + [u])[1..] == [];
    } else {
      assert (tickets + [u])[1..] == tickets[1..] + [u];
      AheadAfterAdd(tickets[1..], t, u);
    }
  }

  /** A place after one removal, of the same client or of another. */
  function AfterRemoval(place: Option<nat>, same: bool): Option<nat> {
    if place.Some? && same then (if place.value == 0 then None else Some(place.value - 1)) else place
  }

  lemma {:induction false} AheadAfterDrop<T>(tickets: seq<Ticket<T>>, t: Ticket<T>, client: T, n: nat)
    requires InOrder(tickets, n)
    ensures Ahead(DropFirst(tickets, client), t) == AfterRemoval(Ahead(tickets, t), client == t.client)
  {
    if tickets == [] {
    } else {
      var rest := tickets[1..];
      if tickets[0].client == client {
        AheadMeansIn(rest, t);
      } else {
        AheadAfterDrop(rest, t, client, n);
        assert ([tickets[0]] + DropFirst(rest, client))[1..] == DropFirst(rest, client);
      }
    }
  }

  lemma {:induction false} CountAfterAdd<T>(tickets: seq<Ticket<T>>, u: Ticket<T>, client: T)
    ensures CountIn(tickets + [u], client) == CountIn(tickets, client) + if u.client == client then 1 else 0
  {
    if tickets == [] {
      assert (tickets + [u])[1..] == [];
    } else {
      assert (tickets + [u])[1..] == tickets[1..] + [u];
      CountAfterAdd(tickets[1..], u, client);
    }
  }

  lemma {:induction false} CountAfterDrop<T>(tickets: seq<Ticket<T>>, dropped: T, client: T)
    ensures var n := CountIn(tickets, client);
            CountIn(DropFirst(tickets, dropped), client) == if dropped == client && n > 0 then n - 1 else n
  {
    if tickets == [] {
    } else {
      CountAfterDrop(tickets[1..], dropped, client);
      var rest := DropFirst(tickets[1..], dropped);
      assert ([tickets[0]] + rest)[1..] == rest;
    }
  }

  lemma {:induction false} CountIsCountOf<T>(changes: seq<Change<T>>, client: T)
    ensures CountIn(Tickets(changes), client) == CountOf(changes, client)
  {
    if changes == [] {
    } else {
      var n := |changes| - 1;
      CountIsCountOf(changes[..n], client);
      var before := Tickets(changes[..n]);
      match changes[n]
      case Added(c) => CountAfterAdd(before, Ticket(n, c), client);
      case Removed(c) => CountAfterDrop(before, c, client);
      case Cleared =>
    }
  }

  /** Earlier registrations of the same client less the removals since; negative once this one is gone. */
  function Distance<T(==)>(changes: seq<Change<T>>, t: nat): int
    requires t < |changes| && changes[t].Added?
  {
    CountOf(changes[..t], changes[t].client) - Removals(changes[t + 1..], changes[t].client)
  }

  lemma DistanceSnoc<T>(changes: seq<Change<T>>, t: nat, change: Change<T>)
    requires t < |changes| && changes[t].Added?
    ensures Distance(changes + [change], t)
         == Distance(changes, t) - if change == Removed(changes[t].client) then 1 else 0
  {
    var more := changes + [change];
    assert more[..t] == changes[..t];
    assert more[t + 1..] == changes[t + 1..] + [change];
    assert more[t + 1..][..|changes| - t - 1] == changes[t + 1..];
  }

  lemma AliveSnoc<T>(changes: seq<Change<T>>, t: nat, change: Change<T>)
    requires t < |changes| && changes[t].Added?
    ensures Alive(changes + [change], t)
       <==> Alive(changes, t) && change != Cleared
            && !(change == Removed(changes[t].client) && Distance(changes, t) == 0)
  {
    DistanceSnoc(changes, t, change);
    var more := changes + [change];
    assert forall i :: t < i < |changes| ==> more[i] == changes[i];
    assert more[|changes|] == change;
  }

  function Place<T(==)>(changes: seq<Change<T>>, t: nat): Option<nat>
    requires t < |changes| && changes[t].Added?
  {
    if Alive(changes, t) then Some(Distance(changes, t)) else None
  }

  lemma PlaceSnoc<T>(changes: seq<Change<T>>, t: nat, change: Change<T>)
    requires t < |changes| && changes[t].Added?
    ensures Place(changes + [change], t)
         == if change == Cleared then None
            else AfterRemoval(Place(changes, t), change == Removed(changes[t].client))
  {
    AliveSnoc(changes, t, change);
    DistanceSnoc(changes, t, change);
  }

  lemma TakeBeforeLast<X>(a: seq<X>, x: X)
    ensures (a + [x])[..|a|] == a
  {
  }

  lemma PlaceOfNewest<T>(changes: seq<Change<T>>, client: T)
    ensures Place(changes + [Added(client)], |changes|) == Some(CountOf(changes, client))
  {
    var more, t := changes + [Added(client)], |changes|;
    TakeBeforeLast(changes, Added(client));
    var none: seq<Change<T>> := [];
    assert Removals(none, client) == 0;
    assert more[t + 1..] == none;
    assert Distance(more, t) == CountOf(changes, client);
    assert Alive(more, t);
  }

  lemma TicketsSnoc<T>(changes: seq<Change<T>>, change: Change<T>)
    ensures Tickets(changes + [change])
         == (if change.Added? then Tickets(changes) + [Ticket(|changes|, change.client)]
             else if change.Removed? then DropFirst(Tickets(changes), change.client)
             else [])
  {
    assert (changes + [change])[..|changes|] == changes;
  }

  lemma AheadDropped<T>(changes: seq<Change<T>>, ticket: Ticket<T>, client: T)
    ensures Ahead(DropFirst(Tickets(changes), client), ticket)
         == AfterRemoval(Ahead(Tickets(changes), ticket), client == ticket.client)
  {
    TicketsInOrder(changes);
    AheadAfterDrop(Tickets(changes), ticket, client, |changes|);
  }

  lemma AheadStep<T>(changes: seq<Change<T>>, t: nat, change: Change<T>)
    requires t < |changes| && changes[t].Added?
    requires Ahead(Tickets(changes), Ticket(t, changes[t].client)) == Place(changes, t)
    ensures Ahead(Tickets(changes + [change]), Ticket(t, changes[t].client)) == Place(changes + [change], t)
  {
    var ticket := Ticket(t, changes[t].client);
    TicketsSnoc(changes, change);
    PlaceSnoc(changes, t, change);
    if change.Removed? {
      AheadDropped(changes, ticket, change.client);
    } else if change.Added? {
      AheadAfterAdd(Tickets(changes), ticket, Ticket(|changes|, change.client));
    }
  }

  lemma AheadOfNewestIsPlace<T>(changes: seq<Change<T>>, client: T)
    ensures Ahead(Tickets(changes + [Added(client)]), Ticket(|changes|, client))
         == Place(changes + [Added(client)], |changes|)
  {
    var ticket := Ticket(|changes|, client);
    assert ticket !in Tickets(changes) by { TicketsInOrder(changes); }
    TicketsSnoc(changes, Added(client));
    AheadOfNewest(Tickets(changes), ticket);
    CountIsCountOf(changes, client);
    PlaceOfNewest(changes, client);
  }

  /** The place of a registration in the list, as long as it is alive. */
  lemma {:induction false} AheadIsPlace<T>(changes: seq<Change<T>>, t: nat)
    requires t < |changes| && changes[t].Added?
    ensures Ahead(Tickets(changes), Ticket(t, changes[t].client)) == Place(changes, t)
    decreases |changes|
  {
    var init, change := changes[..|changes| - 1], changes[|changes| - 1];
    assert changes == init + [change];
    if t == |init| {
      AheadOfNewestIsPlace(init, change.client);
    } else {
      AheadIsPlace(init, t);
      AheadStep(init, t, change);
    }
  }

  /**
   The list after any changes: the registrations that are alive, each once, in the order in which
   they were made.
   */
  lemma ListIsAliveInOrder<T>(changes: seq<Change<T>>)
    ensures ListAfter(changes) == Clients(Tickets(changes))
    ensures InOrder(Tickets(changes), |changes|)
    ensures forall ticket :: ticket in Tickets(changes) ==>
              ticket.number < |changes| && changes[ticket.number] == Added(ticket.client)
    ensures forall t :: 0 <= t < |changes| && changes[t].Added? ==>
              (Ticket(t, changes[t].client) in Tickets(changes) <==> Alive(changes, t))
  {
    TicketsNumberTheList(changes);
    TicketsInOrder(changes);
    forall t | 0 <= t < |changes| && changes[t].Added?
      ensures Ticket(t, changes[t].client) in Tickets(changes) <==> Alive(changes, t)
    {
      AheadMeansIn(Tickets(changes), Ticket(t, changes[t].client));
      AheadIsPlace(changes, t);
    }
  }

  /** `found` is the earliest registration alive of a wanted client; None when there is none. */
  predicate IsEarliestAlive<T(==)>(changes: seq<Change<T>>, wanted: set<T>, found: Option<T>) {
    match found
    case None =>
      forall t :: 0 <= t < |changes| && changes[t].Added? && Alive(changes, t) ==> changes[t].client !in wanted
    case Some(client) =>
      exists t :: 0 <= t < |changes| && changes[t] == Added(client) && Alive(changes, t) && client in wanted &&
                  forall u :: 0 <= u < t && changes[u].Added? && Alive(changes, u) ==> changes[u].client !in wanted
  }

  lemma EarlierTicketsAreBefore<T>(tickets: seq<Ticket<T>>, n: nat, ticket: Ticket<T>, k: nat) returns (j: nat)
    requires InOrder(tickets, n) && ticket in tickets
    requires k <= |tickets| && (k < |tickets| ==> ticket.number < tickets[k].number)
    ensures j < k && tickets[j] == ticket
  {
    j :| 0 <= j < |tickets| && tickets[j] == ticket;
  }

  /** Searching the list from its beginning finds the earliest registration alive. */
  lemma FirstIsEarliestAlive<T>(changes: seq<Change<T>>, wanted: set<T>)
    ensures IsEarliestAlive(changes, wanted, FirstIn(ListAfter(changes), wanted))
  {
    ListIsAliveInOrder(changes);
    var tickets, clients := Tickets(changes), ListAfter(changes);
    var k := FirstIndexIn(clients, wanted);
    forall u | 0 <= u < |changes| && changes[u].Added? && Alive(changes, u) &&
               (k < |clients| ==> u < tickets[k].number)
      ensures changes[u].client !in wanted
    {
      var j := EarlierTicketsAreBefore(tickets, |changes|, Ticket(u, changes[u].client), k);
      assert clients[j] == changes[u].client;
    }
    if k < |clients| {
      assert tickets[k] in tickets;
      var t := tickets[k].number;
      assert changes[t] == Added(clients[k]) && Ticket(t, changes[t].client) in tickets && Alive(changes, t);
    }
  }
}
