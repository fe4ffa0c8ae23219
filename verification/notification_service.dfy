/** The listing-decision notification service: a registry of live
    server-sent-event connections per e-mail address, the durable
    notification table, publishing a decision (save, then fan out to the
    recipient's connections, pruning those whose send fails), marking a
    notification read, and listing a user's most recent notifications.
    The concurrent map and copy-on-write lists become an immutable map of
    sequences, iterated over a snapshot; whether a send succeeds is an
    oracle over emitters; the clock reading and the caller's e-mail are
    parameters. */
module Notifications {
  import opened Wrappers
  import opened JavaStrings
  import opened Ordering

  /** One `SseEmitter`, identified by object identity. */
  datatype Emitter = Emitter(id: nat)

  /** `emittersByEmail`: each address's live connections, in subscription order. */
  type Registry = map<string, seq<Emitter>>

  /** How a connection ends: the three callbacks `subscribe` registers. */
  datatype Termination = Completed | TimedOut | Errored

  /** A stored `UserNotification`. */
  datatype UserNotification = UserNotification(
    id: nat,
    recipientEmail: string,
    title: string,
    message: string,
    propertyId: Option<nat>,
    isRead: bool,
    createdAt: int)

  // The registry.

  /** No address is kept with an empty list of connections. */
  predicate NoEmptyLists(reg: Registry) {
    forall email :: email in reg ==> reg[email] != []
  }

  /** No connection is listed twice in `s`. */
  predicate Distinct(s: seq<Emitter>) {
    forall i, j :: 0 <= i < |s| && 0 <= j < |s| && s[i] == s[j] ==> i == j
  }

  /** No connection is listed twice under one address. */
  predicate NoDuplicates(reg: Registry) {
    forall email :: email in reg ==> Distinct(reg[email])
  }

  /** `e` is a new object, registered under no address. */
  predicate Fresh(reg: Registry, e: Emitter) {
    forall email :: email in reg ==> e !in reg[email]
  }

  /** The emitters registered under `email`, or none. */
  function Registered(reg: Registry, email: string): seq<Emitter> {
    if email in reg then reg[email] else []
  }

  /** Stores `list` under `email`, dropping the key when the list is empty. */
  function Put(reg: Registry, email: string, list: seq<Emitter>): Registry {
    if list == [] then reg - {email} else reg[email := list]
  }

  /** The position of the first `e` in `s`, or `|s|` when there is none. */
  function IndexOf(s: seq<Emitter>, e: Emitter): (i: nat)
    ensures i <= |s|
    ensures i < |s| ==> s[i] == e
    ensures forall k :: 0 <= k < i ==> s[k] != e
  {
    if s == [] then 0 else if s[0] == e then 0 else 1 + IndexOf(s[1..], e)
  }

  /** `List.remove(Object)`: drops the first occurrence of `e`, if any. */
  function RemoveFirst(s: seq<Emitter>, e: Emitter): (r: seq<Emitter>)
    ensures e !in s ==> r == s
    ensures e in s ==> |r| == |s| - 1 && multiset(r) == multiset(s) - multiset{e}
    ensures e in s ==> exists i :: 0 <= i < |s| && s[i] == e && e !in s[..i] && r == s[..i] + s[i + 1..]
  {
    var i := IndexOf(s, e);
    if i == |s| then s
    else
      assert s == s[..i] + [e] + s[i + 1..];
      s[..i] + s[i + 1..]
  }

  /** `removeEmitter`: forgets one connection of `email`, and the address
      itself once it has none left. */
  function RemoveEmitter(reg: Registry, email: string, e: Emitter): (r: Registry)
    ensures email !in reg ==> r == reg
    ensures Registered(r, email) == RemoveFirst(Registered(reg, email), e)
  {
    if email !in reg then reg else Put(reg, email, RemoveFirst(reg[email], e))
  }

  /** `subscribe`: appends a new connection to `email`'s list, creating
      the list if needed; when the initial "connected" event cannot be
      sent, the connection is removed again before returning. The address
      is non-blank (the stream endpoint refuses other tokens). */
  function Subscribe(reg: Registry, email: string, e: Emitter, connectedSent: bool): (r: Registry)
    requires !IsBlank(email) && Fresh(reg, e)
    ensures connectedSent ==> Registered(r, email) == Registered(reg, email) + [e]
  {
    var added := reg[email := Registered(reg, email) + [e]];
    if connectedSent then added else RemoveEmitter(added, email, e)
  }

  /** The completion, timeout and error callbacks: each removes the
      connection it was registered for. */
  function Terminate(reg: Registry, email: string, e: Emitter, how: Termination): (r: Registry)
    ensures email !in reg ==> r == reg
    ensures Registered(r, email) == RemoveFirst(Registered(reg, email), e)
  {
    match how
    case Completed => RemoveEmitter(reg, email, e)
    case TimedOut => RemoveEmitter(reg, email, e)
    case Errored => RemoveEmitter(reg, email, e)
  }

  lemma RemoveFirstOfAppendedFresh(s: seq<Emitter>, e: Emitter)
    requires e !in s
    ensures RemoveFirst(s + [e], e) == s
  {
    var t := s + [e];
    assert forall k :: 0 <= k < |s| ==> t[k] != e;
    assert t[|s|] == e;
    assert IndexOf(t, e) == |s|;
    assert t[..|s|] == s;
  }

  /** Removing a connection appended to an address's list, when it was
      not there before, restores the registry. */
  lemma RemoveAppended(reg: Registry, email: string, e: Emitter)
    requires email in reg ==> reg[email] != [] && e !in reg[email]
    ensures RemoveEmitter(reg[email := Registered(reg, email) + [e]], email, e) == reg
  {
    var list := Registered(reg, email);
    var added := reg[email := list + [e]];
    RemoveFirstOfAppendedFresh(list, e);
    assert RemoveEmitter(added, email, e) == Put(added, email, list);
    PutRestores(reg, email, list + [e]);
  }

  /** Storing back an address's own list undoes any update of it. */
  lemma PutRestores(reg: Registry, email: string, other: seq<Emitter>)
    requires email in reg ==> reg[email] != []
    ensures Put(reg[email := other], email, Registered(reg, email)) == reg
  {
    if email !in reg {
      assert reg[email := other] - {email} == reg;
    } else {
      assert reg[email := other][email := reg[email]] == reg;
    }
  }

  /** A connection that is subscribed and then ends, however it ends,
      leaves the registry exactly as it was. */
  lemma SubscribeThenTerminate(reg: Registry, email: string, e: Emitter, how: Termination)
    requires NoEmptyLists(reg) && !IsBlank(email) && Fresh(reg, e)
    ensures Terminate(Subscribe(reg, email, e, true), email, e, how) == reg
  {
    RemoveAppended(reg, email, e);
  }

  /** A connection whose "connected" event fails is not kept. */
  lemma FailedConnectLeavesRegistry(reg: Registry, email: string, e: Emitter)
    requires NoEmptyLists(reg) && !IsBlank(email) && Fresh(reg, e)
    ensures Subscribe(reg, email, e, false) == reg
  {
    RemoveAppended(reg, email, e);
  }

  /** Removing a connection never leaves an address with an empty list. */
  lemma RemoveKeepsNoEmptyLists(reg: Registry, email: string, e: Emitter)
    requires NoEmptyLists(reg)
    ensures NoEmptyLists(RemoveEmitter(reg, email, e))
  {
    var r := RemoveEmitter(reg, email, e);
    forall k | k in r
      ensures r[k] != []
    {
      assert k in reg;
    }
  }

  /** The registry never holds an empty list, whatever happens to a
      connection. */
  lemma OperationsKeepNoEmptyLists(reg: Registry, email: string, e: Emitter, ok: bool, how: Termination)
    requires NoEmptyLists(reg) && !IsBlank(email) && Fresh(reg, e)
    ensures NoEmptyLists(Subscribe(reg, email, e, ok))
    ensures NoEmptyLists(Terminate(reg, email, e, how))
  {
    var added := reg[email := Registered(reg, email) + [e]];
    assert NoEmptyLists(added);
    RemoveKeepsNoEmptyLists(added, email, e);
    RemoveKeepsNoEmptyLists(reg, email, e);
  }

  /** Connecting or disconnecting under one address leaves every other
      address's connections as they were. */
  lemma OtherAddressesUnaffected(reg: Registry, email: string, e: Emitter, ok: bool, how: Termination, other: string)
    requires !IsBlank(email) && Fresh(reg, e) && other != email
    ensures Registered(Subscribe(reg, email, e, ok), other) == Registered(reg, other)
    ensures Registered(Terminate(reg, email, e, how), other) == Registered(reg, other)
  {
    RemoveTouchesOnlyItsAddress(reg, email, e, other);
    var added := reg[email := Registered(reg, email) + [e]];
    assert Registered(added, other) == Registered(reg, other);
    RemoveTouchesOnlyItsAddress(added, email, e, other);
  }

  lemma RemoveTouchesOnlyItsAddress(reg: Registry, email: string, e: Emitter, other: string)
    requires other != email
    ensures Registered(RemoveEmitter(reg, email, e), other) == Registered(reg, other)
  {
    if email in reg {
      var list := RemoveFirst(reg[email], e);
      if list == [] {
        assert other in reg - {email} <==> other in reg;
      } else {
        assert other in reg[email := list] <==> other in reg;
      }
    }
  }

  lemma {:induction false} RemoveFirstAbsent(s: seq<Emitter>, e: Emitter)
    requires Distinct(s)
    ensures e !in RemoveFirst(s, e)
    ensures Distinct(RemoveFirst(s, e))
  {
    var i := IndexOf(s, e);
    if i < |s| {
      var r := s[..i] + s[i + 1..];
      assert RemoveFirst(s, e) == r;
      forall a, b | 0 <= a < |r| && 0 <= b < |r| && r[a] == r[b]
        ensures a == b
      {
        var a', b' := if a < i then a else a + 1, if b < i then b else b + 1;
        assert r[a] == s[a'] && r[b] == s[b'];
      }
      forall k | 0 <= k < |r|
        ensures r[k] != e
      {
        var k' := if k < i then k else k + 1;
        assert r[k] == s[k'] && k' != i;
      }
    }
  }

  /** Without duplicate connections, removing a connection twice is
      removing it once, and it is gone afterwards. */
  lemma RemoveEmitterIdempotent(reg: Registry, email: string, e: Emitter)
    requires NoDuplicates(reg)
    ensures var once := RemoveEmitter(reg, email, e);
      RemoveEmitter(once, email, e) == once && e !in Registered(once, email)
  {
    var once := RemoveEmitter(reg, email, e);
    if email in reg {
      RemoveFirstAbsent(reg[email], e);
      var twice := RemoveEmitter(once, email, e);
      assert Registered(twice, email) == Registered(once, email);
      assert email in twice <==> email in once;
    }
  }

  /** Appending a connection not yet listed keeps a list free of duplicates. */
  lemma DistinctAppend(s: seq<Emitter>, e: Emitter)
    requires Distinct(s) && e !in s
    ensures Distinct(s + [e])
  {
    var t := s + [e];
    assert forall k :: 0 <= k < |s| ==> t[k] == s[k];
    assert t[|s|] == e;
  }

  /** Storing a list without duplicates keeps both registry invariants. */
  lemma PutKeepsInvariants(reg: Registry, email: string, list: seq<Emitter>)
    requires Distinct(list)
    ensures NoDuplicates(reg) ==> NoDuplicates(Put(reg, email, list))
    ensures NoEmptyLists(reg) ==> NoEmptyLists(Put(reg, email, list))
  {
  }

  /** Removing a connection keeps the registry free of duplicates. */
  lemma RemoveKeepsNoDuplicates(reg: Registry, email: string, e: Emitter)
    requires NoDuplicates(reg)
    ensures NoDuplicates(RemoveEmitter(reg, email, e))
  {
    if email in reg {
      RemoveFirstAbsent(reg[email], e);
      PutKeepsInvariants(reg, email, RemoveFirst(reg[email], e));
    }
  }

  /** Subscribing a new connection and ending one keep the registry free
      of duplicates. */
  lemma OperationsKeepNoDuplicates(reg: Registry, email: string, e: Emitter, ok: bool, how: Termination)
    requires NoDuplicates(reg) && !IsBlank(email) && Fresh(reg, e)
    ensures NoDuplicates(Subscribe(reg, email, e, ok))
    ensures NoDuplicates(Terminate(reg, email, e, how))
  {
    var list := Registered(reg, email);
    assert Distinct(list);
    DistinctAppend(list, e);
    var added := reg[email := list + [e]];
    assert NoDuplicates(added);
    RemoveKeepsNoDuplicates(added, email, e);
    RemoveKeepsNoDuplicates(reg, email, e);
  }

  /** The survivors of a list without duplicates have none either. */
  lemma {:induction false} SurvivorsDistinct(s: seq<Emitter>, sendOk: Emitter -> bool)
    requires Distinct(s)
    ensures Distinct(Survivors(s, sendOk))
  {
    if s != [] {
      var init, last := s[..|s| - 1], s[|s| - 1];
      assert Distinct(init) by {
        assert forall k :: 0 <= k < |init| ==> init[k] == s[k];
      }
      SurvivorsDistinct(init, sendOk);
      if sendOk(last) {
        assert last !in init by {
          assert forall k :: 0 <= k < |init| ==> init[k] == s[k] && k != |s| - 1;
        }
        SurvivorsAreTheSuccessful(init, sendOk, last);
        DistinctAppend(Survivors(init, sendOk), last);
      }
    }
  }

  /** Pruning a recipient's connections after a fan-out keeps both
      registry invariants. */
  lemma PruneKeepsInvariants(reg: Registry, email: string, sendOk: Emitter -> bool)
    ensures NoDuplicates(reg) ==> NoDuplicates(Prune(reg, email, sendOk))
    ensures NoEmptyLists(reg) ==> NoEmptyLists(Prune(reg, email, sendOk))
  {
    if Registered(reg, email) != [] {
      if NoDuplicates(reg) {
        SurvivorsDistinct(reg[email], sendOk);
        PutKeepsInvariants(reg, email, Survivors(reg[email], sendOk));
      }
      if NoEmptyLists(reg) {
        var list := Survivors(reg[email], sendOk);
        var r := Put(reg, email, list);
        forall k | k in r
          ensures r[k] != []
        {
          assert k in reg;
        }
      }
    }
  }

  // The notification table.

  /** The record `publishListingDecision` saves; the table assigns the
      next id and the creation time. */
  function DecisionRecord(store: seq<UserNotification>, recipient: string, propertyId: Option<nat>,
                          message: string, statusLabel: string, now: int): (n: UserNotification)
    ensures n.id == |store| + 1 && n.recipientEmail == recipient && n.message == message
    ensures n.title == "Listing " + statusLabel && n.propertyId == propertyId && !n.isRead
    ensures n.createdAt == now
  {
    UserNotification(|store| + 1, recipient, "Listing " + statusLabel, message, propertyId, false, now)
  }

  /** The connections of `s` whose send succeeds, in order. */
  function Survivors(s: seq<Emitter>, sendOk: Emitter -> bool): (r: seq<Emitter>)
    ensures |r| <= |s|
  {
    if s == [] then []
    else
      var last := s[|s| - 1];
      assert s == s[..|s| - 1] + [last];
      Survivors(s[..|s| - 1], sendOk) + (if sendOk(last) then [last] else [])
  }

  /** Exactly the connections whose send succeeds survive. */
  lemma {:induction false} SurvivorsAreTheSuccessful(s: seq<Emitter>, sendOk: Emitter -> bool, e: Emitter)
    ensures e in Survivors(s, sendOk) <==> e in s && sendOk(e)
  {
    if s != [] {
      var init := s[..|s| - 1];
      assert s == init + [s[|s| - 1]];
      SurvivorsAreTheSuccessful(init, sendOk, e);
    }
  }

  /** The functional reference for the fan-out: keep the connections of
      `email` whose send succeeds. */
  function Prune(reg: Registry, email: string, sendOk: Emitter -> bool): Registry {
    if Registered(reg, email) == [] then reg else Put(reg, email, Survivors(reg[email], sendOk))
  }

  /** With every failing connection before `x` already gone, the first
      occurrence of a failing `x` is the one at the current position. */
  lemma RemoveAtCursor(kept: seq<Emitter>, rest: seq<Emitter>, p: Emitter -> bool)
    requires rest != [] && !p(rest[0])
    requires forall k :: 0 <= k < |kept| ==> p(kept[k])
    ensures RemoveFirst(kept + rest, rest[0]) == kept + rest[1..]
  {
    var s := kept + rest;
    assert forall k :: 0 <= k < |kept| ==> s[k] != rest[0];
    assert s[|kept|] == rest[0];
    assert IndexOf(s, rest[0]) == |kept|;
    assert s[..|kept|] == kept && s[|kept| + 1..] == rest[1..];
  }

  /** One iteration of the fan-out: a failed send removes the connection. */
  function AttemptSend(reg: Registry, email: string, e: Emitter, sendOk: Emitter -> bool): Registry {
    if sendOk(e) then reg else RemoveEmitter(reg, email, e)
  }

  /** `publishListingDecision`. Nothing happens for a missing or blank
      recipient. Otherwise the notification is saved first, and kept
      whether or not anyone is listening; then every connection the
      recipient had when the loop started gets exactly one send attempt,
      in order, and exactly those whose send fails are removed. */
  method PublishListingDecision(reg: Registry, store: seq<UserNotification>, recipient: Option<string>,
                                propertyId: Option<nat>, message: string, statusLabel: string, now: int,
                                sendOk: Emitter -> bool)
    returns (reg': Registry, store': seq<UserNotification>, attempts: seq<Emitter>)
    ensures recipient.None? || IsBlank(recipient.value) ==> reg' == reg && store' == store && attempts == []
    ensures recipient.Some? && !IsBlank(recipient.value) ==>
      && store' == store + [DecisionRecord(store, recipient.value, propertyId, message, statusLabel, now)]
      && attempts == Registered(reg, recipient.value)
      && reg' == Prune(reg, recipient.value, sendOk)
  {
    if recipient.None? || IsBlank(recipient.value) {
      return reg, store, [];
    }
    var email := recipient.value;
    var notification := DecisionRecord(store, email, propertyId, message, statusLabel, now);
    store' := store + [notification];
    attempts := [];
    if email !in reg || reg[email] == [] {
      return reg, store', attempts;
    }
    reg', attempts := FanOut(reg, email, sendOk);
  }

  /** The loop of `publishListingDecision` over a snapshot of `email`'s
      connections: one send attempt each, in order; a failed send removes
      that connection from the live registry and the loop goes on. */
  method FanOut(reg: Registry, email: string, sendOk: Emitter -> bool) returns (reg': Registry, attempts: seq<Emitter>)
    requires email in reg && reg[email] != []
    ensures attempts == reg[email]
    ensures reg' == Put(reg, email, Survivors(reg[email], sendOk))
  {
    var snapshot := reg[email];
    reg', attempts := reg, [];
    var i := 0;
    while i < |snapshot|
      invariant 0 <= i <= |snapshot|
      invariant attempts == snapshot[..i]
      invariant reg' == SendAll(reg, email, snapshot[..i], sendOk)
    {
      var emitter := snapshot[i];
      assert snapshot[..i + 1] == snapshot[..i] + [emitter];
      assert snapshot[..i + 1][..i] == snapshot[..i];
      attempts := attempts + [emitter];
      reg' := AttemptSend(reg', email, emitter, sendOk);
      i := i + 1;
    }
    assert snapshot[..i] == snapshot;
    SendAllUnvisited(reg, email, i, sendOk);
    FanOutEnd(snapshot, sendOk);
  }

  /** The registry after attempting a send to each of `tried`, in order. */
  function SendAll(reg: Registry, email: string, tried: seq<Emitter>, sendOk: Emitter -> bool): Registry
    decreases |tried|
  {
    if tried == [] then reg
    else AttemptSend(SendAll(reg, email, tried[..|tried| - 1], sendOk), email, tried[|tried| - 1], sendOk)
  }

  /** Sending to the first `i` connections of the list leaves the
      survivors among them followed by the untried rest. */
  lemma {:induction false} SendAllUnvisited(reg: Registry, email: string, i: nat, sendOk: Emitter -> bool)
    requires email in reg && reg[email] != [] && i <= |reg[email]|
    ensures SendAll(reg, email, reg[email][..i], sendOk) == Put(reg, email, Unvisited(reg[email], i, sendOk))
  {
    var snapshot := reg[email];
    if i == 0 {
      assert snapshot[..0] == [];
      FanOutStart(reg, email, sendOk);
    } else {
      SendAllUnvisited(reg, email, i - 1, sendOk);
      assert snapshot[..i][..i - 1] == snapshot[..i - 1];
      FanOutStep(reg, email, snapshot, i - 1, sendOk);
    }
  }

  /** The registered list during the fan-out, with the cursor at `i`: the
      survivors among the connections already tried, then the untried ones. */
  function Unvisited(snapshot: seq<Emitter>, i: nat, sendOk: Emitter -> bool): seq<Emitter>
    requires i <= |snapshot|
  {
    Survivors(snapshot[..i], sendOk) + snapshot[i..]
  }

  /** Before the fan-out, the registry is its own starting point. */
  lemma FanOutStart(reg: Registry, email: string, sendOk: Emitter -> bool)
    requires email in reg && reg[email] != []
    ensures Put(reg, email, Unvisited(reg[email], 0, sendOk)) == reg
  {
    assert reg[email][..0] == [] && reg[email][0..] == reg[email];
    assert Survivors([], sendOk) == [];
    assert Unvisited(reg[email], 0, sendOk) == reg[email];
    assert reg[email := reg[email]] == reg;
  }

  /** Once the cursor is past the end, only the survivors are left. */
  lemma FanOutEnd(snapshot: seq<Emitter>, sendOk: Emitter -> bool)
    ensures Unvisited(snapshot, |snapshot|, sendOk) == Survivors(snapshot, sendOk)
  {
    assert snapshot[..|snapshot|] == snapshot && snapshot[|snapshot|..] == [];
  }

  /** The survivors of one more connection. */
  lemma SurvivorsSnoc(s: seq<Emitter>, i: nat, sendOk: Emitter -> bool)
    requires i < |s|
    ensures Survivors(s[..i + 1], sendOk) == Survivors(s[..i], sendOk) + (if sendOk(s[i]) then [s[i]] else [])
  {
    assert s[..i + 1][..i] == s[..i];
  }

  /** Advancing the cursor past a connection keeps it when its send
      succeeds and drops exactly it, its first occurrence, when it fails. */
  lemma CursorAdvance(snapshot: seq<Emitter>, i: nat, sendOk: Emitter -> bool)
    requires i < |snapshot|
    ensures sendOk(snapshot[i]) ==> Unvisited(snapshot, i + 1, sendOk) == Unvisited(snapshot, i, sendOk)
    ensures !sendOk(snapshot[i]) ==>
      RemoveFirst(Unvisited(snapshot, i, sendOk), snapshot[i]) == Unvisited(snapshot, i + 1, sendOk)
  {
    var kept, e, rest := Survivors(snapshot[..i], sendOk), snapshot[i], snapshot[i..];
    SurvivorsSnoc(snapshot, i, sendOk);
    assert rest == [e] + snapshot[i + 1..];
    assert Unvisited(snapshot, i, sendOk) == kept + rest;
    if sendOk(e) {
      assert Unvisited(snapshot, i + 1, sendOk) == (kept + [e]) + snapshot[i + 1..];
    } else {
      assert Unvisited(snapshot, i + 1, sendOk) == kept + snapshot[i + 1..];
      forall k | 0 <= k < |kept|
        ensures sendOk(kept[k])
      {
        SurvivorsAreTheSuccessful(snapshot[..i], sendOk, kept[k]);
      }
      RemoveAtCursor(kept, rest, sendOk);
      assert rest[0] == e && rest[1..] == snapshot[i + 1..];
    }
  }

  /** One iteration moves the cursor of the registered list by one. */
  lemma FanOutStep(reg: Registry, email: string, snapshot: seq<Emitter>, i: nat, sendOk: Emitter -> bool)
    requires i < |snapshot|
    ensures AttemptSend(Put(reg, email, Unvisited(snapshot, i, sendOk)), email, snapshot[i], sendOk)
         == Put(reg, email, Unvisited(snapshot, i + 1, sendOk))
  {
    CursorAdvance(snapshot, i, sendOk);
    if !sendOk(snapshot[i]) {
      RemoveAfterPut(reg, email, Unvisited(snapshot, i, sendOk), snapshot[i]);
    }
  }

  /** Removing from a list just stored is storing the shortened list. */
  lemma RemoveAfterPut(reg: Registry, email: string, list: seq<Emitter>, e: Emitter)
    requires list != []
    ensures RemoveEmitter(Put(reg, email, list), email, e) == Put(reg, email, RemoveFirst(list, e))
  {
    PutTwice(reg, email, list, RemoveFirst(list, e));
  }

  /** A second `Put` under the same address overrides the first. */
  lemma PutTwice(reg: Registry, email: string, a: seq<Emitter>, b: seq<Emitter>)
    ensures Put(Put(reg, email, a), email, b) == Put(reg, email, b)
  {
  }

  // Reading the notification table.

  /** No two stored notifications share an id (the table's primary key). */
  predicate UniqueIds(store: seq<UserNotification>) {
    forall i, j :: 0 <= i < |store| && 0 <= j < |store| && store[i].id == store[j].id ==> i == j
  }

  /** `findByIdAndRecipientEmail`. */
  function FindOwned(store: seq<UserNotification>, id: nat, caller: string): (r: Option<UserNotification>)
    ensures r.Some? ==> r.value in store && r.value.id == id && r.value.recipientEmail == caller
    ensures r.None? <==> forall k :: 0 <= k < |store| ==> !(store[k].id == id && store[k].recipientEmail == caller)
  {
    First(store, (n: UserNotification) => n.id == id && n.recipientEmail == caller)
  }

  /** `save` of a row that is already stored: the row with its id is replaced. */
  function SaveRow(store: seq<UserNotification>, row: UserNotification): (r: seq<UserNotification>)
    ensures |r| == |store|
  {
    seq(|store|, k requires 0 <= k < |store| => if store[k].id == row.id then row else store[k])
  }

  /** What `markAsReadForCurrentUser` leaves behind: the table and the row it returns. */
  datatype Marked = Marked(store: seq<UserNotification>, row: UserNotification)

  /** `markAsReadForCurrentUser`: only the caller's own notification can be
      marked; it is saved with the read flag set and returned. */
  function MarkAsRead(store: seq<UserNotification>, caller: string, id: nat): (r: Result<Marked>)
    ensures r.Ok? <==> exists k :: 0 <= k < |store| && store[k].id == id && store[k].recipientEmail == caller
    ensures r.Err? ==> r.message == "Notification not found"
    ensures r.Ok? ==> r.value.row.isRead && r.value.row.id == id && r.value.row.recipientEmail == caller
    ensures r.Ok? ==> (|r.value.store| == |store|
      && forall k :: 0 <= k < |store| ==>
           r.value.store[k] == if store[k].id == id then r.value.row else store[k])
  {
    match FindOwned(store, id, caller)
    case None => Err("Notification not found")
    case Some(n) =>
      var row := n.(isRead := true);
      Ok(Marked(SaveRow(store, row), row))
  }

  /** Marking changes nothing of the notification but its read flag. */
  lemma MarkAsReadOnlySetsFlag(store: seq<UserNotification>, caller: string, id: nat)
    requires UniqueIds(store)
    ensures var r := MarkAsRead(store, caller, id);
      r.Ok? ==> exists k :: (0 <= k < |store| && store[k].id == id
        && r.value.row == store[k].(isRead := true)
        && r.value.store == store[k := r.value.row])
  {
    var r := MarkAsRead(store, caller, id);
    if r.Ok? {
      var n := FindOwned(store, id, caller).value;
      var k :| 0 <= k < |store| && store[k] == n;
      assert r.value.store == store[k := r.value.row];
    }
  }

  /** Marking a notification read a second time changes nothing more. */
  lemma MarkAsReadIdempotent(store: seq<UserNotification>, caller: string, id: nat)
    requires UniqueIds(store)
    ensures var r := MarkAsRead(store, caller, id);
      r.Ok? ==> MarkAsRead(r.value.store, caller, id) == r
  {
    var r := MarkAsRead(store, caller, id);
    if r.Ok? {
      MarkAsReadOnlySetsFlag(store, caller, id);
      var k :| 0 <= k < |store| && store[k].id == id && r.value.row == store[k].(isRead := true)
        && r.value.store == store[k := r.value.row];
      var t := r.value.store;
      assert forall j :: 0 <= j < |t| && t[j].id == id ==> j == k;
      var again := FindOwned(t, id, caller);
      assert again == Some(t[k]);
      assert SaveRow(t, r.value.row) == t;
    }
  }

  /** The sort key under which ascending order is newest first. */
  function Recency(n: UserNotification): int {
    -n.createdAt
  }

  /** The first `n` elements of `s`, or all of them when there are fewer. */
  function Take<T>(s: seq<T>, n: nat): (r: seq<T>)
    ensures |r| == if |s| < n then |s| else n
    ensures r == s[..|r|]
    ensures multiset(r) <= multiset(s)
  {
    if |s| <= n then s
    else
      assert s == s[..n] + s[n..];
      s[..n]
  }

  /** The page size of `findTop50ByRecipientEmailOrderByCreatedAtDesc`. */
  const PageSize: nat := 50

  /** The recipient filter of the listing query. */
  function AddressedTo(caller: string): UserNotification -> bool {
    (n: UserNotification) => n.recipientEmail == caller
  }

  /** `getCurrentUserNotifications`: the caller's 50 most recent
      notifications, newest first. */
  function CurrentUserNotifications(store: seq<UserNotification>, caller: string): (r: seq<UserNotification>)
    ensures |r| <= PageSize
    ensures |r| == if Count(store, AddressedTo(caller)) < PageSize then Count(store, AddressedTo(caller)) else PageSize
    ensures forall k :: 0 <= k < |r| ==> r[k] in store && r[k].recipientEmail == caller
    ensures forall i, j :: 0 <= i < j < |r| ==> r[i].createdAt >= r[j].createdAt
    ensures multiset(r) <= multiset(Where(store, AddressedTo(caller)))
  {
    var mine := Where(store, AddressedTo(caller));
    CountIsSizeOfWhere(store, AddressedTo(caller));
    var sorted := SortBy(mine, Recency);
    PageOfSorted(sorted, store, caller);
    Take(sorted, PageSize)
  }

  /** A prefix of the caller's notifications sorted newest first is the
      caller's and is newest first. */
  lemma PageOfSorted(sorted: seq<UserNotification>, store: seq<UserNotification>, caller: string)
    requires SortedBy(sorted, Recency)
    requires forall x :: x in sorted ==> x in store && x.recipientEmail == caller
    ensures var r := Take(sorted, PageSize);
      && (forall k :: 0 <= k < |r| ==> r[k] in store && r[k].recipientEmail == caller)
      && (forall i, j :: 0 <= i < j < |r| ==> r[i].createdAt >= r[j].createdAt)
  {
    var r := Take(sorted, PageSize);
    forall k | 0 <= k < |r|
      ensures r[k] in store && r[k].recipientEmail == caller
    {
      assert r[k] == sorted[k];
    }
    forall i, j | 0 <= i < j < |r|
      ensures r[i].createdAt >= r[j].createdAt
    {
      assert r[i] == sorted[i] && r[j] == sorted[j];
      assert Recency(sorted[i]) <= Recency(sorted[j]);
    }
  }

  /** A notification of the caller's that is left off the page is no newer
      than anything on it, and is left off only when the page is full. */
  lemma CurrentUserNotificationsAreTheNewest(store: seq<UserNotification>, caller: string, n: UserNotification)
    requires n in store && n.recipientEmail == caller
    ensures var page := CurrentUserNotifications(store, caller);
      n !in page ==> |page| == PageSize && forall k :: 0 <= k < |page| ==> page[k].createdAt >= n.createdAt
  {
    var sorted := SortBy(Where(store, AddressedTo(caller)), Recency);
    assert CurrentUserNotifications(store, caller) == Take(sorted, PageSize);
    assert n in sorted;
    var j :| 0 <= j < |sorted| && sorted[j] == n;
    PageOmitsOnlyOlder(sorted, j);
  }

  /** The page of a newest-first list leaves out an element only when the
      page is full, and then everything on the page is at least as new. */
  lemma PageOmitsOnlyOlder(sorted: seq<UserNotification>, j: nat)
    requires SortedBy(sorted, Recency) && j < |sorted|
    ensures var page := Take(sorted, PageSize);
      sorted[j] !in page ==> |page| == PageSize && forall k :: 0 <= k < |page| ==> page[k].createdAt >= sorted[j].createdAt
  {
    var page := Take(sorted, PageSize);
    if j < |page| {
      assert page[j] == sorted[j];
    }
    if sorted[j] !in page {
      forall k | 0 <= k < |page|
        ensures page[k].createdAt >= sorted[j].createdAt
      {
        assert page[k] == sorted[k];
        assert Recency(sorted[k]) <= Recency(sorted[j]);
      }
    }
  }

  /** A decision published later than every notification the recipient
      already has heads the recipient's page. */
  lemma PublishedDecisionLeadsPage(store: seq<UserNotification>, recipient: string, propertyId: Option<nat>,
                                   message: string, statusLabel: string, now: int)
    requires forall k :: 0 <= k < |store| && store[k].recipientEmail == recipient ==> store[k].createdAt < now
    ensures var n := DecisionRecord(store, recipient, propertyId, message, statusLabel, now);
      var page := CurrentUserNotifications(store + [n], recipient);
      page != [] && page[0] == n
  {
    var n := DecisionRecord(store, recipient, propertyId, message, statusLabel, now);
    var all := store + [n];
    var page := CurrentUserNotifications(all, recipient);
    assert all[|store|] == n;
    CurrentUserNotificationsAreTheNewest(all, recipient, n);
    assert page != [];
    assert page[0] in all && page[0].recipientEmail == recipient;
  }
}
