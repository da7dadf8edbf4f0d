/**
 * The session-and-pairing broker of the chat server: the table of registered
 * connections, the table that pairs a user with a therapist, and the four
 * Socket.IO event handlers that read and change them.
 *
 * Every handler runs to completion before the next event is taken, so each
 * one is a single method of `Broker`.  Whatever the server emits is appended
 * to `outbox`, addressed either to one connection id or to every connection
 * open at that moment.
 *
 * Line numbers in the comments below refer to `backend/server.js`.
 */
module Server {
  import opened Wrappers
  import opened JsObject

  /** A Socket.IO connection id. */
  type Id = Key

  /** The send time the server formats from the wall clock; an opaque input here. */
  type Time = string

  /**
   * A stored role.  `Other` carries any role string other than "user" and
   * "therapist"; the client offers only those two, the server accepts anything.
   */
  datatype Role = User | Therapist | Other(name: string)

  /** A record of the `users` table. */
  datatype Participant = Participant(username: string, role: Role)

  /** The events the server emits, with their payloads. */
  datatype Event =
    | UserList(users: map<Id, Participant>, order: seq<Id>)
    | AssignedPartner(partnerId: Id, partnerName: string)
    | PublicMessage(user: string, text: string, time: Time)
    | PrivateMessage(from: Id, user: string, text: string, time: Time)

  /** Who an emitted event is addressed to. */
  datatype Audience = Socket(id: Id) | Everyone(ids: set<Id>)

  datatype Delivery = Delivery(audience: Audience, event: Event)

  /** The stored display name, `username || "Anonymous"`: a missing or empty name is replaced. */
  function DisplayName(username: Option<string>): (r: string)
    ensures r != ""
    ensures username.Some? && username.value != "" ==> r == username.value
    ensures username.None? || username.value == "" ==> r == "Anonymous"
  {
    if username.Some? && username.value != "" then username.value else "Anonymous"
  }

  /** The stored role, `role || "user"`: a missing or empty role is stored as a user. */
  function StoredRole(role: Option<string>): (r: Role)
    ensures r.User? <==> role.None? || role == Some("") || role == Some("user")
    ensures r.Therapist? <==> role == Some("therapist")
    ensures r.Other? ==> role == Some(r.name) && r.name !in {"", "user", "therapist"}
  {
    var s := if role.Some? && role.value != "" then role.value else "user";
    if s == "user" then User else if s == "therapist" then Therapist else Other(s)
  }

  predicate IsTherapist(p: Participant) {
    p.role == Therapist
  }

  /** `t` is a therapist, and no record before it in `order` is. */
  ghost predicate FirstTherapist(order: seq<Id>, users: map<Id, Participant>, t: Id) {
    IsFirst(order, users, IsTherapist, t)
  }

  /**
   * The matcher's choice is determined by the table: a later therapist is
   * never chosen while an earlier one is registered.
   */
  lemma TherapistChoiceIsFirst(order: seq<Id>, users: map<Id, Participant>, a: Id, b: Id)
    requires Ordered(order, users)
    requires FirstTherapist(order, users, a) && FirstTherapist(order, users, b)
    ensures a == b
  {
    FirstIsUnique(order, users, IsTherapist, a, b);
  }

  /** Some record in `users` has the role "therapist". */
  ghost predicate HasTherapist(users: map<Id, Participant>) {
    exists k :: k in users && users[k].role == Therapist
  }

  /** The test of the reverse lookup at line 69: a pair whose therapist is `sender`. */
  function PairedWith(sender: Id): Id -> bool {
    (v: Id) => v == sender
  }

  /** `to` is paired with `sender`, and no key before it in `pairOrder` is. */
  ghost predicate FirstUserOf(pairs: map<Id, Id>, pairOrder: seq<Id>, sender: Id, to: Id) {
    IsFirst(pairOrder, pairs, PairedWith(sender), to)
  }

  /**
   * The reverse lookup of `privateMessage` picks one user: however many users
   * are paired with a therapist, only the first of them in `pairs` order is
   * reachable that way, so a therapist that has no pair of its own can write
   * privately to at most one user.
   */
  lemma TherapistReachesOneUser(pairs: map<Id, Id>, pairOrder: seq<Id>, t: Id, a: Id, b: Id)
    requires Ordered(pairOrder, pairs)
    requires FirstUserOf(pairs, pairOrder, t, a) && FirstUserOf(pairs, pairOrder, t, b)
    ensures a == b
  {
    FirstIsUnique(pairOrder, pairs, PairedWith(t), a, b);
  }

  /**
   * What holds of the two tables between events: each key order lists its
   * table's keys once; only an open connection has a record and only a
   * registered one a pair; a pair never names its own key and names an id
   * that once connected (`seen`), and a therapist id still connected is
   * still registered.  Connection ids are never empty.
   */
  ghost predicate Consistent(users: map<Id, Participant>, userOrder: seq<Id>, pairs: map<Id, Id>, pairOrder: seq<Id>,
                             open: set<Id>, seen: set<Id>)
  {
    && Ordered(userOrder, users)
    && Ordered(pairOrder, pairs)
    && "" !in seen
    && open <= seen
    && users.Keys <= open
    && pairs.Keys <= users.Keys
    && (forall u :: u in pairs ==> pairs[u] != u && pairs[u] in seen)
    && (forall u :: u in pairs && pairs[u] in open ==> pairs[u] in users)
  }

  /** Storing a record for an open connection (line 23) keeps the tables consistent. */
  lemma StoreKeepsConsistent(users: map<Id, Participant>, userOrder: seq<Id>, pairs: map<Id, Id>, pairOrder: seq<Id>,
                             open: set<Id>, seen: set<Id>, id: Id, record: Participant)
    requires Consistent(users, userOrder, pairs, pairOrder, open, seen)
    requires id in open
    ensures Consistent(users[id := record], InsertKey(userOrder, id), pairs, pairOrder, open, seen)
  {
    InsertKeyOrdered(userOrder, users, id, record);
  }

  /** Pairing a registered user with another registered id (line 31) keeps the tables consistent. */
  lemma PairKeepsConsistent(users: map<Id, Participant>, userOrder: seq<Id>, pairs: map<Id, Id>, pairOrder: seq<Id>,
                            open: set<Id>, seen: set<Id>, u: Id, t: Id)
    requires Consistent(users, userOrder, pairs, pairOrder, open, seen)
    requires u in users && t in users && u != t
    ensures Consistent(users, userOrder, pairs[u := t], InsertKey(pairOrder, u), open, seen)
  {
    InsertKeyOrdered(pairOrder, pairs, u, t);
  }

  /** `disconnect` keeps the tables consistent. */
  lemma UnregisterKeepsConsistent(users: map<Id, Participant>, userOrder: seq<Id>, pairs: map<Id, Id>, pairOrder: seq<Id>,
                                  open: set<Id>, seen: set<Id>, id: Id)
    requires Consistent(users, userOrder, pairs, pairOrder, open, seen)
    ensures Consistent(users - {id}, DeleteKey(userOrder, id), pairs - {id}, DeleteKey(pairOrder, id), open - {id}, seen)
  {
    DeleteKeyOrdered(userOrder, users, id);
    DeleteKeyOrdered(pairOrder, pairs, id);
  }

  class Broker {
    /** The `users` table, socket id to record, and its key order. */
    var users: map<Id, Participant>
    var userOrder: seq<Id>
    /** The `pairs` table, user id to therapist id, and its key order. */
    var pairs: map<Id, Id>
    var pairOrder: seq<Id>
    /** The connections currently open, the audience of `io.emit`. */
    var open: set<Id>
    /** Everything emitted so far, in order. */
    var outbox: seq<Delivery>
    /** Every id that has ever connected; Socket.IO never hands out an id twice. */
    ghost var seen: set<Id>

    ghost predicate Valid()
      reads this`users, this`userOrder, this`pairs, this`pairOrder, this`open, this`seen
    {
      Consistent(users, userOrder, pairs, pairOrder, open, seen)
    }

    /** The two empty tables the server starts with. */
    constructor ()
      ensures Valid()
      ensures users == map[] && userOrder == [] && pairs == map[] && pairOrder == []
      ensures open == {} && outbox == [] && seen == {}
    {
      users, userOrder := map[], [];
      pairs, pairOrder := map[], [];
      open, outbox := {}, [];
      seen := {};
    }

    /** A new connection: nothing is registered for it and nothing is emitted. */
    method Connect(id: Id)
      requires Valid()
      requires id != "" && id !in seen
      modifies this`open, this`seen
      ensures Valid()
      ensures open == old(open) + {id} && seen == old(seen) + {id}
    {
      open := open + {id};
      seen := seen + {id};
    }

    /**
     * `setUser`: store the caller's record (every other record unchanged);
     * when the payload role is exactly "user" and some record is a
     * therapist, pair the caller with the first therapist in `users` order
     * and tell both ends; then send the `users` table to every connection.
     */
    method SetUser(id: Id, username: Option<string>, role: Option<string>)
      requires Valid()
      requires id in open
      modifies this`users, this`userOrder, this`pairs, this`pairOrder, this`outbox
      ensures Valid()
      ensures users == old(users)[id := Participant(DisplayName(username), StoredRole(role))]
      ensures userOrder == InsertKey(old(userOrder), id)
      ensures var snapshot := Delivery(Everyone(open), UserList(users, userOrder));
              if role == Some("user") && HasTherapist(users) then
                && id in pairs && FirstTherapist(userOrder, users, pairs[id]) && pairs[id] != id
                && pairs == old(pairs)[id := pairs[id]]
                && pairOrder == InsertKey(old(pairOrder), id)
                && outbox == old(outbox)
                             + [ Delivery(Socket(id), AssignedPartner(pairs[id], users[pairs[id]].username))
                               , Delivery(Socket(pairs[id]), AssignedPartner(id, users[id].username)) ]
                             + [snapshot]
              else
                && pairs == old(pairs) && pairOrder == old(pairOrder)
                && outbox == old(outbox) + [snapshot]
    {
      Store(id, Participant(DisplayName(username), StoredRole(role)));
      if role == Some("user") {
        var t := FindKey(userOrder, users, IsTherapist);
        if t.Some? {
          Pair(id, t.value);
        }
      }
      outbox := outbox + [Delivery(Everyone(open), UserList(users, userOrder))];
    }

    /** `users[id] = record` (line 23): only the caller's record changes. */
    method Store(id: Id, record: Participant)
      requires Valid()
      requires id in open
      modifies this`users, this`userOrder
      ensures Valid()
      ensures users == old(users)[id := record] && userOrder == InsertKey(old(userOrder), id)
    {
      StoreKeepsConsistent(users, userOrder, pairs, pairOrder, open, seen, id, record);
      users, userOrder := users[id := record], InsertKey(userOrder, id);
    }

    /**
     * Pair user `u` with therapist `t` and send each the other's id and name
     * (lines 31-39); an earlier pair for `u` is overwritten.
     */
    method Pair(u: Id, t: Id)
      requires Valid()
      requires u in users && t in users && u != t
      modifies this`pairs, this`pairOrder, this`outbox
      ensures Valid()
      ensures pairs == old(pairs)[u := t] && pairOrder == InsertKey(old(pairOrder), u)
      ensures outbox == old(outbox) + [ Delivery(Socket(u), AssignedPartner(t, users[t].username))
                                      , Delivery(Socket(t), AssignedPartner(u, users[u].username)) ]
    {
      PairKeepsConsistent(users, userOrder, pairs, pairOrder, open, seen, u, t);
      pairs, pairOrder := pairs[u := t], InsertKey(pairOrder, u);
      outbox := outbox + [ Delivery(Socket(u), AssignedPartner(t, users[t].username))
                         , Delivery(Socket(t), AssignedPartner(u, users[u].username)) ];
    }

    /**
     * `publicMessage`: a sender whose stored role is "user" reaches every
     * open connection, itself included, with one event; any other sender,
     * an unregistered one included, reaches nobody.
     */
    method PublicMessage(id: Id, text: string, time: Time)
      requires Valid()
      requires id in open
      modifies this`outbox
      ensures if id in users && users[id].role == User
              then outbox == old(outbox) + [Delivery(Everyone(open), Event.PublicMessage(users[id].username, text, time))]
              else outbox == old(outbox)
    {
      if id in users && users[id].role == User {
        outbox := outbox + [Delivery(Everyone(open), Event.PublicMessage(users[id].username, text, time))];
      }
    }

    /**
     * `privateMessage`: accepted exactly when `to` is the sender's therapist
     * or the first user paired with the sender; then the same event goes to
     * `to` and back to the sender, and otherwise nothing is emitted.
     */
    method PrivateMessage(id: Id, to: Id, text: string, time: Time) returns (accepted: bool)
      requires Valid()
      requires id in open
      modifies this`outbox
      ensures accepted <==> (id in pairs && pairs[id] == to) || FirstUserOf(pairs, pairOrder, id, to)
      ensures accepted ==> id in users && to != id
      ensures accepted ==>
                var msg := Event.PrivateMessage(id, users[id].username, text, time);
                outbox == old(outbox) + [Delivery(Socket(to), msg), Delivery(Socket(id), msg)]
      ensures !accepted ==> outbox == old(outbox)
    {
      var therapistId := if id in pairs then Some(pairs[id]) else None;
      var userId := FindKey(pairOrder, pairs, PairedWith(id));
      accepted := false;
      if therapistId.Some? && therapistId.value != "" && therapistId.value == to {
        accepted := true;
      }
      if userId.Some? && userId.value != "" && userId.value == to {
        accepted := true;
      }
      if FirstUserOf(pairs, pairOrder, id, to) {
        // the scan stops at the first user paired with the sender, which is `to`
        FirstIsUnique(pairOrder, pairs, PairedWith(id), userId.value, to);
      }
      if accepted {
        var msg := Event.PrivateMessage(id, users[id].username, text, time);
        outbox := outbox + [Delivery(Socket(to), msg), Delivery(Socket(id), msg)];
      }
    }

    /**
     * `disconnect`: the connection closes, its record and the pair keyed by
     * it are deleted, pairs naming it as therapist stay, and the new `users`
     * table goes to the connections still open.
     */
    method Disconnect(id: Id)
      requires Valid()
      modifies this`users, this`userOrder, this`pairs, this`pairOrder, this`open, this`outbox
      ensures Valid()
      ensures users == old(users) - {id} && userOrder == DeleteKey(old(userOrder), id)
      ensures pairs == old(pairs) - {id} && pairOrder == DeleteKey(old(pairOrder), id)
      ensures open == old(open) - {id}
      ensures outbox == old(outbox) + [Delivery(Everyone(open), UserList(users, userOrder))]
      ensures forall u :: u in old(pairs) && u != id ==> u in pairs && pairs[u] == old(pairs)[u]
      ensures id !in old(users) && id !in old(pairs) ==>
                users == old(users) && userOrder == old(userOrder) && pairs == old(pairs) && pairOrder == old(pairOrder)
    {
      if id !in users && id !in pairs {
        DeleteAbsentKey(userOrder, users, id);
        DeleteAbsentKey(pairOrder, pairs, id);
      }
      Unregister(id);
      outbox := outbox + [Delivery(Everyone(open), UserList(users, userOrder))];
    }

    /** The connection closes and its entries leave both tables (lines 93-94). */
    method Unregister(id: Id)
      requires Valid()
      modifies this`users, this`userOrder, this`pairs, this`pairOrder, this`open
      ensures Valid()
      ensures users == old(users) - {id} && userOrder == DeleteKey(old(userOrder), id)
      ensures pairs == old(pairs) - {id} && pairOrder == DeleteKey(old(pairOrder), id)
      ensures open == old(open) - {id}
    {
      UnregisterKeepsConsistent(users, userOrder, pairs, pairOrder, open, seen, id);
      open, users, userOrder, pairs, pairOrder := open - {id}, users - {id}, DeleteKey(userOrder, id), pairs - {id}, DeleteKey(pairOrder, id);
    }
  }
}
