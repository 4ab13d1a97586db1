/** The server's connections, and who owns each transaction at any time. */
module HttpServer {
  datatype Mode = Idle | Connecting | Receiving | Sending

  /**
   * A connection: what its engine is doing, whether it holds its transaction (current_ is not
   * NULL), whether it is inside the request-complete signal, and whether it is to be closed.
   */
  datatype Connection = Connection(mode: Mode, current: bool, signalling: bool, close: bool)

  /** Exactly one of the three owners has transaction t, which was made with connection t. */
  ghost predicate OneOwner(connections: map<nat, Connection>, held: set<nat>, destroyed: set<nat>, t: nat) {
    var byConnection := t in connections && connections[t].current;
    || (byConnection && t !in held && t !in destroyed)
    || (!byConnection && t in held && t !in destroyed)
    || (!byConnection && t !in held && t in destroyed)
  }

  /** A connection without its transaction is idle: the application has it. */
  ghost predicate Settled(connections: map<nat, Connection>, held: set<nat>) {
    forall id | id in connections ::
      var c := connections[id];
      && (c.current || (id in held && c.mode.Idle? && !c.signalling))
      && (c.signalling ==> c.mode.Idle?)
  }

  lemma StillSettled(connections: map<nat, Connection>, held: set<nat>, t: nat)
    requires Settled(connections, held) && t !in connections
    ensures Settled(connections, held - {t})
  {
  }

  /** Who is signalling is known, and is there unless the network closed it meanwhile. */
  ghost predicate SignalsKnown(connections: map<nat, Connection>, signals: set<nat>, interrupted: bool) {
    && (forall id | id in connections :: connections[id].signalling == (id in signals))
    && (!interrupted ==> signals <= connections.Keys)
  }

  predicate RequestInProgress(c: Connection) {
    c.mode.Sending? || !c.current
  }

  /** A connection that a close leaves in place. */
  predicate Stays(c: Connection, force: bool) {
    c.signalling || (!force && RequestInProgress(c))
  }

  function AfterClose(connections: map<nat, Connection>, id: nat, force: bool): map<nat, Connection>
    requires id in connections
  {
    var c := connections[id];
    if Stays(c, force) then connections[id := c.(close := true)] else connections - {id}
  }

  // --- closing all connections --------------------------------------------------------------------

  /** A close the application asks for: which connection, and whether by force. */
  type Ask = (nat, bool)

  /** What it asks for when it is told of a removal, one close after the other, those at further removals included. */
  type Plan = map<nat, seq<Ask>>

  function AsksAt(plan: Plan, id: nat): seq<Ask> {
    if id in plan then plan[id] else []
  }

  /** Close: a connection that is not there is ignored. */
  function AfterAsk(connections: map<nat, Connection>, ask: Ask): map<nat, Connection> {
    if ask.0 in connections then AfterClose(connections, ask.0, ask.1) else connections
  }

  function AfterAsks(connections: map<nat, Connection>, asks: seq<Ask>): map<nat, Connection> {
    if asks == [] then connections else AfterAsk(AfterAsks(connections, asks[..|asks| - 1]), asks[|asks| - 1])
  }

  /** The asks contain a close of this connection that does not leave it in place. */
  ghost predicate Removes(before: map<nat, Connection>, asks: seq<Ask>, id: nat)
    requires id in before
  {
    exists k :: 0 <= k < |asks| && asks[k].0 == id && !Stays(before[id], asks[k].1)
  }

  /** Some connections may be gone and some marked; nothing else changed. */
  ghost predicate SameButClosed(before: map<nat, Connection>, now: map<nat, Connection>) {
    forall id | id in now :: id in before && now[id] == before[id].(close := now[id].close) && (before[id].close ==> now[id].close)
  }

  lemma {:induction false} AsksRemove(before: map<nat, Connection>, connections: map<nat, Connection>, asks: seq<Ask>)
    requires SameButClosed(before, connections)
    ensures var now := AfterAsks(connections, asks);
            && SameButClosed(before, now) && SameButClosed(connections, now)
            && forall id | id in connections :: id in now <==> !Removes(before, asks, id)
    decreases |asks|
  {
    if asks != [] {
      var some, last := asks[..|asks| - 1], asks[|asks| - 1];
      AsksRemove(before, connections, some);
      forall id | id in connections
        ensures Removes(before, asks, id) <==> Removes(before, some, id) || (last.0 == id && !Stays(before[id], last.1))
      {
        OneMoreAsk(before, asks, id);
      }
      hide Removes;
    }
  }

  lemma OneMoreAsk(before: map<nat, Connection>, asks: seq<Ask>, id: nat)
    requires id in before && asks != []
    ensures var some, last := asks[..|asks| - 1], asks[|asks| - 1];
            Removes(before, asks, id) <==> Removes(before, some, id) || (last.0 == id && !Stays(before[id], last.1))
  {
    var some := asks[..|asks| - 1];
    if Removes(before, some, id) {
      var k :| 0 <= k < |some| && some[k].0 == id && !Stays(before[id], some[k].1);
      assert asks[k] == some[k];
    }
  }

  datatype Outcome = Outcome(connections: map<nat, Connection>, deleted: bool)

  /** One turn of CloseAll: a close, and what the application does when told of a removal. */
  function AfterTurn(connections: map<nat, Connection>, id: nat, force: bool, plan: Plan): map<nat, Connection>
    requires id in connections
  {
    var now := AfterClose(connections, id, force);
    if id in now then now else AfterAsks(now, AsksAt(plan, id))
  }

  /** The listed connections from `id` on, in ascending order; a listed one that is gone is a deleted one. */
  function CloseFrom(listed: set<nat>, connections: map<nat, Connection>, id: nat, n: nat, force: bool, plan: Plan): Outcome
    decreases n - id
  {
    if id >= n then Outcome(connections, false)
    else if id !in listed then CloseFrom(listed, connections, id + 1, n, force, plan)
    else if id !in connections then Outcome(connections, true)
    else CloseFrom(listed, AfterTurn(connections, id, force, plan), id + 1, n, force, plan)
  }

  /** Told of the removal of a, the application removes b. */
  ghost predicate Hits(before: map<nat, Connection>, force: bool, plan: Plan, a: nat, b: nat) {
    a in before && b in before && !Stays(before[a], force) && Removes(before, AsksAt(plan, a), b)
  }

  lemma TurnRemoves(before: map<nat, Connection>, connections: map<nat, Connection>, id: nat, force: bool, plan: Plan)
    requires SameButClosed(before, connections) && id in connections
    ensures var now := AfterTurn(connections, id, force, plan);
            && SameButClosed(before, now) && (id in now ==> now[id].close)
            && (forall b | b in now :: b in connections && (connections[b].close ==> now[b].close))
            && (id in now ==> Stays(before[id], force))
            && (Stays(before[id], force) ==> !exists b :: Hits(before, force, plan, id, b))
            && (forall b | b in connections && b != id :: b in now <==> !Hits(before, force, plan, id, b))
            && (Stays(before[id], force) ==> id in now)
  {
    hide Removes, AfterAsks;
    var closed := AfterClose(connections, id, force);
    AsksRemove(before, closed, AsksAt(plan, id));
  }

  /** A deleted connection is touched exactly when one is gone already, or one turn removes a later one. */
  lemma {:induction false} WhenDeleted(before: map<nat, Connection>, connections: map<nat, Connection>, id: nat, n: nat, force: bool, plan: Plan)
    requires SameButClosed(before, connections)
    ensures CloseFrom(before.Keys, connections, id, n, force, plan).deleted
            <==> (exists b :: id <= b < n && b in before && b !in connections)
                 || (exists a, b :: id <= a < b < n && Hits(before, force, plan, a, b))
    decreases n - id
  {
    hide Hits, AfterTurn, SameButClosed;
    if id < n {
      if id !in before {
        WhenDeleted(before, connections, id + 1, n, force, plan);
        NoHit(before, id, force, plan);
      } else if id in connections {
        var now := AfterTurn(connections, id, force, plan);
        TurnRemoves(before, connections, id, force, plan);
        WhenDeleted(before, now, id + 1, n, force, plan);
        HitsAreKnown(before, force, plan);
        TurnByTurn(before, connections, now, id, n, force, plan);
      }
    }
  }

  /** A later connection is gone after a turn if it was gone before, or if this turn removed it. */
  lemma TurnByTurn(before: map<nat, Connection>, connections: map<nat, Connection>, now: map<nat, Connection>,
                   id: nat, n: nat, force: bool, plan: Plan)
    requires id in connections && id < n && now.Keys <= connections.Keys
    requires forall b | b in connections && b != id :: b in now <==> !Hits(before, force, plan, id, b)
    requires forall a, b | Hits(before, force, plan, a, b) :: b in before
    ensures ((exists b :: id < b < n && b in before && b !in now) || exists a, b :: id < a < b < n && Hits(before, force, plan, a, b))
            <==> (exists b :: id <= b < n && b in before && b !in connections)
                 || (exists a, b :: id <= a < b < n && Hits(before, force, plan, a, b))
  {
    hide Hits;
    if b :| id < b < n && b in before && b !in now {
      assert b !in connections || Hits(before, force, plan, id, b);
    }
    if b :| id <= b < n && b in before && b !in connections {
      assert b != id && b !in now;
    }
    if a, b :| id <= a < b < n && Hits(before, force, plan, a, b) {
      assert a == id ==> b in before && b !in now;
    }
  }

  lemma NoHit(before: map<nat, Connection>, a: nat, force: bool, plan: Plan)
    requires a !in before
    ensures forall b :: !Hits(before, force, plan, a, b)
  {
  }

  lemma NextToClose(listed: set<nat>, connections: map<nat, Connection>, id: nat, n: nat, force: bool, plan: Plan)
    ensures id >= n ==> CloseFrom(listed, connections, id, n, force, plan) == Outcome(connections, false)
    ensures id < n && id !in listed ==>
              CloseFrom(listed, connections, id, n, force, plan) == CloseFrom(listed, connections, id + 1, n, force, plan)
    ensures id < n && id in listed && id !in connections ==>
              CloseFrom(listed, connections, id, n, force, plan) == Outcome(connections, true)
    ensures id < n && id in listed && id in connections ==>
              CloseFrom(listed, connections, id, n, force, plan)
              == CloseFrom(listed, AfterTurn(connections, id, force, plan), id + 1, n, force, plan)
  {
  }

  /** What is left when no deleted connection was touched: what a close leaves in place and no turn removed, all marked. */
  lemma {:induction false} WhatIsLeft(before: map<nat, Connection>, connections: map<nat, Connection>, id: nat, n: nat, force: bool, plan: Plan)
    requires SameButClosed(before, connections)
    requires !CloseFrom(before.Keys, connections, id, n, force, plan).deleted
    ensures var left := CloseFrom(before.Keys, connections, id, n, force, plan).connections;
            && SameButClosed(before, left) && left.Keys <= connections.Keys
            && (forall b | b in left && b in connections :: connections[b].close || id <= b < n ==> left[b].close)
            && (forall b | b in connections :: b in left <==>
                  (id <= b < n ==> Stays(before[b], force)) && !exists a :: id <= a < n && Hits(before, force, plan, a, b))
    decreases n - id
  {
    hide Hits, AfterTurn, SameButClosed;
    if id < n {
      if id !in before {
        WhatIsLeft(before, connections, id + 1, n, force, plan);
        NoHit(before, id, force, plan);
        Belongs(before, connections);
      } else if id in connections {
        var now := AfterTurn(connections, id, force, plan);
        TurnRemoves(before, connections, id, force, plan);
        WhatIsLeft(before, now, id + 1, n, force, plan);
      }
    }
  }

  /** The whole of CloseAll, for connections numbered below n. */
  lemma CloseAllMeans(before: map<nat, Connection>, n: nat, force: bool, plan: Plan)
    requires forall id | id in before :: id < n
    ensures var all := CloseFrom(before.Keys, before, 0, n, force, plan);
            && (all.deleted <==> exists a, b :: a < b && Hits(before, force, plan, a, b))
            && (!all.deleted ==> forall id :: id in all.connections <==>
                  id in before && Stays(before[id], force) && !exists a :: Hits(before, force, plan, a, id))
            && (!all.deleted ==> forall id | id in all.connections :: all.connections[id] == before[id].(close := true))
  {
    hide CloseFrom;
    WhenDeleted(before, before, 0, n, force, plan);
    HitsAreKnown(before, force, plan);
    if !CloseFrom(before.Keys, before, 0, n, force, plan).deleted {
      WhatIsLeft(before, before, 0, n, force, plan);
    }
    hide Hits;
  }

  lemma HitsAreKnown(before: map<nat, Connection>, force: bool, plan: Plan)
    ensures forall a, b | Hits(before, force, plan, a, b) :: a in before && b in before
  {
  }

  lemma NothingToClose(n: nat, force: bool, plan: Plan)
    ensures forall a, b :: !Hits(map[], force, plan, a, b)
  {
  }

  lemma Belongs(before: map<nat, Connection>, connections: map<nat, Connection>)
    requires SameButClosed(before, connections)
    ensures connections.Keys <= before.Keys
  {
  }

  class Server {
    var connections: map<nat, Connection>
    var nextId: nat
    var closing: bool
    /** Transactions the application was given and has not returned. */
    var held: set<nat>
    ghost var destroyed: set<nat>
    /** Removals whose SignalConnectionClosed has not returned yet. */
    var unwinding: nat
    /** Connections whose request-complete signal has not returned. */
    var signals: set<nat>
    /** The network closed a connection during that signal. */
    ghost var interrupted: bool
    /** How often CloseAll was called, and SignalCloseAllComplete fired. */
    ghost var closeAlls: nat
    ghost var completions: nat

    ghost predicate Valid()
      reads this
    {
      && 1 <= nextId && (forall id | id in connections :: 1 <= id < nextId)
      && (forall t | t in held || t in destroyed :: 1 <= t < nextId)
      && (forall t | 1 <= t < nextId :: OneOwner(connections, held, destroyed, t))
      && Settled(connections, held)
      && SignalsKnown(connections, signals, interrupted)
      && (forall id | id in signals :: 1 <= id < nextId)
      && completions + (if closing then 1 else 0) <= closeAlls
      && (closing ==> connections != map[] || unwinding > 0)
    }

    constructor ()
      ensures Valid() && connections == map[] && held == {} && closeAlls == completions == 0
      ensures !closing && unwinding == 0 && signals == {} && !interrupted
    {
      connections, nextId, closing, held, destroyed, unwinding := map[], 1, false, {}, {}, 0;
      signals, interrupted, closeAlls, completions := {}, false, 0, 0;
    }

    /** Changes a connection without moving its transaction. */
    method Update(id: nat, c: Connection)
      requires Valid() && id in connections
      requires c.current == connections[id].current
      requires c.current || (c.mode.Idle? && !c.signalling)
      requires c.signalling == connections[id].signalling && (c.signalling ==> c.mode.Idle?)
      modifies this`connections
      ensures Valid() && connections == old(connections)[id := c]
    {
      connections := connections[id := c];
      assert forall t | 1 <= t < nextId && OneOwner(old(connections), held, destroyed, t) :: OneOwner(connections, held, destroyed, t);
    }

    /** Starts receiving, always into the connection's own transaction; a dead stream removes the connection. */
    method Recv(id: nat, connected: bool)
      requires Valid() && id in connections
      requires connections[id].mode.Idle? && !connections[id].signalling && connections[id].current
      modifies this`connections, this`destroyed, this`unwinding
      ensures Valid()
      ensures connected ==> connections == old(connections)[id := old(connections)[id].(mode := Receiving)]
      ensures !connected ==> connections == old(connections) - {id}
    {
      if connected {
        Update(id, connections[id].(mode := Receiving));
      } else {
        Remove(id);
      }
    }

    /** HandleConnection: a new connection with a new transaction, receiving once its stream is open. */
    method HandleConnection(opening: bool, connected: bool) returns (id: nat)
      requires Valid()
      modifies this`connections, this`destroyed, this`unwinding, this`nextId
      ensures Valid()
      ensures id == old(nextId) && id !in old(connections)
      ensures opening || connected ==>
                connections == old(connections)[id := Connection(if opening then Connecting else Receiving, true, false, false)]
      ensures !opening && !connected ==> connections == old(connections)
    {
      id := nextId;
      nextId := nextId + 1;
      connections := connections[id := Connection(if opening then Connecting else Idle, true, false, false)];
      assert forall t | 1 <= t < old(nextId) && OneOwner(old(connections), held, destroyed, t) :: OneOwner(connections, held, destroyed, t);
      if !opening {
        Recv(id, connected);
      }
      assert old(connections)[id := Connection(Idle, true, false, false)] - {id} == old(connections);
    }

    /** Remove: the connection goes, and the transaction with it if the connection has it. */
    method Remove(id: nat)
      requires Valid() && id in connections && (connections[id].signalling ==> interrupted)
      modifies this`connections, this`destroyed, this`unwinding
      ensures Valid() && connections == old(connections) - {id} && held == old(held)
      ensures unwinding == old(unwinding) + 1
      ensures destroyed == old(destroyed) + if old(connections)[id].current then {id} else {}
    {
      if connections[id].current {
        destroyed := destroyed + {id};
      }
      connections := connections - {id};
      unwinding := unwinding + 1;
      assert forall t | 1 <= t < nextId && OneOwner(old(connections), held, old(destroyed), t) :: OneOwner(connections, held, destroyed, t);
    }

    /** The rest of Remove, after SignalConnectionClosed: the last connection out completes a CloseAll. */
    method Unwind()
      requires Valid() && unwinding > 0
      modifies this`unwinding, this`closing, this`completions
      ensures Valid() && unwinding == old(unwinding) - 1
      ensures completions == old(completions) + if old(closing) && connections == map[] then 1 else 0
      ensures completions > old(completions) ==> connections == map[] && !closing
    {
      unwinding := unwinding - 1;
      if closing && connections == map[] {
        closing := false;
        completions := completions + 1;
      }
    }

    /** Respond: the application returns a transaction it holds. The connection does not have one already. */
    method Respond(t: nat, keepAlive: bool, connected: bool)
      requires Valid() && t in held
      modifies this`connections, this`destroyed, this`unwinding, this`held
      ensures Valid() && held == old(held) - {t}
      ensures t in old(connections) ==> !old(connections)[t].current && old(connections)[t].mode.Idle?
      ensures t in old(connections) && connected ==>
                connections == old(connections)[t := Connection(Sending, true, false, !keepAlive)]
      ensures t !in old(connections) || !connected ==> connections == old(connections) - {t} && t in destroyed
    {
      hide OneOwner, Settled, SignalsKnown;
      if t !in connections {
        Discard(t);
        assert connections - {t} == connections;
        return;
      }
      TakeBack(t, keepAlive);
      assert connections - {t} == old(connections) - {t};
      if !connected {
        Remove(t);
      }
    }

    /** A returned transaction whose connection is gone. */
    method Discard(t: nat)
      requires Valid() && t in held && t !in connections
      modifies this`held, this`destroyed
      ensures Valid() && held == old(held) - {t} && t in destroyed
    {
      hide Settled, SignalsKnown;
      held := held - {t};
      destroyed := destroyed + {t};
      assert forall u | 1 <= u < nextId && OneOwner(connections, old(held), old(destroyed), u) :: OneOwner(connections, held, destroyed, u);
      StillSettled(connections, old(held), t);
    }

    /** A transaction goes back to its connection, which has none, to be sent. */
    method TakeBack(t: nat, keepAlive: bool)
      requires Valid() && t in held && t in connections
      modifies this`held, this`connections
      ensures Valid() && held == old(held) - {t}
      ensures !old(connections)[t].current && old(connections)[t].mode.Idle? && !old(connections)[t].signalling
      ensures connections == old(connections)[t := Connection(Sending, true, false, !keepAlive)]
    {
      assert OneOwner(connections, held, destroyed, t);
      var c := connections[t];
      held := held - {t};
      connections := connections[t := Connection(Sending, true, c.signalling, !keepAlive)];
      assert forall u | 1 <= u < nextId && OneOwner(old(connections), old(held), destroyed, u) :: OneOwner(connections, held, destroyed, u);
    }

    /** The engine finished connecting: receive, or give up. */
    method OnConnectComplete(id: nat, failed: bool, connected: bool)
      requires Valid() && id in connections && connections[id].mode.Connecting?
      modifies this`connections, this`destroyed, this`unwinding
      ensures Valid()
      ensures failed || !connected ==> connections == old(connections) - {id}
      ensures !failed && connected ==> connections == old(connections)[id := old(connections)[id].(mode := Receiving)]
    {
      hide OneOwner, Settled, SignalsKnown;
      NotSignalling(id);
      Update(id, connections[id].(mode := Idle));
      if failed {
        Drop(id, old(connections));
      } else {
        assert connections - {id} == old(connections) - {id};
        Recv(id, connected);
      }
    }

    method Drop(id: nat, ghost before: map<nat, Connection>)
      requires Valid() && id in connections && !connections[id].signalling && connections - {id} == before - {id}
      modifies this`connections, this`destroyed, this`unwinding
      ensures Valid() && connections == before - {id}
    {
      Remove(id);
    }

    /** A request arrived: its transaction passes to the application. */
    method OnRecvComplete(id: nat, failed: bool)
      requires Valid() && id in connections && connections[id].mode.Receiving?
      modifies this`connections, this`destroyed, this`unwinding, this`held
      ensures Valid()
      ensures failed ==> connections == old(connections) - {id} && held == old(held)
      ensures !failed ==> held == old(held) + {id} && id !in old(held)
                          && connections == old(connections)[id := old(connections)[id].(mode := Idle, current := false)]
    {
      hide OneOwner, Settled, SignalsKnown;
      NotSignalling(id);
      Update(id, connections[id].(mode := Idle));
      if failed {
        Drop(id, old(connections));
        return;
      }
      HandOver(id);
    }

    /** An engine that is busy holds its transaction and is not inside the signal. */
    lemma NotSignalling(id: nat)
      requires Valid() && id in connections && !connections[id].mode.Idle?
      ensures connections[id].current && !connections[id].signalling
    {
    }

    /** The transaction leaves an idle connection for the application. */
    method HandOver(id: nat)
      requires Valid() && id in connections
      requires connections[id].current && connections[id].mode.Idle? && !connections[id].signalling
      modifies this`connections, this`held
      ensures Valid() && held == old(held) + {id} && id !in old(held)
      ensures connections == old(connections)[id := old(connections)[id].(current := false)]
    {
      assert OneOwner(connections, held, destroyed, id);
      connections := connections[id := connections[id].(current := false)];
      held := held + {id};
      assert forall t | 1 <= t < nextId && OneOwner(old(connections), old(held), destroyed, t) :: OneOwner(connections, held, destroyed, t);
    }

    /** A response was sent: the application is told while the connection still has the transaction. */
    method OnSendComplete(id: nat)
      requires Valid() && id in connections && connections[id].mode.Sending?
      modifies this`connections, this`signals
      ensures Valid() && signals == old(signals) + {id}
      ensures connections == old(connections)[id := old(connections)[id].(mode := Idle, signalling := true)]
    {
      Mark(id, true);
    }

    /** Enters or leaves the signal. */
    method Mark(id: nat, signalling: bool)
      requires Valid() && id in connections && connections[id].current && (signalling || connections[id].mode.Idle?)
      modifies this`connections, this`signals
      ensures Valid() && signals == if signalling then old(signals) + {id} else old(signals) - {id}
      ensures connections == old(connections)[id := old(connections)[id].(mode := Idle, signalling := signalling)]
    {
      connections := connections[id := connections[id].(mode := Idle, signalling := signalling)];
      signals := if signalling then signals + {id} else signals - {id};
      assert forall t | 1 <= t < nextId && OneOwner(old(connections), held, destroyed, t) :: OneOwner(connections, held, destroyed, t);
    }

    /**
     * That signal returned: the connection is removed if it failed or is to close, and otherwise
     * receives again. The source goes on with a deleted connection exactly when it is not there any
     * more, which takes a close by the network: no close by the application deletes it.
     */
    method SendSignalled(id: nat, failed: bool, connected: bool) returns (deleted: bool)
      requires Valid() && id in signals
      modifies this`connections, this`destroyed, this`unwinding, this`signals
      ensures Valid()
      ensures deleted == (id !in old(connections)) && (deleted ==> interrupted)
      ensures !deleted && (failed || old(connections)[id].close || !connected) ==> connections == old(connections) - {id}
      ensures !deleted && !failed && !old(connections)[id].close && connected ==>
                connections == old(connections)[id := old(connections)[id].(mode := Receiving, signalling := false)]
    {
      hide OneOwner;
      if id !in connections {
        signals := signals - {id};
        return true;
      }
      var c := connections[id];
      SignallingIsIdle(id);
      Mark(id, false);
      if failed || c.close {
        Drop(id, old(connections));
      } else {
        Recv(id, connected);
      }
      return false;
    }

    lemma SignallingIsIdle(id: nat)
      requires Valid() && id in connections && id in signals
      ensures connections[id].current && connections[id].mode.Idle?
    {
    }

    /** The stream closed while the engine was idle. */
    method OnHttpClosed(id: nat)
      requires Valid() && id in connections && connections[id].mode.Idle?
      modifies this`connections, this`destroyed, this`unwinding, this`interrupted
      ensures Valid() && connections == old(connections) - {id} && held == old(held)
      ensures interrupted == (old(interrupted) || id in old(signals))
    {
      interrupted := interrupted || id in signals;
      Remove(id);
    }

    /** InitiateClose: now, unless a request is in progress (and not forced) or the connection is signalling. */
    method InitiateClose(id: nat, force: bool)
      requires Valid() && id in connections
      modifies this`connections, this`destroyed, this`unwinding
      ensures Valid()
      ensures connections == AfterClose(old(connections), id, force)
      ensures var c := old(connections)[id];
              var now := !c.signalling && (force || (c.current && !c.mode.Sending?));
              connections == if now then old(connections) - {id} else old(connections)[id := c.(close := true)]
    {
      var c := connections[id];
      if !c.signalling && (force || !RequestInProgress(c)) {
        Remove(id);
      } else {
        Update(id, c.(close := true));
      }
    }

    /** Inside SignalConnectionClosed the application closes whatever it likes. */
    method ApplicationCloses(asks: seq<Ask>)
      requires Valid()
      modifies this`connections, this`destroyed, this`unwinding
      ensures Valid() && connections == AfterAsks(old(connections), asks)
    {
      hide OneOwner, Settled, SignalsKnown, AfterClose;
      for i := 0 to |asks|
        invariant Valid() && connections == AfterAsks(old(connections), asks[..i])
      {
        if asks[i].0 in connections {
          InitiateClose(asks[i].0, asks[i].1);
        }
        assert asks[..i + 1][..i] == asks[..i];
      }
      assert asks[..|asks|] == asks;
    }

    /** InitiateClose, with what the application does when told of the removal. */
    method CloseOne(id: nat, force: bool, plan: Plan)
      requires Valid() && id in connections
      modifies this`connections, this`destroyed, this`unwinding
      ensures Valid() && connections == AfterTurn(old(connections), id, force, plan)
    {
      hide OneOwner, Settled, SignalsKnown, AfterClose, AfterAsks;
      InitiateClose(id, force);
      if id !in connections {
        ApplicationCloses(AsksAt(plan, id));
      }
    }

    /**
     * CloseAll: starts closing every connection there is. SignalCloseAllComplete fires at once
     * when there are none; otherwise it is left to the last removal. The source goes through a list
     * made beforehand, in ascending order: it touches a deleted connection exactly when the
     * application, told of the removal of one, removes a later one.
     */
    method CloseAll(force: bool, plan: Plan) returns (deleted: bool)
      requires Valid()
      modifies this`connections, this`destroyed, this`unwinding, this`closing, this`closeAlls, this`completions
      ensures Valid() && closeAlls == old(closeAlls) + 1
      ensures completions == old(completions) + if old(connections) == map[] then 1 else 0
      ensures old(connections) != map[] ==> closing
      ensures deleted <==> exists a, b :: a < b && Hits(old(connections), force, plan, a, b)
      ensures !deleted ==> forall id :: id in connections <==>
                id in old(connections) && Stays(old(connections)[id], force) && !exists a :: Hits(old(connections), force, plan, a, id)
      ensures !deleted ==> forall id | id in connections :: connections[id] == old(connections)[id].(close := true)
    {
      hide OneOwner, Settled, SignalsKnown, AfterTurn, Hits, CloseFrom;
      closeAlls := closeAlls + 1;
      CloseAllMeans(connections, nextId, force, plan);
      if connections == map[] {
        completions := completions + 1;
        NothingToClose(nextId, force, plan);
        return false;
      }
      closing := true;
      var listed := connections.Keys;
      ghost var all := CloseFrom(listed, connections, 0, nextId, force, plan);
      for id := 0 to nextId
        invariant Valid() && closing && closeAlls == old(closeAlls) + 1 && completions == old(completions)
        invariant CloseFrom(listed, connections, id, nextId, force, plan) == all
      {
        NextToClose(listed, connections, id, nextId, force, plan);
        if id in listed {
          if id !in connections {
            return true;
          }
          CloseOne(id, force, plan);
        }
      }
      NextToClose(listed, connections, nextId, nextId, force, plan);
      return false;
    }

    /**
     * A graceful close asked for while the application has the request. Respond overwrites the
     * close flag, so once the response is sent the connection closes exactly when that response
     * was not keep-alive.
     */
    method CloseWhileHeld(t: nat, keepAlive: bool)
      requires Valid() && t in held && t in connections
      modifies this
      ensures Valid()
      ensures t in connections <==> keepAlive
    {
      assert OneOwner(connections, held, destroyed, t);
      InitiateClose(t, false);
      Respond(t, keepAlive, true);
      OnSendComplete(t);
      var deleted := SendSignalled(t, false, true);
    }

    /**
     * Any sequence of events, with the application returning only transactions it holds. CloseAll
     * completions never outnumber the calls among the events, and a connection disappears during its
     * signal only if one of the events is a close by the network.
     */
    method Run(events: seq<Event>)
      requires Valid()
      modifies this
      ensures Valid() && closeAlls == old(closeAlls) + CloseAllCalls(events)
      ensures interrupted && !old(interrupted) ==> exists i :: 0 <= i < |events| && events[i].Closed?
    {
      hide OneOwner, Settled, SignalsKnown;
      for i := 0 to |events|
        invariant Valid() && closeAlls == old(closeAlls) + CloseAllCalls(events[..i])
        invariant interrupted && !old(interrupted) ==> exists k :: 0 <= k < i && events[k].Closed?
      {
        Handle(events[i]);
        assert events[..i + 1][..i] == events[..i];
      }
      assert events[..|events|] == events;
    }

    method Handle(e: Event)
      requires Valid()
      modifies this
      ensures Valid() && closeAlls == old(closeAlls) + if e.AskCloseAll? then 1 else 0
      ensures interrupted == (old(interrupted) || (e.Closed? && e.id in old(signals) && e.id in old(connections)))
      ensures e.RemovalReturned? && old(unwinding) > 0 ==> unwinding == old(unwinding) - 1
      ensures e.AskClose? ==> connections == AfterAsk(old(connections), (e.id, e.force))
      ensures e.Returned? ==> held == old(held) - {e.t}
    {
      hide OneOwner, Settled, SignalsKnown;
      match e {
        case NewConnection(opening, connected) =>
          var id := HandleConnection(opening, connected);
        case Connected(id, failed, connected) =>
          if id in connections && connections[id].mode.Connecting? {
            OnConnectComplete(id, failed, connected);
          }
        case Received(id, failed) =>
          if id in connections && connections[id].mode.Receiving? {
            OnRecvComplete(id, failed);
          }
        case Sent(id) =>
          if id in connections && connections[id].mode.Sending? {
            OnSendComplete(id);
          }
        case Signalled(id, failed, connected) =>
          if id in signals {
            var deleted := SendSignalled(id, failed, connected);
          }
        case Closed(id) =>
          if id in connections && id in signals {
            SignallingIsIdle(id);
          }
          if id in connections && connections[id].mode.Idle? {
            OnHttpClosed(id);
          }
        case Returned(t, keepAlive, connected) =>
          if t in held {
            Respond(t, keepAlive, connected);
          }
        case AskClose(id, force) =>
          if id in connections {
            InitiateClose(id, force);
          }
        case AskCloseAll(force, plan) =>
          var deleted := CloseAll(force, plan);
        case RemovalReturned =>
          if unwinding > 0 {
            Unwind();
          }
      }
    }
  }

  datatype Event =
    | NewConnection(opening: bool, connected: bool)
    | Connected(id: nat, failed: bool, connected: bool)
    | Received(id: nat, failed: bool)
    | Sent(id: nat)
    | Signalled(id: nat, failed: bool, connected: bool)
    | Closed(id: nat)
    | Returned(t: nat, keepAlive: bool, connected: bool)
    | AskClose(id: nat, force: bool)
    | AskCloseAll(force: bool, plan: Plan)
    | RemovalReturned

  function CloseAllCalls(events: seq<Event>): nat {
    if events == [] then 0
    else CloseAllCalls(events[..|events| - 1]) + if events[|events| - 1].AskCloseAll? then 1 else 0
  }
}
