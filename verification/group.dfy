/** `BasicConnectionGroup`: a set of connections sharing one message
    channel. Joining binds a connection's outgoing channel to the group's;
    leaving unbinds it. Connections and channels are identified by numbers.
    Besides the member set, the state records what the connections were
    told: the channel each one was last given (`None` for nil) and the
    `Close` calls made on them, in order. */
module Group {
  import opened Outcomes

  type Conn = nat
  type Chan = nat

  datatype Registry = Registry(
    members: set<Conn>,
    mc: Chan,
    sinks: map<Conn, Option<Chan>>,
    closed: seq<Conn>)

  function NewGroup(mc: Chan): (g: Registry)
    ensures g.members == {} && g.mc == mc && g.closed == []
  {
    Registry({}, mc, map[], [])
  }

  /** `AddConnection`: a member is refused and nothing changes; a newcomer
      is bound to the group channel and joins, and no other connection's
      channel changes. */
  function AddConnection(g: Registry, c: Conn): (r: (Registry, Option<Error>))
    ensures r.1.Some? <==> c in g.members
    ensures r.1.Some? ==> r.1 == Some(DuplicateMember) && r.0 == g
    ensures r.1.None? ==> var h := r.0;
      && h.members == g.members + {c} && c in h.sinks && h.sinks[c] == Some(g.mc)
      && (forall d :: d in g.sinks && d != c ==> d in h.sinks && h.sinks[d] == g.sinks[d])
      && h.mc == g.mc && h.closed == g.closed
  {
    if c in g.members then (g, Some(DuplicateMember))
    else (g.(members := g.members + {c}, sinks := g.sinks[c := Some(g.mc)]), None)
  }

  /** `RemoveConnection`: a stranger is refused and nothing changes; a
      member is unbound and leaves, and the others are untouched. */
  function RemoveConnection(g: Registry, c: Conn): (r: (Registry, Option<Error>))
    ensures r.1.Some? <==> c !in g.members
    ensures r.1.Some? ==> r.1 == Some(NotAMember) && r.0 == g
    ensures r.1.None? ==> var h := r.0;
      && h.members == g.members - {c} && c in h.sinks && h.sinks[c] == None
      && (forall d :: d in g.sinks && d != c ==> d in h.sinks && h.sinks[d] == g.sinks[d])
      && h.mc == g.mc && h.closed == g.closed
  {
    if c !in g.members then (g, Some(NotAMember))
    else (g.(members := g.members - {c}, sinks := g.sinks[c := None]), None)
  }

  /** `order` visits every member exactly once: the order in which a Go
      `range` over the member map happens to go. */
  predicate Enumerates(order: seq<Conn>, members: set<Conn>) {
    && (forall i, j :: 0 <= i < j < |order| ==> order[i] != order[j])
    && (forall c :: c in order ==> c in members)
    && (forall c :: c in members ==> c in order)
  }

  /** Sets the channel of each connection of `order` to nil. */
  function Unbind(sinks: map<Conn, Option<Chan>>, order: seq<Conn>): (r: map<Conn, Option<Chan>>)
    ensures forall c :: c in order ==> c in r && r[c] == None
    ensures forall c :: c in sinks && c !in order ==> c in r && r[c] == sinks[c]
    ensures forall c :: c in r ==> c in sinks || c in order
    decreases |order|
  {
    if |order| == 0 then sinks
    else Unbind(sinks[order[0] := None], order[1..])
  }

  /** `RemoveAllConnections`: the group empties; every former member is
      unbound, in `order`, and none is closed. */
  function RemoveAllConnections(g: Registry, order: seq<Conn>): (r: Registry)
    requires Enumerates(order, g.members)
    ensures r.members == {} && r.mc == g.mc && r.closed == g.closed
    ensures forall c :: c in g.members ==> c in r.sinks && r.sinks[c] == None
    ensures forall c :: c in g.sinks && c !in g.members ==> c in r.sinks && r.sinks[c] == g.sinks[c]
  {
    g.(members := {}, sinks := Unbind(g.sinks, order))
  }

  /** The close calls made on each connection of `order`, in order. */
  function CloseEach(closed: seq<Conn>, order: seq<Conn>): (r: seq<Conn>)
    decreases |order|
  {
    if |order| == 0 then closed
    else CloseEach(closed + [order[0]], order[1..])
  }

  /** `CloseAllConnections`: as `RemoveAllConnections`, and each former
      member is closed too; a failed close is only logged, so it does not
      change what happens to the rest. */
  function CloseAllConnections(g: Registry, order: seq<Conn>): (r: Registry)
    requires Enumerates(order, g.members)
    ensures r.members == {} && r.mc == g.mc
    ensures forall c :: c in g.members ==> c in r.sinks && r.sinks[c] == None
    ensures forall c :: c in g.sinks && c !in g.members ==> c in r.sinks && r.sinks[c] == g.sinks[c]
    ensures r.closed == g.closed + order
  {
    CloseEachAppends(g.closed, order);
    g.(members := {}, sinks := Unbind(g.sinks, order), closed := CloseEach(g.closed, order))
  }

  lemma {:induction false} CloseEachAppends(closed: seq<Conn>, order: seq<Conn>)
    ensures CloseEach(closed, order) == closed + order
    decreases |order|
  {
    if |order| > 0 {
      CloseEachAppends(closed + [order[0]], order[1..]);
      assert closed + [order[0]] + order[1..] == closed + order;
    }
  }

  /** Closing all closes every former member exactly once and nothing else. */
  lemma ClosedOnce(g: Registry, order: seq<Conn>)
    requires Enumerates(order, g.members)
    ensures var calls := CloseAllConnections(g, order).closed[|g.closed|..];
      && (forall c :: c in g.members ==> multiset(calls)[c] == 1)
      && (forall c :: c in calls ==> c in g.members)
  {
    var calls := CloseAllConnections(g, order).closed[|g.closed|..];
    assert calls == order;
    forall c | c in g.members
      ensures multiset(order)[c] == 1
    {
      DistinctCount(order, c);
    }
  }

  /** In a sequence without repeats, an element occurs once. */
  lemma {:induction false} DistinctCount(s: seq<Conn>, c: Conn)
    requires forall i, j :: 0 <= i < j < |s| ==> s[i] != s[j]
    requires c in s
    ensures multiset(s)[c] == 1
    decreases |s|
  {
    assert s == [s[0]] + s[1..];
    if s[0] == c {
      assert c !in s[1..];
    } else {
      DistinctCount(s[1..], c);
    }
  }

  /** A newcomer that joins and leaves again restores the member set; its
      channel ends up nil. */
  lemma AddThenRemove(g: Registry, c: Conn)
    requires c !in g.members
    ensures var (h, e1) := AddConnection(g, c);
      var (k, e2) := RemoveConnection(h, c);
      && e1.None? && e2.None? && k.members == g.members && k.sinks[c] == None
  {
  }
}
