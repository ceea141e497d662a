/**
 * The attention register (`cyclops-proto` attention): what needs a human now.
 *
 * The specification is a value, `Register`, holding the pane roster and the
 * two delivery halves; the union of the halves is computed from it. The class
 * keeps that union as a cached field and updates it in place.
 */
module Attention {
  import opened Wrappers
  import opened Identity
  import opened AgentStates
  import opened Orders

  datatype DeliveryState =
    | Queued | Gating | Pasting | Staged | Submitted | DeliveredVerified | DeliveredUnverified
    | RetryQueued | AttentionRequired | ParkedBlockedQuota

  predicate NeedsHuman(s: DeliveryState) {
    s.AttentionRequired? || s.ParkedBlockedQuota?
  }

  // Who a delivery row is for: the durable key, or a bare label from before
  // durable identity.
  datatype RecipientIdentity = Exact(key: RecipientKey) | LegacyLabel(name: string)

  datatype Key = Key(who: RecipientIdentity, id: string)

  datatype Row = Row(to: string, state: DeliveryState)

  type Rows = map<Key, Row>

  datatype OpenDelivery = OpenDelivery(id: string, to: string, recipient: Option<RecipientKey>, state: DeliveryState)

  datatype Pane = Pane(name: string, state: AgentState)

  datatype PaneSnapshot = PaneSnapshot(paneId: string, name: string, state: AgentState)

  datatype AttentionKey = AgentKey(paneId: string) | DeliveryKey(key: Key)

  datatype Item =
    | AgentItem(paneId: string, name: string, state: AgentState)
    | DeliveryItem(key: Key, to: string, delivery: DeliveryState)

  datatype Clearance = Moved | PaneGone

  datatype Resolved = Resolved(was: Item, how: Clearance)

  function ItemIdentity(item: Item): AttentionKey {
    match item
    case AgentItem(paneId, _, _) => AgentKey(paneId)
    case DeliveryItem(key, _, _) => DeliveryKey(key)
  }

  datatype Register = Register(agents: map<string, Pane>, deliveries: Rows, mailbox: Rows)

  // ---------------------------------------------------------------------
  // Key order
  // ---------------------------------------------------------------------

  predicate WhoLess(a: RecipientIdentity, b: RecipientIdentity) {
    match (a, b)
    case (Exact(k), Exact(l)) => RecipientLess(k, l)
    case (LegacyLabel(m), LegacyLabel(n)) => StringLess(m, n)
    case (Exact(_), LegacyLabel(_)) => true
    case (LegacyLabel(_), Exact(_)) => false
  }

  // The order in which the maps of the register hold their rows.
  predicate KeyLess(a: Key, b: Key) {
    if a.who != b.who then WhoLess(a.who, b.who) else StringLess(a.id, b.id)
  }

  lemma WhoTotal(a: RecipientIdentity, b: RecipientIdentity)
    ensures WhoLess(a, b) || a == b || WhoLess(b, a)
    ensures !(WhoLess(a, b) && WhoLess(b, a)) && (a == b ==> !WhoLess(a, b))
  {
    if a.Exact? && b.Exact? { RecipientTotal(a.key, b.key); }
    if a.LegacyLabel? && b.LegacyLabel? { StringTotal(a.name, b.name); }
  }

  lemma WhoTransitive(a: RecipientIdentity, b: RecipientIdentity, c: RecipientIdentity)
    requires WhoLess(a, b) && WhoLess(b, c)
    ensures WhoLess(a, c)
  {
    if a.Exact? && b.Exact? && c.Exact? { RecipientTransitive(a.key, b.key, c.key); }
    if a.LegacyLabel? && b.LegacyLabel? && c.LegacyLabel? { StringTransitive(a.name, b.name, c.name); }
  }

  lemma KeyTotal(a: Key, b: Key)
    ensures KeyLess(a, b) || a == b || KeyLess(b, a)
    ensures !(KeyLess(a, b) && KeyLess(b, a)) && (a == b ==> !KeyLess(a, b))
  {
    WhoTotal(a.who, b.who);
    StringTotal(a.id, b.id);
  }

  lemma KeyTransitive(a: Key, b: Key, c: Key)
    requires KeyLess(a, b) && KeyLess(b, c)
    ensures KeyLess(a, c)
  {
    if a.who == b.who == c.who {
      StringTransitive(a.id, b.id, c.id);
    } else if a.who != b.who && b.who != c.who {
      WhoTransitive(a.who, b.who, c.who);
      WhoTotal(a.who, b.who);
    }
  }

  predicate Least(keys: set<Key>, k: Key) {
    k in keys && forall j :: j in keys && j != k ==> KeyLess(k, j)
  }

  lemma {:induction false} LeastExists(keys: set<Key>)
    requires keys != {}
    ensures exists k :: Least(keys, k)
    decreases keys
  {
    var k :| k in keys;
    if keys == {k} {
      assert Least(keys, k);
    } else {
      var rest := keys - {k};
      LeastExists(rest);
      var l :| Least(rest, l);
      KeyTotal(k, l);
      if KeyLess(k, l) {
        forall j | j in keys && j != k
          ensures KeyLess(k, j)
        {
          if j != l { KeyTransitive(k, l, j); }
        }
        assert Least(keys, k);
      } else {
        assert Least(keys, l);
      }
    }
  }

  lemma LeastUnique(keys: set<Key>, k: Key, l: Key)
    requires Least(keys, k) && Least(keys, l)
    ensures k == l
  {
    KeyTotal(k, l);
  }

  ghost predicate Ascending(order: seq<Key>) {
    forall i, j :: 0 <= i < j < |order| ==> KeyLess(order[i], order[j])
  }

  // The keys as a map iterates over them.
  function SortedKeys(keys: set<Key>): (order: seq<Key>)
    ensures Ascending(order)
    ensures forall k :: k in order <==> k in keys
  {
    if keys == {} then []
    else
      LeastExists(keys);
      assert forall k, l :: Least(keys, k) && Least(keys, l) ==> k == l by {
        forall k, l | Least(keys, k) && Least(keys, l)
          ensures k == l
        {
          LeastUnique(keys, k, l);
        }
      }
      var k :| Least(keys, k);
      [k] + SortedKeys(keys - {k})
  }

  // ---------------------------------------------------------------------
  // The union
  // ---------------------------------------------------------------------

  // The mailbox half overrides a legacy row with the same key.
  function Merged(deliveries: Rows, mailbox: Rows): Rows {
    deliveries + mailbox
  }

  // The exact rows that carry a label for a message.
  function Carriers(rows: Rows, name: string, id: string): set<Key> {
    set k | k in rows && k.who.Exact? && k.id == id && rows[k].to == name
  }

  // A legacy-label row is hidden exactly when one exact row carries its label
  // and message: the two are the same delivery.
  predicate Hidden(rows: Rows, k: Key) {
    k.who.LegacyLabel? && |Carriers(rows, k.who.name, k.id)| == 1
  }

  function Union(deliveries: Rows, mailbox: Rows): Rows {
    var merged := Merged(deliveries, mailbox);
    map k | k in merged && !Hidden(merged, k) :: merged[k]
  }

  // ---------------------------------------------------------------------
  // Queries
  // ---------------------------------------------------------------------

  // The key a reference stands under: an exact recipient is its own key, a
  // label reaches an exact row only when exactly one carries it.
  function Resolve(union: Rows, recipient: Option<RecipientKey>, to: string, id: string): Key {
    match recipient
    case Some(key) => Key(Exact(key), id)
    case None =>
      var carriers := Carriers(union, to, id);
      if |carriers| == 1 then TheOne(carriers) else Key(LegacyLabel(to), id)
  }

  function TheOne(s: set<Key>): (k: Key)
    requires |s| == 1
    ensures s == {k}
  {
    SingletonHasOne(s);
    var k :| k in s;
    k
  }

  lemma SingletonHasOne(s: set<Key>)
    requires |s| == 1
    ensures exists k :: k in s
    ensures forall k :: k in s ==> s == {k}
  {
    forall k | k in s
      ensures s == {k}
    {
      assert |s - {k}| == 0;
      assert s == s - {k} + {k};
    }
    assert s != {};
  }

  predicate Holds(agents: map<string, Pane>, union: Rows, key: AttentionKey) {
    match key
    case AgentKey(paneId) => paneId in agents && IsBlocked(agents[paneId].state)
    case DeliveryKey(k) => k in union
  }

  // Why a key no longer needs a human, if it does not.
  function ClearanceOf(agents: map<string, Pane>, union: Rows, key: AttentionKey): (c: Option<Clearance>)
    ensures c.None? <==> Holds(agents, union, key)
    ensures c == Some(PaneGone) <==> key.AgentKey? && key.paneId !in agents
  {
    match key
    case AgentKey(paneId) =>
      if paneId !in agents then Some(PaneGone)
      else if IsBlocked(agents[paneId].state) then None else Some(Moved)
    case DeliveryKey(k) => if k in union then None else Some(Moved)
  }

  // ---------------------------------------------------------------------
  // The calls, on values
  // ---------------------------------------------------------------------

  function KeyOf(d: OpenDelivery): Key {
    Key(if d.recipient.Some? then Exact(d.recipient.value) else LegacyLabel(d.to), d.id)
  }

  // A backlog answer as rows: only what needs a human, the last row for a key.
  function Keyed(open: seq<OpenDelivery>): (rows: Rows)
    ensures forall k :: k in rows <==>
      exists i :: 0 <= i < |open| && NeedsHuman(open[i].state) && KeyOf(open[i]) == k
    ensures WellKept(rows)
  {
    if open == [] then map[]
    else
      var before, d := Keyed(open[..|open| - 1]), open[|open| - 1];
      if NeedsHuman(d.state) then before[KeyOf(d) := Row(d.to, d.state)] else before
  }

  // A key shows the last row given for it that needs a human; a row with a
  // recipient is kept under it, and one without under its label.
  lemma {:induction false} KeyedLast(open: seq<OpenDelivery>, i: nat)
    requires i < |open| && open[i].state in {AttentionRequired, ParkedBlockedQuota}
    requires forall j :: i < j < |open| && NeedsHuman(open[j].state) ==> KeyOf(open[j]) != KeyOf(open[i])
    ensures var d := open[i];
      var key := Key(match d.recipient case Some(r) => Exact(r) case None => LegacyLabel(d.to), d.id);
      key in Keyed(open) && Keyed(open)[key] == Row(d.to, d.state)
    decreases |open|
  {
    if i < |open| - 1 {
      var front := open[..|open| - 1];
      assert forall j :: 0 <= j < |front| ==> front[j] == open[j];
      KeyedLast(front, i);
    }
  }

  // The register holds what needs a human and nothing else, and a legacy row
  // shows the label it is keyed under.
  ghost predicate WellKept(rows: Rows) {
    forall k :: k in rows ==> NeedsHuman(rows[k].state) && (k.who.LegacyLabel? ==> rows[k].to == k.who.name)
  }

  // A roster answer: the panes it names and no others, each as last named.
  function Roster(panes: seq<PaneSnapshot>): (agents: map<string, Pane>)
    ensures forall p :: p in agents <==> exists i :: 0 <= i < |panes| && panes[i].paneId == p
  {
    if panes == [] then map[]
    else
      var p := panes[|panes| - 1];
      Roster(panes[..|panes| - 1])[p.paneId := Pane(p.name, p.state)]
  }

  lemma {:induction false} RosterLast(panes: seq<PaneSnapshot>, i: nat)
    requires i < |panes| && forall j :: i < j < |panes| ==> panes[j].paneId != panes[i].paneId
    ensures panes[i].paneId in Roster(panes) && Roster(panes)[panes[i].paneId] == Pane(panes[i].name, panes[i].state)
    decreases |panes|
  {
    if i < |panes| - 1 {
      var front := panes[..|panes| - 1];
      assert forall j :: 0 <= j < |front| ==> front[j] == panes[j];
      RosterLast(front, i);
    }
  }

  // Some row other than `k`'s recipient carries the label for `k`'s message.
  predicate OtherCarrier(rows: Rows, k: Key, name: string) {
    exists j :: j in rows && j.who.Exact? && j.who != k.who && j.id == k.id && rows[j].to == name
  }

  function Twin(mailbox: Rows, k: Key): Key
    requires k in mailbox
  {
    Key(LegacyLabel(mailbox[k].to), k.id)
  }

  // The legacy half after a mailbox snapshot, walking the previous mailbox
  // half in `order`: an omitted key goes, and its legacy twin with it unless
  // another exact row carries the label at that moment.
  function EndOmitted(deliveries: Rows, mailbox: Rows, next: Rows, order: seq<Key>): (rows: Rows)
    requires forall i :: 0 <= i < |order| ==> order[i] in mailbox
  {
    if order == [] then deliveries
    else
      var k := order[|order| - 1];
      var before := EndOmitted(deliveries, mailbox, next, order[..|order| - 1]);
      if k in next then before else EndOne(before, mailbox, k)
  }

  function EndOne(deliveries: Rows, mailbox: Rows, k: Key): (rows: Rows)
    requires k in mailbox
  {
    var rest := deliveries - {k};
    if k.who.Exact? && !OtherCarrier(mailbox, k, mailbox[k].to) && !OtherCarrier(rest, k, mailbox[k].to)
    then rest - {Twin(mailbox, k)}
    else rest
  }

  // The legacy half after a mailbox snapshot: the walk is in key order.
  function Ended(deliveries: Rows, mailbox: Rows, next: Rows): Rows {
    EndOmitted(deliveries, mailbox, next, SortedKeys(mailbox.Keys))
  }

  // A live delivery edge moves the legacy half only.
  function ObserveRows(r: Register, to: string, recipient: Option<RecipientKey>, id: Option<string>,
                       state: DeliveryState): (Rows, Option<Resolved>)
  {
    var key := Resolve(Union(r.deliveries, r.mailbox), recipient, to, if id.Some? then id.value else "");
    if NeedsHuman(state) then (r.deliveries[key := Row(to, state)], None)
    else
      (r.deliveries - {key},
       if key in r.deliveries
       then Some(Resolved(DeliveryItem(key, r.deliveries[key].to, r.deliveries[key].state), Moved))
       else None)
  }

  // An edge keeps the rows well kept: a label reference that lands on a legacy
  // key lands on the key of that label.
  lemma ObserveKeeps(r: Register, to: string, recipient: Option<RecipientKey>, id: Option<string>, state: DeliveryState)
    requires WellKept(r.deliveries)
    ensures WellKept(ObserveRows(r, to, recipient, id, state).0)
  {
    ResolvedLabel(Union(r.deliveries, r.mailbox), recipient, to, if id.Some? then id.value else "");
  }

  lemma ResolvedLabel(union: Rows, recipient: Option<RecipientKey>, to: string, id: string)
    ensures var key := Resolve(union, recipient, to, id);
      key.id == id && (key.who.LegacyLabel? ==> key.who.name == to)
  {
    if recipient.None? && |Carriers(union, to, id)| == 1 {
      assert TheOne(Carriers(union, to, id)) in Carriers(union, to, id);
    }
  }

  function BlockedPanes(agents: map<string, Pane>): set<string> {
    set p | p in agents && IsBlocked(agents[p].state)
  }

  // ---------------------------------------------------------------------
  // The register object
  // ---------------------------------------------------------------------

  class AttentionRegister {
    var agents: map<string, Pane>
    var deliveries: Rows
    var mailbox: Rows
    var union: Rows

    // The cached union is the union.
    ghost predicate Valid()
      reads this
    {
      union == Union(deliveries, mailbox) && WellKept(deliveries) && WellKept(mailbox)
    }

    function View(): Register
      reads this
    {
      Register(agents, deliveries, mailbox)
    }

    constructor ()
      ensures Valid() && View() == Register(map[], map[], map[])
    {
      agents, deliveries, mailbox, union := map[], map[], map[], map[];
    }

    method RebuildUnion()
      modifies this`union
      ensures union == Union(deliveries, mailbox)
    {
      var merged := MergeHalves(deliveries, mailbox);
      var exactByLabel := CountExact(merged);
      var twins := {};
      var todo := merged.Keys;
      while todo != {}
        invariant todo <= merged.Keys
        invariant twins == set k | k in merged && k !in todo && Hidden(merged, k)
        decreases todo
      {
        var k :| k in todo;
        if k.who.LegacyLabel? && (k.who.name, k.id) in exactByLabel && exactByLabel[(k.who.name, k.id)] == 1 {
          twins := twins + {k};
        }
        todo := todo - {k};
      }
      union := merged - twins;
    }

    method SnapshotAgents(panes: seq<PaneSnapshot>)
      requires Valid()
      modifies this`agents
      ensures Valid() && View() == old(View()).(agents := Roster(panes))
    {
      agents := Roster(panes);
    }

    method SnapshotDeliveries(open: seq<OpenDelivery>)
      requires Valid()
      modifies this`deliveries, this`union
      ensures Valid() && View() == old(View()).(deliveries := Keyed(open))
    {
      deliveries := Keyed(open);
      RebuildUnion();
    }

    method SnapshotMailbox(rows: seq<OpenDelivery>)
      requires Valid()
      modifies this`deliveries, this`mailbox, this`union
      ensures Valid()
      ensures mailbox == Keyed(rows)
      ensures deliveries == Ended(old(deliveries), old(mailbox), mailbox)
    {
      var next := Keyed(rows);
      EndAllAbsent(next);
      mailbox := next;
      RebuildUnion();
    }

    method EndAllAbsent(next: Rows)
      requires WellKept(deliveries)
      modifies this`deliveries
      ensures deliveries == Ended(old(deliveries), mailbox, next) && WellKept(deliveries)
    {
      EndInOrder(next, SortedKeys(mailbox.Keys));
    }

    method EndInOrder(next: Rows, order: seq<Key>)
      requires WellKept(deliveries) && forall i :: 0 <= i < |order| ==> order[i] in mailbox
      modifies this`deliveries
      ensures deliveries == EndOmitted(old(deliveries), mailbox, next, order) && WellKept(deliveries)
    {
      for i := 0 to |order|
        invariant deliveries == EndOmitted(old(deliveries), mailbox, next, order[..i])
        invariant WellKept(deliveries)
      {
        assert order[..i + 1][..i] == order[..i];
        if order[i] !in next {
          EndAbsent(order[i]);
        }
      }
      assert order[..|order|] == order;
    }

    // An authoritative absence ends the key, and its twin when it has one.
    method EndAbsent(k: Key)
      requires k in mailbox && WellKept(deliveries)
      modifies this`deliveries
      ensures deliveries == EndOne(old(deliveries), mailbox, k) && WellKept(deliveries)
    {
      deliveries := deliveries - {k};
      if k.who.Exact? {
        var name := mailbox[k].to;
        if !OtherCarrier(mailbox, k, name) && !OtherCarrier(deliveries, k, name) {
          deliveries := deliveries - {Key(LegacyLabel(name), k.id)};
        }
      }
    }

    method ObserveAgent(target: string, paneId: Option<string>, state: AgentState) returns (r: Option<Resolved>)
      requires Valid()
      modifies this`agents
      ensures Valid()
      ensures var key := if paneId.Some? then paneId.value else target;
        && View() == old(View()).(agents := old(agents)[key := Pane(target, state)])
        && r == if key in old(agents) && IsBlocked(old(agents)[key].state) && !IsBlocked(state)
                then Some(Resolved(AgentItem(key, old(agents)[key].name, old(agents)[key].state), Moved))
                else None
    {
      var key := if paneId.Some? then paneId.value else target;
      r := None;
      if key in agents && IsBlocked(agents[key].state) && !IsBlocked(state) {
        r := Some(Resolved(AgentItem(key, agents[key].name, agents[key].state), Moved));
      }
      agents := agents[key := Pane(target, state)];
    }

    method ForgetAgent(paneId: string) returns (r: Option<Resolved>)
      requires Valid()
      modifies this`agents
      ensures Valid() && View() == old(View()).(agents := old(agents) - {paneId})
      ensures r == if paneId in old(agents) && IsBlocked(old(agents)[paneId].state)
                   then Some(Resolved(AgentItem(paneId, old(agents)[paneId].name, old(agents)[paneId].state), PaneGone))
                   else None
    {
      r := None;
      if paneId in agents && IsBlocked(agents[paneId].state) {
        r := Some(Resolved(AgentItem(paneId, agents[paneId].name, agents[paneId].state), PaneGone));
      }
      agents := agents - {paneId};
    }

    method ObserveDelivery(to: string, recipient: Option<RecipientKey>, id: Option<string>, state: DeliveryState)
      returns (r: Option<Resolved>)
      requires Valid()
      modifies this`deliveries, this`union
      ensures Valid()
      ensures (deliveries, r) == ObserveRows(old(View()), to, recipient, id, state)
    {
      ObserveKeeps(View(), to, recipient, id, state);
      var key := Resolve(union, recipient, to, if id.Some? then id.value else "");
      r := None;
      if NeedsHuman(state) {
        deliveries := deliveries[key := Row(to, state)];
      } else {
        if key in deliveries {
          r := Some(Resolved(DeliveryItem(key, deliveries[key].to, deliveries[key].state), Moved));
        }
        deliveries := deliveries - {key};
      }
      RebuildUnion();
    }

    function Count(): nat
      reads this
    {
      |BlockedPanes(agents)| + |union|
    }

    // Every item once, in the one order there is.
    method Items() returns (items: seq<Item>)
      ensures Ordered(items) && |items| == Count()
      ensures multiset(items) == multiset(AllItems(agents, union))
    {
      var panes := ListPanes(agents);
      var rows := ListRows(union);
      DisjointMultisets(PaneItems(agents), RowItems(union));
      items := SortItems(panes + rows);
      ItemsSize(agents, union, items);
    }
  }

  method ListPanes(agents: map<string, Pane>) returns (list: seq<Item>)
    ensures multiset(list) == multiset(PaneItems(agents))
    ensures TiesInOrder(list) && forall i :: 0 <= i < |list| ==> list[i].AgentItem?
  {
    list := [];
    var panes := BlockedPanes(agents);
    ghost var listed := {};
    while panes != {}
      invariant panes <= BlockedPanes(agents)
      invariant listed == set p | p in BlockedPanes(agents) && p !in panes :: PaneItem(agents, p)
      invariant multiset(list) == multiset(listed)
      invariant forall i :: 0 <= i < |list| ==> list[i].AgentItem? && list[i].paneId !in panes
      invariant forall i, j :: 0 <= i < j < |list| ==> list[i].paneId != list[j].paneId
      decreases panes
    {
      var p :| p in panes;
      list := list + [PaneItem(agents, p)];
      listed := listed + {PaneItem(agents, p)};
      panes := panes - {p};
    }
  }

  // In key order, so rows the sort does not tell apart are in recipient order.
  method ListRows(union: Rows) returns (list: seq<Item>)
    ensures multiset(list) == multiset(RowItems(union))
    ensures TiesInOrder(list) && forall i :: 0 <= i < |list| ==> list[i].DeliveryItem?
  {
    var order := SortedKeys(union.Keys);
    AscendingDistinct(order);
    list := ListInOrder(union, order);
    assert forall k :: k in union ==> k in order;
    assert RowItems(union) == set i | 0 <= i < |order| :: RowItem(union, order[i]);
  }

  method ListInOrder(union: Rows, order: seq<Key>) returns (list: seq<Item>)
    requires forall i :: 0 <= i < |order| ==> order[i] in union
    requires forall i, j :: 0 <= i < j < |order| ==> order[i] != order[j]
    ensures |list| == |order| && forall i :: 0 <= i < |list| ==> list[i] == RowItem(union, order[i])
    ensures multiset(list) == multiset(set i | 0 <= i < |order| :: RowItem(union, order[i]))
  {
    list := [];
    ghost var listed := {};
    for n := 0 to |order|
      invariant |list| == n && forall i :: 0 <= i < n ==> list[i] == RowItem(union, order[i])
      invariant listed == set i | 0 <= i < n :: RowItem(union, order[i])
      invariant multiset(list) == multiset(listed)
    {
      assert RowItem(union, order[n]) !in listed;
      list := list + [RowItem(union, order[n])];
      listed := listed + {RowItem(union, order[n])};
    }
  }

  lemma AscendingDistinct(order: seq<Key>)
    requires Ascending(order)
    ensures forall i, j :: 0 <= i < j < |order| ==>
      order[i] != order[j] && (order[i].id == order[j].id ==> WhoLess(order[i].who, order[j].who))
  {
    forall i, j | 0 <= i < j < |order|
      ensures order[i] != order[j] && (order[i].id == order[j].id ==> WhoLess(order[i].who, order[j].who))
    {
      KeyTotal(order[i], order[j]);
      StringTotal(order[i].id, order[j].id);
    }
  }

  lemma DisjointMultisets(a: set<Item>, b: set<Item>)
    requires a !! b
    ensures multiset(a + b) == multiset(a) + multiset(b)
  {
  }

  function PaneItem(agents: map<string, Pane>, p: string): Item
    requires p in agents
  {
    AgentItem(p, agents[p].name, agents[p].state)
  }

  function RowItem(union: Rows, k: Key): Item
    requires k in union
  {
    DeliveryItem(k, union[k].to, union[k].state)
  }

  ghost function PaneItems(agents: map<string, Pane>): set<Item> {
    set p | p in BlockedPanes(agents) :: PaneItem(agents, p)
  }

  ghost function RowItems(union: Rows): set<Item> {
    set k | k in union :: RowItem(union, k)
  }

  ghost function AllItems(agents: map<string, Pane>, union: Rows): set<Item> {
    PaneItems(agents) + RowItems(union)
  }

  lemma {:induction false} PaneItemsSize(agents: map<string, Pane>, panes: set<string>)
    requires panes <= BlockedPanes(agents)
    ensures |set p | p in panes :: PaneItem(agents, p)| == |panes|
    decreases panes
  {
    if panes != {} {
      var q :| q in panes;
      PaneItemsSize(agents, panes - {q});
      assert (set p | p in panes :: PaneItem(agents, p))
          == (set p | p in panes - {q} :: PaneItem(agents, p)) + {PaneItem(agents, q)};
    }
  }

  lemma {:induction false} RowItemsSize(union: Rows, keys: set<Key>)
    requires keys <= union.Keys
    ensures |set k | k in keys :: RowItem(union, k)| == |keys|
    decreases keys
  {
    if keys != {} {
      var q :| q in keys;
      RowItemsSize(union, keys - {q});
      assert (set k | k in keys :: RowItem(union, k))
          == (set k | k in keys - {q} :: RowItem(union, k)) + {RowItem(union, q)};
    }
  }

  lemma ItemsSize(agents: map<string, Pane>, union: Rows, items: seq<Item>)
    requires multiset(items) == multiset(AllItems(agents, union))
    ensures |items| == |BlockedPanes(agents)| + |union|
  {
    PaneItemsSize(agents, BlockedPanes(agents));
    RowItemsSize(union, union.Keys);
    assert RowItems(union) == set k | k in union.Keys :: RowItem(union, k);
    assert |items| == |multiset(items)| == |AllItems(agents, union)|;
  }

  // ---------------------------------------------------------------------
  // Sort order
  // ---------------------------------------------------------------------

  function SortKey(item: Item): (string, nat, string) {
    match item
    case AgentItem(paneId, name, _) => (name, 0, paneId)
    case DeliveryItem(key, to, _) => (to, 1, key.id)
  }

  // By name, then panes before deliveries, then by identity.
  predicate SortLess(a: Item, b: Item) {
    var (an, ah, ai) := SortKey(a);
    var (bn, bh, bi) := SortKey(b);
    if an != bn then StringLess(an, bn)
    else if ah != bh then ah < bh
    else StringLess(ai, bi)
  }

  // The sort is stable, so rows for one label and message go by recipient.
  predicate ItemLess(a: Item, b: Item) {
    if SortKey(a) != SortKey(b) then SortLess(a, b)
    else a.DeliveryItem? && b.DeliveryItem? && WhoLess(a.key.who, b.key.who)
  }

  predicate Ordered(items: seq<Item>) {
    forall i, j :: 0 <= i < j < |items| ==> ItemLess(items[i], items[j])
  }

  // What a stable sort needs of its input: items it does not tell apart are
  // already in order.
  predicate TiesInOrder(items: seq<Item>) {
    forall i, j :: 0 <= i < j < |items| && SortKey(items[i]) == SortKey(items[j]) ==> ItemLess(items[i], items[j])
  }

  lemma SortTotal(a: Item, b: Item)
    ensures SortLess(a, b) || SortKey(a) == SortKey(b) || SortLess(b, a)
    ensures !(SortLess(a, b) && SortLess(b, a)) && (SortKey(a) == SortKey(b) ==> !SortLess(a, b))
  {
    StringTotal(SortKey(a).0, SortKey(b).0);
    StringTotal(SortKey(a).2, SortKey(b).2);
  }

  lemma SortTransitive(a: Item, b: Item, c: Item)
    requires SortLess(a, b) && SortLess(b, c)
    ensures SortLess(a, c)
  {
    var (an, ah, ai) := SortKey(a);
    var (bn, bh, bi) := SortKey(b);
    var (cn, ch, ci) := SortKey(c);
    if an != bn && bn != cn {
      StringTransitive(an, bn, cn);
      StringTotal(an, bn);
    } else if an == bn == cn && ah == bh == ch {
      StringTransitive(ai, bi, ci);
    }
  }

  lemma ItemTransitive(a: Item, b: Item, c: Item)
    requires ItemLess(a, b) && ItemLess(b, c)
    ensures ItemLess(a, c)
  {
    if SortKey(a) != SortKey(b) && SortKey(b) != SortKey(c) {
      SortTransitive(a, b, c);
      SortTotal(a, b);
    } else if SortKey(a) == SortKey(b) == SortKey(c) {
      WhoTransitive(a.key.who, b.key.who, c.key.who);
    } else {
      SortTotal(a, c);
    }
  }

  lemma ItemAsymmetric(a: Item, b: Item)
    ensures !(ItemLess(a, b) && ItemLess(b, a))
  {
    SortTotal(a, b);
    if a.DeliveryItem? && b.DeliveryItem? { WhoTotal(a.key.who, b.key.who); }
  }

  function SortItems(items: seq<Item>): (sorted: seq<Item>)
    requires TiesInOrder(items)
    ensures Ordered(sorted) && multiset(sorted) == multiset(items)
  {
    if items == [] then []
    else
      var front, item := items[..|items| - 1], items[|items| - 1];
      assert items == front + [item];
      var sorted := SortItems(front);
      assert forall i :: 0 <= i < |sorted| && SortKey(sorted[i]) == SortKey(item) ==> ItemLess(sorted[i], item) by {
        forall i | 0 <= i < |sorted| && SortKey(sorted[i]) == SortKey(item)
          ensures ItemLess(sorted[i], item)
        {
          assert sorted[i] in multiset(sorted) && sorted[i] in front;
        }
      }
      InsertItem(sorted, item)
  }

  // After every item it does not precede, so equal keys keep their order.
  function InsertItem(sorted: seq<Item>, item: Item): (r: seq<Item>)
    requires Ordered(sorted)
    requires forall i :: 0 <= i < |sorted| && SortKey(sorted[i]) == SortKey(item) ==> ItemLess(sorted[i], item)
    ensures Ordered(r) && multiset(r) == multiset(sorted) + multiset{item}
  {
    if sorted == [] then [item]
    else if SortLess(item, sorted[0]) then
      InsertFirst(sorted, item);
      [item] + sorted
    else
      SortTotal(item, sorted[0]);
      assert sorted == [sorted[0]] + sorted[1..];
      var rest := InsertItem(sorted[1..], item);
      KeepFirst(sorted, item, rest);
      [sorted[0]] + rest
  }

  lemma InsertFirst(sorted: seq<Item>, item: Item)
    requires Ordered(sorted) && sorted != [] && SortLess(item, sorted[0])
    ensures Ordered([item] + sorted)
  {
    SortTotal(item, sorted[0]);
    forall j | 0 <= j < |sorted|
      ensures ItemLess(item, sorted[j])
    {
      if j > 0 { ItemTransitive(item, sorted[0], sorted[j]); }
    }
  }

  lemma KeepFirst(sorted: seq<Item>, item: Item, rest: seq<Item>)
    requires Ordered(sorted) && sorted != [] && ItemLess(sorted[0], item)
    requires Ordered(rest) && multiset(rest) == multiset(sorted[1..]) + multiset{item}
    ensures Ordered([sorted[0]] + rest)
  {
    forall j | 0 <= j < |rest|
      ensures ItemLess(sorted[0], rest[j])
    {
      assert rest[j] in multiset(rest);
      if rest[j] != item { assert rest[j] in sorted[1..]; }
    }
  }

  // By name; for one name panes before deliveries; then by pane, or by message
  // and recipient.
  lemma OrderedMeans(items: seq<Item>, i: nat, j: nat)
    requires Ordered(items) && i < j < |items|
    ensures var a, b := items[i], items[j];
      && !StringLess(NameOf(b), NameOf(a))
      && (NameOf(a) == NameOf(b) ==>
            && (a.DeliveryItem? ==> b.DeliveryItem?)
            && (a.AgentItem? && b.AgentItem? ==> StringLess(a.paneId, b.paneId))
            && (a.DeliveryItem? && b.DeliveryItem? ==>
                  StringLess(a.key.id, b.key.id) || (a.key.id == b.key.id && WhoLess(a.key.who, b.key.who))))
  {
    StringTotal(NameOf(items[i]), NameOf(items[j]));
  }

  function NameOf(item: Item): string {
    match item
    case AgentItem(_, name, _) => name
    case DeliveryItem(_, to, _) => to
  }

  // Exact recipients before bare labels, then by message.
  lemma KeyOrder(r: RecipientKey, s: RecipientKey, m: string, n: string, id: string, other: string)
    ensures KeyLess(Key(Exact(r), id), Key(LegacyLabel(m), other))
    ensures r != s ==> (KeyLess(Key(Exact(r), id), Key(Exact(s), other)) <==> RecipientLess(r, s))
    ensures m != n ==> (KeyLess(Key(LegacyLabel(m), id), Key(LegacyLabel(n), other)) <==> StringLess(m, n))
    ensures KeyLess(Key(Exact(r), id), Key(Exact(r), other)) <==> StringLess(id, other)
    ensures KeyLess(Key(LegacyLabel(m), id), Key(LegacyLabel(m), other)) <==> StringLess(id, other)
  {
  }

  // THEOREM. There is one ordered list of given items, so the same backlog
  // always reads the same way.
  lemma {:induction false} OrderedUnique(a: seq<Item>, b: seq<Item>)
    requires Ordered(a) && Ordered(b) && multiset(a) == multiset(b)
    ensures a == b
    decreases |a|
  {
    assert |a| == |multiset(a)| == |b|;
    if a != [] {
      SameFirst(a, b);
      WithoutFirst(a);
      WithoutFirst(b);
      OrderedUnique(a[1..], b[1..]);
    }
  }

  lemma SameFirst(a: seq<Item>, b: seq<Item>)
    requires Ordered(a) && Ordered(b) && multiset(a) == multiset(b) && a != [] && b != []
    ensures a[0] == b[0]
  {
    assert a[0] in multiset(a) && b[0] in multiset(b);
    FirstPrecedes(a, b[0]);
    FirstPrecedes(b, a[0]);
    ItemAsymmetric(a[0], b[0]);
  }

  lemma WithoutFirst(items: seq<Item>)
    requires Ordered(items) && items != []
    ensures items == [items[0]] + items[1..]
    ensures Ordered(items[1..]) && multiset(items[1..]) == multiset(items) - multiset{items[0]}
  {
    assert items == [items[0]] + items[1..];
  }

  lemma FirstPrecedes(items: seq<Item>, item: Item)
    requires Ordered(items) && item in multiset(items)
    ensures items[0] == item || ItemLess(items[0], item)
  {
    assert item in items;
  }

  method MergeHalves(deliveries: Rows, mailbox: Rows) returns (merged: Rows)
    ensures merged == Merged(deliveries, mailbox)
  {
    merged := deliveries;
    var todo := mailbox.Keys;
    while todo != {}
      invariant todo <= mailbox.Keys
      invariant merged == deliveries + (map k | k in mailbox && k !in todo :: mailbox[k])
      decreases todo
    {
      var k :| k in todo;
      merged := merged[k := mailbox[k]];
      todo := todo - {k};
    }
  }

  // How many exact rows carry each label and message.
  method CountExact(rows: Rows) returns (counts: map<(string, string), nat>)
    ensures forall name, id ::
      (if (name, id) in counts then counts[(name, id)] else 0) == |Carriers(rows, name, id)|
  {
    counts := map[];
    var todo := rows.Keys;
    ghost var done: Rows := map[];
    while todo != {}
      invariant todo <= rows.Keys
      invariant done == map k | k in rows && k !in todo :: rows[k]
      invariant forall name, id ::
        (if (name, id) in counts then counts[(name, id)] else 0) == |Carriers(done, name, id)|
      decreases todo
    {
      var k :| k in todo;
      CarriersAdd(done, k, rows[k]);
      done := done[k := rows[k]];
      if k.who.Exact? {
        var slot := (rows[k].to, k.id);
        counts := counts[slot := (if slot in counts then counts[slot] else 0) + 1];
      }
      todo := todo - {k};
    }
    assert done == rows;
  }

  lemma CarriersAdd(rows: Rows, k: Key, row: Row)
    requires k !in rows
    ensures forall name, id ::
      |Carriers(rows[k := row], name, id)| ==
      |Carriers(rows, name, id)| + (if k.who.Exact? && k.id == id && row.to == name then 1 else 0)
  {
    forall name, id
      ensures |Carriers(rows[k := row], name, id)| ==
        |Carriers(rows, name, id)| + if k.who.Exact? && k.id == id && row.to == name then 1 else 0
    {
      var was, now := Carriers(rows, name, id), Carriers(rows[k := row], name, id);
      if k.who.Exact? && k.id == id && row.to == name {
        assert now == was + {k};
      } else {
        assert now == was;
      }
    }
  }
}
